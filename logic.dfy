/**
 * The command-line rules of `change_background`: which monitors are
 * targeted, the per-monitor copy named `<desktop>_<timestamp>.jpg` and the
 * rule that the source must not already carry that name, the loop that hands
 * each copy to the operating system, and the scale-and-crop arithmetic of
 * `adjust_image`. File-system checks, the clock, the copy itself and the
 * image library are inputs.
 */
module Logic {
  import opened Results
  import opened Text
  import opened ImageProc

  // ---------------------------------------------------------------------------
  // Which monitors are targeted

  /** How the checks of `change_background` end: the monitors to process, or why it stopped. */
  datatype Selection =
    | UsageError                          // no file argument
    | FileRejected                        // missing, not a regular file, or no absolute path
    | CountFailed(message: string)        // the monitor count could not be obtained
    | InvalidMonitor(argument: string)    // the monitor argument is not an `i32`
    | OutOfRange(monitor: int, count: int)
    | Targets(monitors: seq<int>)

  /** `(1..=count).collect()`: every monitor from 1 to `count`, in ascending order. */
  function MonitorRange(count: int): (r: seq<int>)
    ensures |r| == if count < 1 then 0 else count
    ensures forall i :: 0 <= i < |r| ==> r[i] == i + 1
    ensures forall n :: n in r <==> 1 <= n <= count
    decreases if count < 1 then 0 else count
  {
    if count < 1 then [] else MonitorRange(count - 1) + [count]
  }

  /**
   * The target list of `change_background`. `fileUsable` is the outcome of
   * the existence, regular-file and canonical-path checks on the first
   * argument; `count` is what `get_monitor_count` returned. A second
   * argument selects one monitor; further arguments are ignored.
   */
  function SelectTargets(args: seq<string>, fileUsable: bool, count: Result<int>): (r: Selection)
    ensures r == UsageError <==> args == []
    ensures r.Targets? <==>
      && args != [] && fileUsable && count.Ok?
      && (|args| >= 2 ==> ParseI32(args[1]).Some? && 1 <= ParseI32(args[1]).value <= count.value)
    ensures r.Targets? && |args| >= 2 ==> r.monitors == [ParseI32(args[1]).value]
    ensures r.Targets? && |args| == 1 ==> r.monitors == MonitorRange(count.value)
    ensures r.Targets? ==> forall n :: n in r.monitors ==> 1 <= n <= count.value
    ensures r.InvalidMonitor? <==> args != [] && fileUsable && count.Ok? && |args| >= 2 && ParseI32(args[1]).None?
  {
    if args == [] then UsageError
    else if !fileUsable then FileRejected
    else match count
      case Err(e) => CountFailed(e)
      case Ok(c) =>
        if |args| >= 2 then
          match ParseI32(args[1])
          case None => InvalidMonitor(args[1])
          case Some(n) => if n < 1 || n > c then OutOfRange(n, c) else Targets([n])
        else Targets(MonitorRange(c))
  }

  /** Any monitor number in `1..=count`, written in decimal, selects exactly that monitor. */
  lemma MonitorArgumentAccepted(file: string, n: int, count: int)
    requires 1 <= n <= count <= I32_MAX
    ensures SelectTargets([file, IntToString(n)], true, Ok(count)) == Targets([n])
  {
    ParseI32RoundTrip(n);
  }

  /** A monitor number outside `1..=count` is refused, and nothing is targeted. */
  lemma MonitorArgumentRefused(file: string, n: int, count: int)
    requires I32_MIN <= n <= I32_MAX && (n < 1 || n > count)
    ensures SelectTargets([file, IntToString(n)], true, Ok(count)) == OutOfRange(n, count)
  {
    ParseI32RoundTrip(n);
  }

  // ---------------------------------------------------------------------------
  // The per-monitor copy

  /** `format!("{}_{}.jpg", desktop_num, timestamp)`. */
  function TargetFileName(desktop: int, timestamp: nat): string {
    IntToString(desktop) + "_" + NatToString(timestamp) + ".jpg"
  }

  /** The decimal form of an integer holds no underscore. */
  lemma NoUnderscore(n: int, i: nat)
    requires i < |IntToString(n)|
    ensures IntToString(n)[i] != '_'
  {
    var s := IntToString(n);
    if i > 0 {
      assert s[i] == s[1..][i - 1];
    }
  }

  /** The first underscore of a target name ends the monitor number. */
  lemma UnderscoreSplits(desktop: int, timestamp: nat)
    ensures var s, a := TargetFileName(desktop, timestamp), IntToString(desktop);
      && FindChar(s, '_') == Some(|a|)
      && s[..|a|] == a && s[|a| + 1..|s| - 4] == NatToString(timestamp)
  {
    var s, a := TargetFileName(desktop, timestamp), IntToString(desktop);
    assert s[..|a|] == a;
    assert s[|a|] == '_';
    forall i | 0 <= i < |a|
      ensures s[..|a|][i] != '_'
    {
      NoUnderscore(desktop, i);
    }
  }

  /**
   * Different monitors or different seconds never share a target name, so
   * no copy overwrites another copy made in the same run.
   */
  lemma TargetFileNameInjective(d1: int, t1: nat, d2: int, t2: nat)
    ensures TargetFileName(d1, t1) == TargetFileName(d2, t2) ==> d1 == d2 && t1 == t2
  {
    if TargetFileName(d1, t1) == TargetFileName(d2, t2) {
      UnderscoreSplits(d1, t1);
      UnderscoreSplits(d2, t2);
      IntToStringInjective(d1, d2);
      NatToStringInjective(t1, t2);
    }
  }

  /** Whether the source's file name is the target name of this monitor at this second. */
  predicate Clashes(sourceName: Option<string>, desktop: int, timestamp: nat) {
    sourceName == Some(TargetFileName(desktop, timestamp))
  }

  /** Within one second, a source file name can clash with the target name of one monitor only. */
  lemma ClashOnOneMonitorOnly(sourceName: Option<string>, d1: int, d2: int, timestamp: nat)
    requires Clashes(sourceName, d1, timestamp) && Clashes(sourceName, d2, timestamp)
    ensures d1 == d2
  {
    TargetFileNameInjective(d1, timestamp, d2, timestamp);
  }

  /**
   * `create_target_file`. `sourceName` is `file_path.file_name()`; `place`
   * stands for removing a stale target, copying the source to it, adjusting
   * it and resolving its absolute path, and yields that path or nothing when
   * one of those steps failed.
   */
  function CreateTargetFile(sourceName: Option<string>, desktop: int, timestamp: nat,
                            place: string -> Option<string>): (r: Option<string>)
    ensures Clashes(sourceName, desktop, timestamp) ==> r.None?
    ensures !Clashes(sourceName, desktop, timestamp) ==> r == place(TargetFileName(desktop, timestamp))
  {
    var target := TargetFileName(desktop, timestamp);
    if sourceName == Some(target) then None else place(target)
  }

  // ---------------------------------------------------------------------------
  // The loop over the targets

  /** One `set_background` call: the monitor and the absolute path of its copy. */
  datatype Assignment = Assignment(desktop: int, path: string)

  /**
   * The `set_background` calls the first `n` iterations of the loop make for
   * `targets`, where `copy(desktop, timestamp)` is what `create_target_file`
   * returns; iteration `i` reads the clock as `clock(i)`, and a monitor whose
   * copy is refused or fails is skipped.
   */
  function Calls(copy: (int, nat) -> Option<string>, targets: seq<int>, clock: nat -> nat, n: nat): (r: seq<Assignment>)
    requires n <= |targets|
    ensures |r| <= n
  {
    if n == 0 then []
    else
      Calls(copy, targets, clock, n - 1) +
        match copy(targets[n - 1], clock(n - 1))
        case None => []
        case Some(path) => [Assignment(targets[n - 1], path)]
  }

  /** `create_target_file` for a given source name and copy step, as a function of the monitor and the second. */
  function Copier(sourceName: Option<string>, place: string -> Option<string>): (int, nat) -> Option<string> {
    (desktop: int, timestamp: nat) => CreateTargetFile(sourceName, desktop, timestamp, place)
  }

  /** The calls of the whole loop: at most one per target. */
  function Assignments(targets: seq<int>, sourceName: Option<string>, clock: nat -> nat,
                       place: string -> Option<string>): (r: seq<Assignment>)
    ensures |r| <= |targets|
  {
    Calls(Copier(sourceName, place), targets, clock, |targets|)
  }

  /** The per-monitor `for` loop of `change_background`. */
  method SetBackgrounds(targets: seq<int>, sourceName: Option<string>, clock: nat -> nat,
                        place: string -> Option<string>) returns (calls: seq<Assignment>)
    ensures calls == Assignments(targets, sourceName, clock, place)
  {
    calls := [];
    for i := 0 to |targets|
      invariant calls == Calls(Copier(sourceName, place), targets, clock, i)
    {
      var timestamp := clock(i);
      var copied := CreateTargetFile(sourceName, targets[i], timestamp, place);
      if copied.None? {
        continue;
      }
      calls := calls + [Assignment(targets[i], copied.value)];
    }
  }

  /** The call was made by some iteration among the first `n`: its monitor, and the copy made for it. */
  predicate MadeBy(copy: (int, nat) -> Option<string>, targets: seq<int>, clock: nat -> nat, n: nat, a: Assignment) {
    exists i :: 0 <= i < n && i < |targets| && targets[i] == a.desktop && copy(a.desktop, clock(i)) == Some(a.path)
  }

  /** Every call of the first `n` iterations was made by one of them, from the copy made for its monitor. */
  lemma {:induction false} CallsSound(copy: (int, nat) -> Option<string>, targets: seq<int>, clock: nat -> nat, n: nat)
    requires n <= |targets|
    ensures forall j :: 0 <= j < |Calls(copy, targets, clock, n)| ==> MadeBy(copy, targets, clock, n, Calls(copy, targets, clock, n)[j])
  {
    if n > 0 {
      CallsSound(copy, targets, clock, n - 1);
      var calls, prev := Calls(copy, targets, clock, n), Calls(copy, targets, clock, n - 1);
      forall j | 0 <= j < |calls|
        ensures MadeBy(copy, targets, clock, n, calls[j])
      {
        if j < |prev| {
          assert calls[j] == prev[j];
          assert MadeBy(copy, targets, clock, n - 1, prev[j]);
        } else {
          assert calls[j].desktop == targets[n - 1];
        }
      }
    }
  }

  /** The call is justified by some iteration: its monitor, no clash, and the copy made for it. */
  predicate Justified(targets: seq<int>, sourceName: Option<string>, clock: nat -> nat,
                      place: string -> Option<string>, a: Assignment) {
    exists i :: 0 <= i < |targets| && targets[i] == a.desktop
      && !Clashes(sourceName, a.desktop, clock(i))
      && place(TargetFileName(a.desktop, clock(i))) == Some(a.path)
  }

  /** Every call in `calls` is justified by some iteration. */
  predicate AllJustified(targets: seq<int>, sourceName: Option<string>, clock: nat -> nat,
                         place: string -> Option<string>, calls: seq<Assignment>) {
    forall j :: 0 <= j < |calls| ==> Justified(targets, sourceName, clock, place, calls[j])
  }

  /** Every call sets a target monitor to a copy under its own target name, never to the source's name. */
  lemma AssignmentsSound(targets: seq<int>, sourceName: Option<string>, clock: nat -> nat,
                         place: string -> Option<string>)
    ensures AllJustified(targets, sourceName, clock, place, Assignments(targets, sourceName, clock, place))
  {
    var copy := Copier(sourceName, place);
    var calls := Assignments(targets, sourceName, clock, place);
    CallsSound(copy, targets, clock, |targets|);
    forall j | 0 <= j < |calls|
      ensures Justified(targets, sourceName, clock, place, calls[j])
    {
      assert MadeBy(copy, targets, clock, |targets|, calls[j]);
      var i :| 0 <= i < |targets| && targets[i] == calls[j].desktop && copy(calls[j].desktop, clock(i)) == Some(calls[j].path);
      assert CreateTargetFile(sourceName, calls[j].desktop, clock(i), place) == Some(calls[j].path);
    }
  }

  /** When every copy of the first `n` iterations succeeds, each of them makes its call, in order. */
  lemma {:induction false} CallsComplete(copy: (int, nat) -> Option<string>, targets: seq<int>, clock: nat -> nat, n: nat)
    requires n <= |targets|
    requires forall i :: 0 <= i < n ==> copy(targets[i], clock(i)).Some?
    ensures |Calls(copy, targets, clock, n)| == n
    ensures forall i :: 0 <= i < n ==> Calls(copy, targets, clock, n)[i].desktop == targets[i]
  {
    if n > 0 {
      CallsComplete(copy, targets, clock, n - 1);
      var calls, prev := Calls(copy, targets, clock, n), Calls(copy, targets, clock, n - 1);
      forall i | 0 <= i < n
        ensures calls[i].desktop == targets[i]
      {
        if i < n - 1 {
          assert calls[i] == prev[i];
        }
      }
    }
  }

  /** When no copy is refused or fails, every target monitor is set, in the order of the target list. */
  lemma AssignmentsComplete(targets: seq<int>, sourceName: Option<string>, clock: nat -> nat,
                            place: string -> Option<string>)
    requires forall i :: 0 <= i < |targets| ==> CreateTargetFile(sourceName, targets[i], clock(i), place).Some?
    ensures var calls := Assignments(targets, sourceName, clock, place);
      && |calls| == |targets|
      && forall i :: 0 <= i < |targets| ==> calls[i].desktop == targets[i]
  {
    var copy := Copier(sourceName, place);
    forall i | 0 <= i < |targets|
      ensures copy(targets[i], clock(i)).Some?
    {
      assert copy(targets[i], clock(i)) == CreateTargetFile(sourceName, targets[i], clock(i), place);
    }
    CallsComplete(copy, targets, clock, |targets|);
  }

  /** The calls of the first `k` iterations are a prefix of those of the first `n`: later iterations only append. */
  lemma {:induction false} CallsPrefix(copy: (int, nat) -> Option<string>, targets: seq<int>, clock: nat -> nat, k: nat, n: nat)
    requires k <= n <= |targets|
    ensures Calls(copy, targets, clock, k) <= Calls(copy, targets, clock, n)
  {
    if k < n {
      CallsPrefix(copy, targets, clock, k, n - 1);
      var part, prev, all := Calls(copy, targets, clock, k), Calls(copy, targets, clock, n - 1), Calls(copy, targets, clock, n);
      assert all[..|prev|] == prev;
      assert all[..|part|] == prev[..|part|] == part;
    }
  }

  /**
   * A refused or failed copy does not stop the loop: every iteration whose
   * copy succeeds makes its call, right after the calls of the iterations
   * before it.
   */
  lemma AssignmentsKeepGoing(targets: seq<int>, sourceName: Option<string>, clock: nat -> nat,
                             place: string -> Option<string>, i: nat, p: string)
    requires i < |targets| && CreateTargetFile(sourceName, targets[i], clock(i), place) == Some(p)
    ensures var before, calls := Calls(Copier(sourceName, place), targets, clock, i),
                                 Assignments(targets, sourceName, clock, place);
      && |before| < |calls| && calls[|before|] == Assignment(targets[i], p)
      && Assignment(targets[i], p) in calls
  {
    var copy := Copier(sourceName, place);
    assert copy(targets[i], clock(i)) == Some(p);
    CallsPrefix(copy, targets, clock, i + 1, |targets|);
    var after, calls := Calls(copy, targets, clock, i + 1), Assignments(targets, sourceName, clock, place);
    assert calls[|after| - 1] == after[|after| - 1];
  }

  /** A refused or failed copy adds no call; a successful one adds exactly its own. */
  lemma CallsStep(copy: (int, nat) -> Option<string>, targets: seq<int>, clock: nat -> nat, i: nat)
    requires i < |targets|
    ensures copy(targets[i], clock(i)).None? ==> Calls(copy, targets, clock, i + 1) == Calls(copy, targets, clock, i)
    ensures copy(targets[i], clock(i)).Some? ==>
      Calls(copy, targets, clock, i + 1) == Calls(copy, targets, clock, i) + [Assignment(targets[i], copy(targets[i], clock(i)).value)]
  {
  }

  /** The calls of successful iterations come in the order of those iterations. */
  lemma CallsInOrder(copy: (int, nat) -> Option<string>, targets: seq<int>, clock: nat -> nat, i: nat, k: nat)
    requires i < k <= |targets| && copy(targets[i], clock(i)).Some?
    ensures |Calls(copy, targets, clock, i)| < |Calls(copy, targets, clock, k)|
  {
    CallsPrefix(copy, targets, clock, i + 1, k);
  }

  /**
   * `change_background` with its inputs made explicit: the selection, then
   * the `set_background` calls; nothing is set unless the selection succeeds.
   */
  method ChangeBackground(args: seq<string>, fileUsable: bool, sourceName: Option<string>, count: Result<int>,
                          clock: nat -> nat, place: string -> Option<string>)
    returns (selection: Selection, calls: seq<Assignment>)
    ensures selection == SelectTargets(args, fileUsable, count)
    ensures selection.Targets? ==> calls == Assignments(selection.monitors, sourceName, clock, place)
    ensures !selection.Targets? ==> calls == []
    ensures args == [] ==> selection == UsageError && calls == []
  {
    selection := SelectTargets(args, fileUsable, count);
    calls := [];
    if selection.Targets? {
      calls := SetBackgrounds(selection.monitors, sourceName, clock, place);
    }
  }

  // ---------------------------------------------------------------------------
  // adjust_image

  /** What `adjust_image` does to the copy: why it stopped, nothing, or a resize and a crop. */
  datatype Adjustment =
    | SizeUnavailable(message: string)
    | ImageUnreadable(message: string)
    | Unchanged
    | Rescaled(resized: Size, cropX: nat, cropY: nat, cropWidth: nat, cropHeight: nat)

  /**
   * `adjust_image`, given what `get_monitor_size` returned and the size of the
   * opened image. The image is scaled by the larger of the two ratios and
   * cropped to the monitor from the offset `(new - monitor) / 2`. With exact
   * scales the `u32` subtractions never underflow, because the scaled image
   * covers the monitor.
   */
  function AdjustImage(monitor: Result<(nat, nat)>, image: Result<Size>): (r: Adjustment)
    requires image.Ok? ==> NonEmpty(image.value)
    ensures r.SizeUnavailable? <==> monitor.Err?
    ensures r.ImageUnreadable? <==> monitor.Ok? && image.Err?
    ensures r.Unchanged? <==> monitor.Ok? && image.Ok? && image.value == Size(monitor.value.0, monitor.value.1)
    ensures r.Rescaled? ==> monitor.Ok? && image.Ok?
    ensures r.Rescaled? ==>
      var screen := Size(monitor.value.0, monitor.value.1);
      && image.value != screen
      && r.resized == FillSize(image.value, screen)
      && r.cropWidth == screen.width && r.cropHeight == screen.height
      && r.cropX + r.cropWidth <= r.resized.width && r.cropY + r.cropHeight <= r.resized.height
      && 0 <= (r.resized.width - (r.cropX + r.cropWidth)) - r.cropX <= 1
      && 0 <= (r.resized.height - (r.cropY + r.cropHeight)) - r.cropY <= 1
  {
    match monitor
    case Err(e) => SizeUnavailable(e)
    case Ok((w, h)) =>
      match image
      case Err(e) => ImageUnreadable(e)
      case Ok(img) =>
        var screen := Size(w, h);
        if img == screen then Unchanged
        else
          FillCoversScreen(img, screen);
          var fill := FillSize(img, screen);
          Rescaled(fill, (fill.width - w) / 2, (fill.height - h) / 2, w, h)
  }

  /**
   * `(new_side - monitor_side) / 2` on `u32`, as written: the subtraction
   * wraps when the resized side is short of the monitor's (a release build
   * wraps; a debug build panics instead). Monitor sides come from `i32`.
   */
  function CropOffset(newSide: nat, monitorSide: nat): (r: nat)
    requires newSide < U32_LIMIT && monitorSide < I32_LIMIT
    ensures newSide >= monitorSide ==> 2 * r <= newSide - monitorSide <= 2 * r + 1
    ensures newSide < monitorSide ==> r > newSide
  {
    ((newSide - monitorSide) % U32_LIMIT) / 2
  }

  /**
   * A resized side one pixel short of the monitor's (as the `f32` product can
   * give) makes the crop offset 2^31 - 1, far outside the image.
   */
  lemma ShortResizeWrapsCropOffset(monitorSide: nat)
    requires 0 < monitorSide < I32_LIMIT
    ensures CropOffset(monitorSide - 1, monitorSide) == I32_LIMIT - 1
  {
  }

  /** In exact arithmetic the resized sides never fall short, so `adjust_image`'s offsets are the `u32` ones without wrap. */
  lemma AdjustImageCropOffsets(monitor: (nat, nat), img: Size)
    requires NonEmpty(img) && monitor.0 < I32_LIMIT && monitor.1 < I32_LIMIT
    ensures var r := AdjustImage(Ok(monitor), Ok(img));
      r.Rescaled? && r.resized.width < U32_LIMIT && r.resized.height < U32_LIMIT ==> r.cropX == CropOffset(r.resized.width, monitor.0) && r.cropY == CropOffset(r.resized.height, monitor.1)
  {
  }

  /**
   * `adjust_image` and `fill_to_size` resize to the same size, and their crop
   * offsets agree except that `fill_to_size` starts one pixel further in on an
   * axis where the resized side is even and the screen side odd.
   */
  lemma AdjustMatchesFillToSize(img: Size, screen: Size)
    requires NonEmpty(img) && img != screen
    requires FillSize(img, screen).width < I32_LIMIT && FillSize(img, screen).height < I32_LIMIT
    ensures var r, p := AdjustImage(Ok((screen.width, screen.height)), Ok(img)), FillToSize(img, screen);
      && r.Rescaled? && r.resized == p.resized
      && p.x1 - r.cropX == (if p.resized.width % 2 == 0 && screen.width % 2 == 1 then 1 else 0)
      && p.y1 - r.cropY == (if p.resized.height % 2 == 0 && screen.height % 2 == 1 then 1 else 0)
      && r.cropWidth == p.x2 - p.x1 && r.cropHeight == p.y2 - p.y1
  {
    FillToSizeCropsScreen(img, screen);
    FillCoversScreen(img, screen);
  }

  /** A 4000x2000 image on a 1920x1080 monitor becomes 2160x1080, cropped from (120, 0). */
  lemma AdjustLandscapeExample()
    ensures AdjustImage(Ok((1920, 1080)), Ok(Size(4000, 2000))) == Rescaled(Size(2160, 1080), 120, 0, 1920, 1080)
  {
    FillSizeClosedForm(Size(4000, 2000), Size(1920, 1080));
  }
}
