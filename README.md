# background_manager, modelled in Dafny

`background_manager` is a command-line tool. It copies an image once per
monitor, adjusts each copy to the monitor's size, and makes it that
monitor's desktop background. This project models three deterministic
parts of it and proves properties about them:

- **Wallpaper geometry** (`image_proc.dfy`, module `ImageProc`).
  - `fit_to_size` scales the image to fit inside the screen.
  - `fill_to_size` scales it to cover the screen, then crops a centred window. In exact arithmetic the `as u32` casts of its `i32` corners never wrap; with the program's float rounding they can (see "## Findings").
  - `combine_fit_and_fill` computes the blur radius and the paste offset. In exact arithmetic its unsigned subtraction never underflows.
  - Scale factors are exact rationals (`Scale(num, den)`), and `(side * scale) as u32` is `side * num / den`.
- **The macOS display list** (`mac_displays.dfy`, module `MacDisplays`).
  - This is the text processing of `get_profile_info` over the output of `system_profiler SPDisplaysDataType`:
    - skip to the `Displays:` line;
    - group the following lines into records;
    - read `W x H` from each record's `Resolution`.
  - It also covers the two queries built on that: `get_monitor_count` and `get_monitor_size`.
  - The three loops of the source are methods (`SkipToDisplays`, `GroupRecords` with its loop body `ConsumeLine`, `ExtractMonitors`). Each is proved equal to a specification function (`AfterDisplays`, `Group`, `Extract`), and the properties are proved about those functions.
- **The command-line rules** (`logic.dfy`, module `Logic`) of `change_background`:
  - which monitors are targeted;
  - the per-monitor copy named `<desktop>_<timestamp>.jpg`, and the rule that the source must not already have that name;
  - the loop that hands each copy to the operating system;
  - the scale-and-crop arithmetic of `adjust_image`, whose `u32` crop offsets never underflow in exact arithmetic (see "## Findings" for the float case).

`text.dfy` (module `Text`) holds the parts of the Rust standard library the core relies on, in ASCII:
- `trim`, `trim_end_matches` and `find`;
- decimal printing;
- `parse::<i32>`.

`results.dfy` holds `Option` and `Result`.

Some inputs of the source are passed to the model as parameters:
- the outcome of running the profiler;
- the outcome of the file checks;
- the file name of the source path;
- the monitor count and size;
- the clock, one reading per loop iteration;
- the combined remove/copy/adjust/canonicalise step.

## Model

| member | source | states |
|---|---|---|
| Text.TrimStartRemovesLeadingSpaces | src/os_level/mac/mod.rs:24 | `trim_start` removes exactly the longest whitespace prefix: the result is a suffix, what was removed is all whitespace, and the result does not start with whitespace |
| Text.TrimEndRemovesTrailingSpaces | src/os_level/mac/mod.rs:35 | `trim_end` removes exactly the longest whitespace suffix |
| Text.TrimProperties | src/os_level/mac/mod.rs:35-36 | a trimmed line neither starts nor ends with whitespace; it is empty exactly when the line is all whitespace (the `is_empty` test of the loop) |
| Text.TrimEndMatches | src/os_level/mac/mod.rs:45 | the result is a prefix; everything removed is the given character; the result does not end with it |
| Text.FindChar | src/os_level/mac/mod.rs:52 | `None` exactly when the character is absent; otherwise the index of its first occurrence |
| Text.NatToString | src/logic.rs:109 | the decimal rendering is a non-empty run of digits |
| Text.IntToString | src/logic.rs:109 | non-empty; starts with `-` exactly for negative numbers, and is otherwise digits |
| Text.NatToStringCanonical | src/logic.rs:109 | the rendering starts with `0` exactly for zero, so it never has a leading zero |
| Text.IntToStringCanonical | src/logic.rs:109 | no leading zero, after the `-` of a negative number too, and never `-0` |
| Text.NatToStringRoundTrip | src/logic.rs:109 | reading back a printed natural number gives the number |
| Text.IntToStringInjective | src/logic.rs:109 | different integers print differently |
| Text.ParseI32 | src/logic.rs:54 | a successful `parse::<i32>` lies in the `i32` range |
| Text.ParseI32Exactly | src/logic.rs:54 | `parse::<i32>` succeeds with value v exactly when the text is a non-empty run of ASCII digits, optionally after one `+` or `-`, denoting v, and v lies in the `i32` range |
| Text.ParseI32Examples | src/logic.rs:54-61 | the empty string, a bare sign, a padded number, a trailing letter and a doubled sign are refused; `+7`, `-0` and `007` are accepted |
| Text.ParseI32RefusesOutOfRange | src/logic.rs:54-61 | a number outside the `i32` range, written in decimal, is refused |
| Text.ParseI32RoundTrip | src/logic.rs:54 | every `i32`, printed in decimal, parses back to itself |
| ImageProc.FitSize | src/image_proc.rs:3-13 | defines the fit size: both sides scaled by the smaller of the two screen-to-image ratios and truncated; its properties are the next three rows |
| ImageProc.FitSizeClosedForm | src/image_proc.rs:11-13 | the fit size is `(screenW, imgH*screenW/imgW)` when the width constrains (`screenW*imgH <= screenH*imgW`) and `(imgW*screenH/imgH, screenH)` otherwise |
| ImageProc.FitWithinScreen | src/image_proc.rs:10-13 | the fit size never exceeds the screen on either axis and equals it on the constraining axis |
| ImageProc.FitKeepsAspect | src/image_proc.rs:11-13 | the other side is the source side times the constraining ratio, rounded down |
| ImageProc.FillSize | src/image_proc.rs:23-33 | defines the fill size: both sides scaled by the larger ratio and truncated; its properties are the next two rows |
| ImageProc.FillSizeClosedForm | src/image_proc.rs:30-33 | the mirror image of the fit: the height drives the fill when the width constrains the fit, and the width drives it otherwise |
| ImageProc.FillCoversScreen | src/image_proc.rs:30-33 | the fill size covers the screen on both axes and equals it on the driving axis |
| ImageProc.AsU32 | src/image_proc.rs:55-58 | `as u32` of an `i32` keeps non-negative values and wraps negative ones by 2^32 |
| ImageProc.CenteredWindow | src/image_proc.rs:42-50 | defines the `i32` crop corners: half the fill minus half the screen, plus the screen size; its properties are the next row |
| ImageProc.CenteredWindowInside | src/image_proc.rs:42-50 | when the fill covers the screen, the top-left corner is non-negative; bottom-right minus top-left is the screen size; the window lies inside the fill and is centred to within one pixel |
| ImageProc.CropPlan | src/image_proc.rs:42-59 | defines the crop step as written, for whatever size the resize produced: the four corners cast with `as u32` |
| ImageProc.ShortFillWrapsCrop | src/image_proc.rs:42-59 | as written: a resized width one pixel short of an even screen width gives a left corner of -1, which the cast turns into 2^32 − 1, past the right corner |
| ImageProc.FillToSize | src/image_proc.rs:23-59 | defines `fill_to_size` as the exact fill size followed by the crop step; its properties are the next row |
| ImageProc.FillToSizeCropsScreen | src/image_proc.rs:43-59 | in exact arithmetic the casts do not wrap: the four crop arguments are the exact corners, they span the screen and stay inside the resized image |
| ImageProc.BlurRadius | src/image_proc.rs:69-72 | defines the blur radius as the longer screen side over 40; its properties are the next row |
| ImageProc.BlurRadiusBounds | src/image_proc.rs:69-72 | the blur radius is the floor of the longer screen side over 40, and it is 0 exactly when both sides are under 40 |
| ImageProc.CombineFitAndFill | src/image_proc.rs:67-78 | for a fit image no larger than the screen: paste offset + fit ≤ screen; the margins differ by at most one pixel; the offset is (0,0) when the fit equals the screen |
| ImageProc.Wallpaper | src/image_proc.rs:3-81 | for every image, the fit size meets the precondition of the paste subtraction, so the paste offset never underflows; the fill covers the screen |
| ImageProc.LandscapeExample | src/image_proc.rs:11-77 | 4000x2000 on 1920x1080 gives fit 1920x960, fill 2160x1080 cropped from (120,0) to (2040,1080), paste offset (0,60), blur radius 48 |
| ImageProc.PortraitExample | src/image_proc.rs:11-77 | 800x1200 on 1920x1080 gives fit 720x1080, fill 1920x2880 cropped from (0,900), paste offset (600,0) |
| MacDisplays.AfterDisplays | src/os_level/mac/mod.rs:22-29 | defines what the `while let` loop leaves; its properties are the next two rows |
| MacDisplays.AfterDisplaysAt | src/os_level/mac/mod.rs:22-29 | everything up to and including the first line whose trim is `Displays:` is discarded, and the rest is kept |
| MacDisplays.AfterDisplaysNone | src/os_level/mac/mod.rs:22-29 | without a `Displays:` line nothing is left |
| MacDisplays.NoDisplaysLineNoMonitors | src/os_level/mac/mod.rs:22-29 | without a `Displays:` line the parser reports no monitors |
| MacDisplays.SkipToDisplays | src/os_level/mac/mod.rs:22-29 | the `while let` loop leaves exactly the lines after the first `Displays:` line |
| MacDisplays.Classify | src/os_level/mac/mod.rs:35-53 | defines the three kinds of line: blank or colon-free (ignored), header (ends with `:`), `key: value` split at the first colon |
| MacDisplays.Step | src/os_level/mac/mod.rs:40-61 | defines one grouping step on the open record and the records so far |
| MacDisplays.Group | src/os_level/mac/mod.rs:31-68 | defines the records: every step over the lines, then the final flush; its properties are the next five rows |
| MacDisplays.IgnoredLine | src/os_level/mac/mod.rs:35-37 | inserting a blank line, or a non-header line without a colon, anywhere does not change the records |
| MacDisplays.HeaderStartsRecord | src/os_level/mac/mod.rs:40-48 | a header line flushes the open record and opens one holding only `name`, set to the line with its trailing colons removed and trimmed again |
| MacDisplays.PairsUpdateRecord | src/os_level/mac/mod.rs:50-56 | in the open record, each key ends up with the value of its last pair (a later duplicate overwrites), keys no pair mentions keep their values, and no record is closed |
| MacDisplays.RunShape | src/os_level/mac/mod.rs:31-68 | a record is open at the end exactly when there was a header or a pair before the first header; the flushed count is the header count plus one for an anonymous leading record |
| MacDisplays.RecordCount | src/os_level/mac/mod.rs:42-68 | the number of records is the number of headers, plus one when a `key: value` line comes before the first header |
| MacDisplays.ConsumeLine | src/os_level/mac/mod.rs:34-63 | one iteration of the `for` loop updates `monitors` and `current` as the grouping step says |
| MacDisplays.GroupRecords | src/os_level/mac/mod.rs:31-68 | the loop and the final flush produce exactly the records of the specification |
| MacDisplays.SkipSpaces | src/os_level/mac/mod.rs:77 | `\s*`: stops at the first non-whitespace character, and everything skipped is whitespace |
| MacDisplays.SkipDigits | src/os_level/mac/mod.rs:77 | `\d+`: stops at the first non-digit, and everything skipped is a digit |
| MacDisplays.ParseResolution | src/os_level/mac/mod.rs:76-82 | defines the reader of a Resolution value; its properties are the rows up to `ResolutionRoundTrip` |
| MacDisplays.ResolutionAt | src/os_level/mac/mod.rs:77-82 | a value laid out as spaces, digits, spaces, `x`/`X`/`×`, spaces, digits, non-digit matches, and the two digit runs are the width and height |
| MacDisplays.ResolutionMatched | src/os_level/mac/mod.rs:77-82 | whatever the reader returns comes from a match of the pattern at the start of the value |
| MacDisplays.ResolutionExactly | src/os_level/mac/mod.rs:77-82 | the reader returns `(w, h)` exactly when the value starts with a match of the pattern whose digit runs denote w and h |
| MacDisplays.NoMatchNoResolution | src/os_level/mac/mod.rs:73-79 | a value that does not start with a match gives no resolution, so its record yields no entry |
| MacDisplays.ResolutionRoundTrip | src/os_level/mac/mod.rs:76-82 | any `<w> x <h>` text with any whitespace around the separator, and anything after the height that does not continue it, reads back as `(w, h)` |
| MacDisplays.ExtractWith | src/os_level/mac/mod.rs:72-93 | defines the entries of the `enumerate` loop for a given Resolution reader; its properties are the next four rows |
| MacDisplays.Extract | src/os_level/mac/mod.rs:72-93 | the entries with the reader of the pattern |
| MacDisplays.EntryOf | src/os_level/mac/mod.rs:73-93 | a record yields at most one entry, and it yields one exactly when its Resolution matches; that entry has id index+1, the parsed size, and the record's name or `Unknown` |
| MacDisplays.ExtractSources | src/os_level/mac/mod.rs:72-93 | there are no more entries than records; each entry's id names the record it came from, and its size and name are that record's |
| MacDisplays.ExtractOrdered | src/os_level/mac/mod.rs:72-90 | entries keep the records' order: ids strictly increase and never exceed the record count |
| MacDisplays.ExtractComplete | src/os_level/mac/mod.rs:72-93 | every record with a matching Resolution yields an entry with id index+1 |
| MacDisplays.ExtractMonitors | src/os_level/mac/mod.rs:70-110 | the `enumerate` loop produces exactly the entries of the specification |
| MacDisplays.ProfileInfo | src/os_level/mac/mod.rs:18-110 | defines the result of the three phases on the profiler's output lines |
| MacDisplays.GetProfileInfo | src/os_level/mac/mod.rs:7-116 | a profiler failure is returned as the error; otherwise the result is the three phases applied to the standard output |
| MacDisplays.GetMonitorCount | src/os_level/mac/mod.rs:118-122 | the count is the number of entries; a profiler error passes through |
| MacDisplays.GetMonitorSize | src/os_level/mac/mod.rs:124-137 | errors exactly when n < 1 or n > count; otherwise it returns the size of the entry at position n−1 |
| MacDisplays.SizeByPositionNotId | src/os_level/mac/mod.rs:124-136 | when the first display has no usable resolution, monitor 1 is the display with id 2, and monitor 2 is out of range |
| Logic.MonitorRange | src/logic.rs:70-73 | `(1..=count)` holds exactly the numbers 1 to count, ascending, and has max(count, 0) elements |
| Logic.SelectTargets | src/logic.rs:10-73 | a usage error exactly when there are no arguments; monitors are targeted exactly when the file checks and the count succeed and any explicit argument parses as an `i32` in 1..=count; the target list is then `[n]`, or 1..=count without an argument; every target lies in 1..=count |
| Logic.MonitorArgumentAccepted | src/logic.rs:52-64 | every monitor number in 1..=count, written in decimal, selects exactly that monitor |
| Logic.MonitorArgumentRefused | src/logic.rs:54-62 | an `i32` outside 1..=count is refused as out of range |
| Logic.TargetFileName | src/logic.rs:109 | defines the target name `<desktop>_<timestamp>.jpg` |
| Logic.TargetFileNameInjective | src/logic.rs:109 | different monitors or different seconds never share a target file name |
| Logic.ClashOnOneMonitorOnly | src/logic.rs:109-117 | within one second, the source's file name can equal the target name of at most one monitor |
| Logic.CreateTargetFile | src/logic.rs:102-162 | a source already named like the target is refused; otherwise the result is the copy step's outcome for the target name |
| Logic.Calls | src/logic.rs:84-99 | the first n iterations make at most n calls, for any copy step |
| Logic.Assignments | src/logic.rs:84-99 | the whole loop makes no more `set_background` calls than there are targets |
| Logic.SetBackgrounds | src/logic.rs:84-99 | the `for` loop makes exactly the calls of the specification |
| Logic.CallsSound | src/logic.rs:84-99 | for any copy step, every call was made by one of the iterations, for its monitor, with the path that iteration's copy returned |
| Logic.AssignmentsSound | src/logic.rs:84-117 | every call sets a target monitor to the copy made for it in its own iteration, under a target name different from the source's name |
| Logic.CallsComplete | src/logic.rs:84-99 | for any copy step, when none of the first n copies fails, there are n calls, for the targets in order |
| Logic.AssignmentsComplete | src/logic.rs:84-99 | when no copy is refused or fails, every target monitor is set, in target-list order |
| Logic.CallsPrefix | src/logic.rs:84-99 | the calls of the first k iterations are a prefix of those of the first n: later iterations only append |
| Logic.CallsStep | src/logic.rs:91-98 | a refused or failed copy (`None => continue`) adds no call; a successful one adds exactly its own |
| Logic.CallsInOrder | src/logic.rs:84-99 | successful iterations make their calls in the order of the iterations |
| Logic.AssignmentsKeepGoing | src/logic.rs:84-99 | a refused or failed copy does not stop the loop: every monitor whose copy succeeds is set, with its path, right after the calls of the iterations before it |
| Logic.ChangeBackground | src/logic.rs:8-100 | `change_background` first selects targets; nothing is set unless the selection succeeds; an empty argument list gives the usage error and no calls |
| Logic.AdjustImage | src/logic.rs:164-235 | a failing size query or a failing image open stops it; the image is left unchanged exactly when it already has the monitor's size; otherwise it is resized to the fill size and cropped at `(new − monitor)/2`; in exact arithmetic this does not underflow and keeps the crop inside the resized image, centred to within one pixel |
| Logic.CropOffset | src/logic.rs:213-214 | as written, the `u32` offset is half the difference when the resized side covers the monitor's, and lies beyond the image when it falls short |
| Logic.ShortResizeWrapsCropOffset | src/logic.rs:201-214 | as written: a resized side one pixel short of the monitor's gives the offset 2^31 − 1 |
| Logic.AdjustImageCropOffsets | src/logic.rs:196-214 | in exact arithmetic the offsets of `AdjustImage` are the `u32` offsets as written, without wrap |
| Logic.AdjustMatchesFillToSize | src/logic.rs:196-215 | `adjust_image` and `fill_to_size` resize to the same size; their crop offsets agree, except that `fill_to_size` starts one pixel further in on an axis where the resized side is even and the screen side odd |
| Logic.AdjustLandscapeExample | src/logic.rs:196-215 | a 4000x2000 image on a 1920x1080 monitor becomes 2160x1080, cropped from (120,0) with size 1920x1080 |

## Findings

| source | as written | input that shows it | evidently intended | confidence | as-written member | corrected member |
|---|---|---|---|---|---|---|
| src/image_proc.rs:30-32, 43-59 | the fill side is the `f64` product truncated by `as u32`, which can fall one pixel short of the screen | a 1074x1074 image on a 1920x1080 screen: `1074.0 * (1920.0 / 1074.0)` rounds to 1919.9999999999998, so the fill is 1919 wide and the left corner is -1, cast to 4294967295 | the fill covers the screen and the crop starts inside it | medium; not executed | ImageProc.ShortFillWrapsCrop | ImageProc.FillToSizeCropsScreen |
| src/logic.rs:199-214 | the resized side is the `f32` product truncated by `as u32`, and `new_width - monitor_width` is a `u32` subtraction | a 5184x3456 image on a 1920x1080 monitor: `5184.0 * (1920.0 / 5184.0)` in `f32` is 1919.9999, so the new width is 1919 and the subtraction underflows (a panic in a debug build, offset 2^31 − 1 in a release build) | the resized image covers the monitor and the offset is half the excess | medium; not executed | Logic.ShortResizeWrapsCropOffset | Logic.AdjustImage |

## Left out

- Running `system_profiler` and `osascript`, and reading exit status and stderr (src/os_level/mac/mod.rs:9-16, 113-115, 139-165). The profiler's outcome (its stdout lines, or an error message) is an input, and `set_background` is recorded as a call.
- The pixel operations of the image library: open, save, resize, crop, gaussian blur and watermark. The model records only the sizes and arguments passed to them.
  - `fill_to_size` passes crop corners (src/image_proc.rs:53-59), while `adjust_image` passes a width and height (src/logic.rs:215). The model does not decide which of these the library expects.
- Floating-point rounding. The scales are exact rationals. The f64/f32 computations of the source may round a side down by one pixel; "## Findings" shows what that does to the crops.
- ImageProc.FillToSizeCropsScreen: holds in exact arithmetic only. When the `f64` product rounds the driving side one pixel short, the left or top corner is -1 and its cast wraps (`ShortFillWrapsCrop`).
- Logic.AdjustImage: its no-underflow promise holds in exact arithmetic only. When the `f32` product rounds a side one pixel short, `new − monitor` on `u32` underflows (`ShortResizeWrapsCropOffset`).
- `i32` wrap of the `fill_width as i32` casts for sides of 2^31 or more, and the saturation of float-to-integer casts. `FillToSizeCropsScreen` requires sides below 2^31.
- An image with a zero side. The geometry functions require a non-empty image, which decoders guarantee; the source would divide by zero in floating point.
- Full Unicode `\s`, `\d` and `trim`. Whitespace and digits are ASCII (plus vertical tab and form feed).
  - Indices are character positions, not UTF-8 byte offsets.
  - The `usize` overflow branch of the width/height parse is not modelled; numbers are unbounded.
- The `as i32` conversions in `get_monitor_count` and `get_monitor_size` (src/os_level/mac/mod.rs:121, 136). Counts and sizes are natural numbers.
  - `adjust_image` mixes the `i32` monitor size with the image's `u32` sizes in a comparison, two subtractions and the crop call (src/logic.rs:190, 213-215). Rust does not accept that mix without a conversion, so the function as written would not compile. The model reads both as natural numbers, which is evidently what was meant.
- The file system and the clock. `exists`, `is_file`, `canonicalize`, `remove_file` and `copy` become the inputs `fileUsable` and `place`. `SystemTime::now` becomes `clock(i)` for iteration `i`. `file_name()` becomes `sourceName`.
- Logic.CreateTargetFile: the remove/copy/adjust/canonicalise sequence (src/logic.rs:121-160) is one opaque step `place`. The model does not separate which of those steps failed, or the effect of `adjust_image` on the file.
- Console output: all `println!`/`eprintln!` messages, and `show_monitor_sizes` (src/logic.rs:247-268), which only prints.
- src/main.rs (argument parsing), src/os_level/win/mod.rs (`unimplemented!()`), the dispatch in src/os_level/mod.rs, and examples/*.rs. These are not part of this model.
