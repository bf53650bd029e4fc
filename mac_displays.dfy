/**
 * The macOS display enumeration: the text processing of `get_profile_info`
 * over the output of `system_profiler SPDisplaysDataType`, and the two
 * queries built on it, `get_monitor_count` and `get_monitor_size`. Running
 * the process is not modelled; its outcome (the lines of standard output, or
 * an error message) is the input.
 */
module MacDisplays {
  import opened Results
  import opened Text

  /** `MonitorInfo` of `os_level`: what the parser reports for one display. */
  datatype MonitorInfo = MonitorInfo(name: string, id: nat, width: nat, height: nat)

  /** One display's block of `key: value` lines (`HashMap<String, String>`). */
  type Record = map<string, string>

  /** What running `system_profiler` produced: its standard output split into lines, or an error. */
  datatype ProfilerOutput = Succeeded(stdout: seq<string>) | Failed(message: string)

  // ---------------------------------------------------------------------------
  // Skipping to the display list

  const DISPLAYS_MARKER: string := "Displays:"

  /** The lines after the first one whose trim is `Displays:`; none if there is no such line. */
  function AfterDisplays(lines: seq<string>): seq<string> {
    if lines == [] then []
    else if Trim(lines[0]) == DISPLAYS_MARKER then lines[1..]
    else AfterDisplays(lines[1..])
  }

  /** Everything up to and including the first `Displays:` line is discarded. */
  lemma {:induction false} AfterDisplaysAt(lines: seq<string>, k: nat)
    requires k < |lines| && Trim(lines[k]) == DISPLAYS_MARKER
    requires forall j :: 0 <= j < k ==> Trim(lines[j]) != DISPLAYS_MARKER
    ensures AfterDisplays(lines) == lines[k + 1..]
  {
    if k > 0 {
      var tail := lines[1..];
      assert Trim(lines[0]) != DISPLAYS_MARKER;
      forall j | 0 <= j < k - 1
        ensures Trim(tail[j]) != DISPLAYS_MARKER
      {
        assert tail[j] == lines[j + 1];
      }
      assert tail[k - 1] == lines[k];
      AfterDisplaysAt(tail, k - 1);
      assert tail[k..] == lines[k + 1..];
    }
  }

  /** Without a `Displays:` line nothing is left. */
  lemma {:induction false} AfterDisplaysNone(lines: seq<string>)
    requires forall j :: 0 <= j < |lines| ==> Trim(lines[j]) != DISPLAYS_MARKER
    ensures AfterDisplays(lines) == []
  {
    if lines != [] {
      AfterDisplaysNone(lines[1..]);
    }
  }

  // ---------------------------------------------------------------------------
  // Grouping lines into records

  /** What one line after `Displays:` is to the grouping loop. */
  datatype Line =
    | Blank                              // empty after trimming: skipped
    | Header(name: string)               // trimmed line ends in `:`: opens a record
    | Pair(key: string, value: string)   // split at the first `:`: goes into the open record
    | Other                              // no `:` at all: ignored

  /**
   * How the loop reads one raw line: a header's name is the trimmed line
   * without its trailing colons, trimmed again; a pair's key and value are
   * the trimmed text before and after the first colon.
   */
  function Classify(raw: string): Line {
    var t := Trim(raw);
    if t == [] then Blank
    else if t[|t| - 1] == ':' then Header(Trim(TrimEndMatches(t, ':')))
    else match FindChar(raw, ':')
      case None => Other
      case Some(i) => Pair(Trim(raw[..i]), Trim(raw[i + 1..]))
  }

  /** Every raw line classified, in order. */
  function Lex(raw: seq<string>): (lines: seq<Line>)
    ensures |lines| == |raw|
  {
    if raw == [] then [] else Lex(raw[..|raw| - 1]) + [Classify(raw[|raw| - 1])]
  }

  lemma {:induction false} LexAppend(a: seq<string>, b: seq<string>)
    ensures Lex(a + b) == Lex(a) + Lex(b)
  {
    if b == [] {
      assert a + b == a;
    } else {
      var b' := b[..|b| - 1];
      assert (a + b)[..|a + b| - 1] == a + b';
      LexAppend(a, b');
    }
  }

  /** Lexing one more line appends its class; running one more line is one more Step. */
  lemma LexSnoc(raw: seq<string>, x: string)
    ensures Run(Lex(raw + [x])) == Step(Run(Lex(raw)), Classify(x))
  {
    assert (raw + [x])[..|raw|] == raw;
    var l := Lex(raw + [x]);
    assert l[..|l| - 1] == Lex(raw);
  }

  /** Running one more line of `raw` is one more Step. */
  lemma RunPrefix(raw: seq<string>, j: nat)
    requires j < |raw|
    ensures Run(Lex(raw[..j + 1])) == Step(Run(Lex(raw[..j])), Classify(raw[j]))
  {
    assert raw[..j + 1] == raw[..j] + [raw[j]];
    LexSnoc(raw[..j], raw[j]);
  }

  /** The loop state of the parser: the finished records and the record being filled (`current`). */
  datatype ParserState = ParserState(records: seq<Record>, current: Option<Record>)

  const Initial: ParserState := ParserState([], None)

  /** The finished records plus the open one, if any (`current.take()` pushed onto `monitors`). */
  function Flush(st: ParserState): seq<Record> {
    match st.current
    case None => st.records
    case Some(m) => st.records + [m]
  }

  /** One iteration of the grouping loop. */
  function Step(st: ParserState, line: Line): ParserState {
    match line
    case Blank => st
    case Other => st
    case Header(name) => ParserState(Flush(st), Some(map["name" := name]))
    case Pair(key, val) =>
      match st.current
      case Some(m) => ParserState(st.records, Some(m[key := val]))
      case None => ParserState(st.records, Some(map[key := val]))
  }

  /** The state after feeding `lines`, one at a time, to Step from `st`. */
  function RunFrom(st: ParserState, lines: seq<Line>): ParserState {
    if lines == [] then st else Step(RunFrom(st, lines[..|lines| - 1]), lines[|lines| - 1])
  }

  function Run(lines: seq<Line>): ParserState {
    RunFrom(Initial, lines)
  }

  /** The records the raw lines after `Displays:` group into, the last open one included. */
  function Group(raw: seq<string>): seq<Record> {
    Flush(Run(Lex(raw)))
  }

  lemma {:induction false} RunFromAppend(st: ParserState, a: seq<Line>, b: seq<Line>)
    ensures RunFrom(st, a + b) == RunFrom(RunFrom(st, a), b)
  {
    if b == [] {
      assert a + b == a;
    } else {
      var b' := b[..|b| - 1];
      assert (a + b)[..|a + b| - 1] == a + b';
      RunFromAppend(st, a, b');
    }
  }

  /**
   * A blank or whitespace-only line, and a non-header line without a colon,
   * never change what the lines group into.
   */
  lemma IgnoredLine(a: seq<string>, x: string, b: seq<string>)
    requires Trim(x) == [] || (Trim(x)[|Trim(x)| - 1] != ':' && ':' !in x)
    ensures Group(a + [x] + b) == Group(a + b)
  {
    var la, lb, c := Lex(a), Lex(b), Classify(x);
    assert c == Blank || c == Other;
    LexAppend(a, [x]);
    LexAppend(a + [x], b);
    LexAppend(a, b);
    assert Lex([x]) == [c] by {
      assert [x][..0] == [];
    }
    RunFromAppend(Initial, la + [c], lb);
    RunFromAppend(Initial, la, lb);
    assert (la + [c])[..|la + [c]| - 1] == la;
  }

  /** A header closes the open record (if any) and opens one holding only its name. */
  lemma HeaderStartsRecord(raw: seq<string>, header: string)
    requires Classify(header).Header?
    ensures Run(Lex(raw + [header])) == ParserState(Group(raw), Some(map["name" := Classify(header).name]))
  {
    var l := Lex(raw + [header]);
    assert l[..|l| - 1] == Lex(raw);
  }

  /** The value of the last pair for `key`, if there is one. */
  function LastValue(lines: seq<Line>, key: string): Option<string> {
    if lines == [] then None
    else
      var last := lines[|lines| - 1];
      if last.Pair? && last.key == key then Some(last.value) else LastValue(lines[..|lines| - 1], key)
  }

  /**
   * Lines without a header all go into the open record: each key ends up
   * with the value of its last pair, and keys no pair mentions keep theirs.
   */
  lemma {:induction false} PairsUpdateRecord(st: ParserState, more: seq<Line>)
    requires st.current.Some?
    requires forall i :: 0 <= i < |more| ==> !more[i].Header?
    ensures RunFrom(st, more).records == st.records
    ensures RunFrom(st, more).current.Some?
    ensures forall k :: k in RunFrom(st, more).current.value <==> k in st.current.value || LastValue(more, k).Some?
    ensures forall k :: LastValue(more, k).Some? ==> RunFrom(st, more).current.value[k] == LastValue(more, k).value
    ensures forall k :: LastValue(more, k).None? && k in st.current.value ==>
                       RunFrom(st, more).current.value[k] == st.current.value[k]
  {
    if more != [] {
      PairsUpdateRecord(st, more[..|more| - 1]);
    }
  }

  /** The number of headers. */
  function Headers(lines: seq<Line>): nat {
    if lines == [] then 0
    else Headers(lines[..|lines| - 1]) + (if lines[|lines| - 1].Header? then 1 else 0)
  }

  predicate NoHeader(lines: seq<Line>) {
    forall j :: 0 <= j < |lines| ==> !lines[j].Header?
  }

  /** Some pair comes before every header: it opens a record that has no header. */
  predicate AnonymousLead(lines: seq<Line>) {
    exists i :: 0 <= i < |lines| && lines[i].Pair? && NoHeader(lines[..i])
  }

  lemma {:induction false} HeadersZero(lines: seq<Line>)
    ensures Headers(lines) == 0 <==> NoHeader(lines)
  {
    if lines != [] {
      var p := lines[..|lines| - 1];
      HeadersZero(p);
      assert forall j :: 0 <= j < |p| ==> p[j] == lines[j];
    }
  }

  lemma AnonymousLeadSnoc(p: seq<Line>, x: Line)
    ensures AnonymousLead(p + [x]) <==> AnonymousLead(p) || (x.Pair? && NoHeader(p))
  {
    var l := p + [x];
    assert l[..|p|] == p;
    if AnonymousLead(l) {
      var i :| 0 <= i < |l| && l[i].Pair? && NoHeader(l[..i]);
      if i < |p| {
        assert l[..i] == p[..i];
      }
    }
    if AnonymousLead(p) {
      var i :| 0 <= i < |p| && p[i].Pair? && NoHeader(p[..i]);
      assert l[..i] == p[..i];
    }
  }

  lemma {:induction false} RunShape(lines: seq<Line>)
    ensures Run(lines).current.Some? <==> Headers(lines) > 0 || AnonymousLead(lines)
    ensures |Flush(Run(lines))| == Headers(lines) + (if AnonymousLead(lines) then 1 else 0)
  {
    if lines != [] {
      var p, x := lines[..|lines| - 1], lines[|lines| - 1];
      assert lines == p + [x];
      RunShape(p);
      AnonymousLeadSnoc(p, x);
      HeadersZero(p);
    }
  }

  /** One record per header, plus one when a pair comes before the first header. */
  lemma RecordCount(raw: seq<string>)
    ensures |Group(raw)| == Headers(Lex(raw)) + (if AnonymousLead(Lex(raw)) then 1 else 0)
  {
    RunShape(Lex(raw));
  }

  // ---------------------------------------------------------------------------
  // The Resolution entry

  /** `x`, `X` or the multiplication sign, as matched by `(?i)[x×]`. */
  predicate IsTimes(c: char) {
    c == 'x' || c == 'X' || c == '\U{00D7}'
  }

  /** The first index at or after `i` that is not whitespace. */
  function SkipSpaces(s: string, i: nat): (j: nat)
    requires i <= |s|
    ensures i <= j <= |s| && AllSpaces(s[i..j]) && (j == |s| || !IsSpace(s[j]))
    decreases |s| - i
  {
    if i < |s| && IsSpace(s[i]) then
      var j := SkipSpaces(s, i + 1);
      assert s[i..j] == [s[i]] + s[i + 1..j];
      j
    else i
  }

  /** The first index at or after `i` that is not a digit. */
  function SkipDigits(s: string, i: nat): (j: nat)
    requires i <= |s|
    ensures i <= j <= |s| && AllDigits(s[i..j]) && (j == |s| || !IsDigit(s[j]))
    decreases |s| - i
  {
    if i < |s| && IsDigit(s[i]) then
      var j := SkipDigits(s, i + 1);
      assert s[i..j] == [s[i]] + s[i + 1..j];
      j
    else i
  }

  /**
   * The match of `^\s*(\d+)\s*[x×]\s*(\d+)` (case-insensitive) at the start
   * of a Resolution value, with both digit runs read as numbers; text after
   * the second run is ignored.
   */
  function ParseResolution(s: string): Option<(nat, nat)> {
    var a := SkipSpaces(s, 0);
    var b := SkipDigits(s, a);
    if b == a then None
    else
      var c := SkipSpaces(s, b);
      if c == |s| || !IsTimes(s[c]) then None
      else
        var d := SkipSpaces(s, c + 1);
        var e := SkipDigits(s, d);
        if e == d then None
        else Some((DigitsValue(s[a..b]), DigitsValue(s[d..e])))
  }

  lemma SkipSpacesOver(s: string, i: nat, j: nat)
    requires i <= j <= |s| && AllSpaces(s[i..j]) && (j == |s| || !IsSpace(s[j]))
    ensures SkipSpaces(s, i) == j
    decreases j - i
  {
    if i < j {
      assert s[i] == s[i..j][0];
      assert s[i + 1..j] == s[i..j][1..];
      SkipSpacesOver(s, i + 1, j);
    }
  }

  lemma SkipDigitsOver(s: string, i: nat, j: nat)
    requires i <= j <= |s| && AllDigits(s[i..j]) && (j == |s| || !IsDigit(s[j]))
    ensures SkipDigits(s, i) == j
    decreases j - i
  {
    if i < j {
      assert s[i] == s[i..j][0];
      assert s[i + 1..j] == s[i..j][1..];
      SkipDigitsOver(s, i + 1, j);
    }
  }

  /**
   * A match of `^\s*(\d+)\s*[x×]\s*(\d+)` described by index positions:
   * spaces up to `a`, digits in `a..b`, spaces up to the separator at `c`,
   * spaces up to `d`, digits in `d..e`, and no further digit at `e` (the
   * greedy `\d+` takes the whole run).
   */
  predicate MatchAt(s: string, a: nat, b: nat, c: nat, d: nat, e: nat) {
    && a < b <= c < |s| && c < d < e <= |s|
    && AllSpaces(s[..a]) && AllDigits(s[a..b]) && AllSpaces(s[b..c]) && IsTimes(s[c])
    && AllSpaces(s[c + 1..d]) && AllDigits(s[d..e]) && (e == |s| || !IsDigit(s[e]))
  }

  /** `s` starts with a match of the pattern whose two digit runs denote `w` and `h`. */
  ghost predicate Matches(s: string, w: nat, h: nat) {
    exists a: nat, b: nat, c: nat, d: nat, e: nat :: MatchAt(s, a, b, c, d, e) && w == DigitsValue(s[a..b]) && h == DigitsValue(s[d..e])
  }

  /**
   * The match described by index positions: spaces up to `a`, digits in
   * `a..b`, spaces up to the separator at `c`, spaces up to `d`, digits in
   * `d..e`, and no further digit at `e`.
   */
  lemma ResolutionAt(s: string, a: nat, b: nat, c: nat, d: nat, e: nat)
    requires MatchAt(s, a, b, c, d, e)
    ensures ParseResolution(s) == Some((DigitsValue(s[a..b]), DigitsValue(s[d..e])))
  {
    assert s[0..a] == s[..a];
    NumberAt(s, 0, a, b, c);
    SkipSpacesOver(s, b, c);
    NumberAt(s, c + 1, d, e, e);
    ParseAt(s, a, b, c, d, e);
  }

  /**
   * The reader succeeds exactly when the value starts with a match of the
   * pattern, and then returns the two numbers of that match; otherwise the
   * record has no usable resolution.
   */
  lemma ResolutionExactly(s: string, w: nat, h: nat)
    ensures ParseResolution(s) == Some((w, h)) <==> Matches(s, w, h)
  {
    if ParseResolution(s) == Some((w, h)) {
      ResolutionMatched(s);
    }
    if Matches(s, w, h) {
      var a: nat, b: nat, c: nat, d: nat, e: nat :| MatchAt(s, a, b, c, d, e) && w == DigitsValue(s[a..b]) && h == DigitsValue(s[d..e]);
      ResolutionAt(s, a, b, c, d, e);
    }
  }

  /** What the reader returns comes from a match of the pattern. */
  lemma ResolutionMatched(s: string)
    requires ParseResolution(s).Some?
    ensures Matches(s, ParseResolution(s).value.0, ParseResolution(s).value.1)
  {
    var a := SkipSpaces(s, 0);
    var b := SkipDigits(s, a);
    var c := SkipSpaces(s, b);
    var d := SkipSpaces(s, c + 1);
    var e := SkipDigits(s, d);
    assert s[..a] == s[0..a];
    assert MatchAt(s, a, b, c, d, e);
  }

  /** A value that does not start with a match of the pattern gives no resolution. */
  lemma NoMatchNoResolution(s: string)
    requires forall w: nat, h: nat :: !Matches(s, w, h)
    ensures ParseResolution(s) == None
  {
    if ParseResolution(s).Some? {
      var (w, h) := ParseResolution(s).value;
      ResolutionExactly(s, w, h);
    }
  }

  /** ParseResolution in terms of where each skip stops. */
  lemma ParseAt(s: string, a: nat, b: nat, c: nat, d: nat, e: nat)
    requires a <= |s| && SkipSpaces(s, 0) == a && SkipDigits(s, a) == b && a < b
    requires SkipSpaces(s, b) == c && c < |s| && IsTimes(s[c])
    requires SkipSpaces(s, c + 1) == d && SkipDigits(s, d) == e && d < e
    ensures ParseResolution(s) == Some((DigitsValue(s[a..b]), DigitsValue(s[d..e])))
  {
  }

  /** Spaces in `i..a` then digits in `a..b` then spaces in `b..c`, with a non-space at `c`. */
  lemma NumberAt(s: string, i: nat, a: nat, b: nat, c: nat)
    requires i <= a < b <= c <= |s|
    requires AllSpaces(s[i..a]) && AllDigits(s[a..b]) && AllSpaces(s[b..c])
    requires b == c ==> (c == |s| || !IsDigit(s[c]))
    ensures SkipSpaces(s, i) == a && SkipDigits(s, a) == b
  {
    assert s[a] == s[a..b][0];
    SkipSpacesOver(s, i, a);
    assert b == |s| || !IsDigit(s[b]) by {
      if b < c { assert s[b] == s[b..c][0]; }
    }
    SkipDigitsOver(s, a, b);
  }

  /**
   * Every resolution written `<w><sep><h><rest>` with whitespace around the
   * separator reads back as `(w, h)`, whatever follows the height (as long as
   * it does not continue the digit run).
   */
  lemma ResolutionRoundTrip(pre: string, w: nat, mid1: string, times: char, mid2: string, h: nat, rest: string)
    requires AllSpaces(pre) && AllSpaces(mid1) && AllSpaces(mid2) && IsTimes(times)
    requires rest == [] || !IsDigit(rest[0])
    ensures ParseResolution(pre + NatToString(w) + mid1 + [times] + mid2 + NatToString(h) + rest) == Some((w, h))
  {
    var ws, hs := NatToString(w), NatToString(h);
    var s1 := pre + ws;
    var s2 := s1 + mid1;
    var s3 := s2 + [times];
    var s4 := s3 + mid2;
    var s5 := s4 + hs;
    var s := s5 + rest;
    var a, b, c, d, e := |pre|, |s1|, |s2|, |s4|, |s5|;
    assert s[..|s5|] == s5;
    assert s5[..d] == s4 && s4[..c + 1] == s3 && s3[..c] == s2 && s2[..b] == s1;
    assert s[..a] == pre by { assert s[..a] == s1[..a]; }
    assert s[a..b] == ws by { assert s[a..b] == s1[a..b]; }
    assert s[b..c] == mid1 by { assert s[b..c] == s2[b..c]; }
    assert s[c] == times by { assert s[c] == s3[c]; }
    assert s[c + 1..d] == mid2 by { assert s[c + 1..d] == s4[c + 1..d]; }
    assert s[d..e] == hs by { assert s[d..e] == s5[d..e]; }
    assert s[e..] == rest;
    ResolutionAt(s, a, b, c, d, e);
    NatToStringRoundTrip(w);
    NatToStringRoundTrip(h);
  }

  // ---------------------------------------------------------------------------
  // From records to MonitorInfo

  /** The parsed Resolution entry of a record, if it has one that matches. */
  function ResolutionOf(m: Record): Option<(nat, nat)> {
    if "Resolution" in m then ParseResolution(m["Resolution"]) else None
  }

  /** The record's name, `Unknown` when it has none. */
  function NameOf(m: Record): string {
    if "name" in m then m["name"] else "Unknown"
  }

  /**
   * The entry the record at `index` yields when `resolution` reads its
   * Resolution: one MonitorInfo with id `index + 1`, or nothing. The lemmas
   * below hold for any reader; the parser uses ResolutionOf.
   */
  function EntryWith(resolution: Record -> Option<(nat, nat)>, index: nat, m: Record): seq<MonitorInfo> {
    match resolution(m)
    case Some((w, h)) => [MonitorInfo(NameOf(m), index + 1, w, h)]
    case None => []
  }

  /** The result of the `enumerate` loop over the records. */
  function ExtractWith(resolution: Record -> Option<(nat, nat)>, records: seq<Record>): seq<MonitorInfo> {
    if records == [] then []
    else ExtractWith(resolution, records[..|records| - 1]) + EntryWith(resolution, |records| - 1, records[|records| - 1])
  }

  /** The `enumerate` loop with the Resolution pattern of the source. */
  function Extract(records: seq<Record>): seq<MonitorInfo> {
    ExtractWith(ResolutionOf, records)
  }

  /** The record at `index` yields an entry exactly when its Resolution matches. */
  lemma EntryOf(resolution: Record -> Option<(nat, nat)>, index: nat, m: Record)
    ensures |EntryWith(resolution, index, m)| <= 1
    ensures |EntryWith(resolution, index, m)| == 1 <==> resolution(m).Some?
    ensures |EntryWith(resolution, index, m)| == 1 ==>
      var e := EntryWith(resolution, index, m)[0];
      e.id == index + 1 && resolution(m) == Some((e.width, e.height)) && e.name == NameOf(m)
  {
  }

  /** The entry `e` is what the record its id names yields. */
  predicate FromRecord(resolution: Record -> Option<(nat, nat)>, records: seq<Record>, e: MonitorInfo) {
    && 1 <= e.id <= |records|
    && resolution(records[e.id - 1]) == Some((e.width, e.height))
    && e.name == NameOf(records[e.id - 1])
  }

  /** Each entry comes from the record its id names: id = position of the record + 1. */
  lemma {:induction false} ExtractSources(resolution: Record -> Option<(nat, nat)>, records: seq<Record>)
    ensures |ExtractWith(resolution, records)| <= |records|
    ensures forall i :: 0 <= i < |ExtractWith(resolution, records)| ==>
      FromRecord(resolution, records, ExtractWith(resolution, records)[i])
  {
    if records != [] {
      var p, last := records[..|records| - 1], |records| - 1;
      ExtractSources(resolution, p);
      EntryOf(resolution, last, records[last]);
      var out, prev := ExtractWith(resolution, records), ExtractWith(resolution, p);
      var e := EntryWith(resolution, last, records[last]);
      assert out == prev + e;
      forall i | 0 <= i < |out|
        ensures FromRecord(resolution, records, out[i])
      {
        if i < |prev| {
          assert out[i] == prev[i];
          assert FromRecord(resolution, p, prev[i]);
          assert records[prev[i].id - 1] == p[prev[i].id - 1];
        } else {
          assert out[i] == e[0];
        }
      }
    }
  }

  /** Entries keep the records' order: ids strictly increase. */
  lemma {:induction false} ExtractOrdered(resolution: Record -> Option<(nat, nat)>, records: seq<Record>)
    ensures forall i :: 0 <= i < |ExtractWith(resolution, records)| ==> ExtractWith(resolution, records)[i].id <= |records|
    ensures forall i, j :: 0 <= i < j < |ExtractWith(resolution, records)| ==>
      ExtractWith(resolution, records)[i].id < ExtractWith(resolution, records)[j].id
  {
    if records != [] {
      var p, last := records[..|records| - 1], |records| - 1;
      ExtractOrdered(resolution, p);
      EntryOf(resolution, last, records[last]);
      var out, prev := ExtractWith(resolution, records), ExtractWith(resolution, p);
      forall i | 0 <= i < |prev|
        ensures out[i] == prev[i]
      {
      }
    }
  }

  /** Some entry of `out` carries this id. */
  predicate HasId(out: seq<MonitorInfo>, id: nat) {
    exists i :: 0 <= i < |out| && out[i].id == id
  }

  /** Every record with a matching Resolution yields an entry. */
  lemma {:induction false} ExtractComplete(resolution: Record -> Option<(nat, nat)>, records: seq<Record>)
    ensures forall k :: 0 <= k < |records| && resolution(records[k]).Some? ==> HasId(ExtractWith(resolution, records), k + 1)
  {
    if records != [] {
      var p, last := records[..|records| - 1], |records| - 1;
      ExtractComplete(resolution, p);
      EntryOf(resolution, last, records[last]);
      var e := EntryWith(resolution, last, records[last]);
      var out, prev := ExtractWith(resolution, records), ExtractWith(resolution, p);
      assert out == prev + e;
      forall k | 0 <= k < |records| && resolution(records[k]).Some?
        ensures HasId(out, k + 1)
      {
        if k < last {
          assert p[k] == records[k];
          var i :| 0 <= i < |prev| && prev[i].id == k + 1;
          assert out[i] == prev[i];
        } else {
          assert out[|prev|] == e[0];
        }
      }
    }
  }

  /** What `get_profile_info` returns for the profiler's standard output. */
  function ProfileInfo(lines: seq<string>): seq<MonitorInfo> {
    Extract(Group(AfterDisplays(lines)))
  }

  /** Without a `Displays:` line there are no monitors. */
  lemma NoDisplaysLineNoMonitors(lines: seq<string>)
    requires forall j :: 0 <= j < |lines| ==> Trim(lines[j]) != DISPLAYS_MARKER
    ensures ProfileInfo(lines) == []
  {
    AfterDisplaysNone(lines);
  }

  // ---------------------------------------------------------------------------
  // The parser itself: the three loops of `get_profile_info`

  /** The `while let` loop: consume lines up to and including the first `Displays:`. */
  method SkipToDisplays(lines: seq<string>) returns (remaining: seq<string>)
    ensures remaining == AfterDisplays(lines)
  {
    var i := 0;
    var found := false;
    while i < |lines| && !found
      invariant 0 <= i <= |lines|
      invariant found ==> AfterDisplays(lines) == lines[i..]
      invariant !found ==> AfterDisplays(lines) == AfterDisplays(lines[i..])
    {
      found := Trim(lines[i]) == DISPLAYS_MARKER;
      assert lines[i..][1..] == lines[i + 1..];
      i := i + 1;
    }
    remaining := lines[i..];
  }

  /** The body of the `for` loop: one raw line updates `monitors` and `current` as Step says. */
  method ConsumeLine(monitors: seq<Record>, current: Option<Record>, raw: string)
    returns (monitors': seq<Record>, current': Option<Record>)
    ensures ParserState(monitors', current') == Step(ParserState(monitors, current), Classify(raw))
  {
    monitors', current' := monitors, current;
    var trimmed := Trim(raw);
    if trimmed == [] {
      return;
    }
    if trimmed[|trimmed| - 1] == ':' {
      // New monitor header
      if current'.Some? {
        monitors' := monitors' + [current'.value];
      }
      var name := Trim(TrimEndMatches(trimmed, ':'));
      current' := Some(map["name" := name]);
    } else {
      // Parameter line: split on the first ':'
      var idx := FindChar(raw, ':');
      if idx.Some? {
        var key := Trim(raw[..idx.value]);
        var val := Trim(raw[idx.value + 1..]);
        if current'.Some? {
          current' := Some(current'.value[key := val]);
        } else {
          current' := Some(map[key := val]);
        }
      }
    }
  }

  /** The `for` loop over the remaining lines, with its `current` record, and the final flush. */
  method GroupRecords(remaining: seq<string>) returns (monitors: seq<Record>)
    ensures monitors == Group(remaining)
  {
    monitors := [];
    var current: Option<Record> := None;
    for j := 0 to |remaining|
      invariant ParserState(monitors, current) == Run(Lex(remaining[..j]))
    {
      var raw := remaining[j];
      monitors, current := ConsumeLine(monitors, current, raw);
      RunPrefix(remaining, j);
    }
    assert remaining[..|remaining|] == remaining;
    if current.Some? {
      monitors := monitors + [current.value];
    }
  }

  /** Reading one more record appends its entry. */
  lemma ExtractPrefix(records: seq<Record>, k: nat)
    requires k < |records|
    ensures Extract(records[..k + 1]) == Extract(records[..k]) + EntryWith(ResolutionOf, k, records[k])
  {
    assert records[..k + 1][..k] == records[..k];
  }

  /** The `enumerate` loop: one MonitorInfo per record whose Resolution matches. */
  method ExtractMonitors(monitors: seq<Record>) returns (result: seq<MonitorInfo>)
    ensures result == Extract(monitors)
  {
    result := [];
    var k := 0;
    while k < |monitors|
      invariant 0 <= k <= |monitors|
      invariant result == Extract(monitors[..k])
    {
      var m := monitors[k];
      if "Resolution" in m {
        var res := ParseResolution(m["Resolution"]);
        if res.Some? {
          var name := if "name" in m then m["name"] else "Unknown";
          result := result + [MonitorInfo(name, k + 1, res.value.0, res.value.1)];
        }
      }
      ExtractPrefix(monitors, k);
      k := k + 1;
    }
    assert monitors[..k] == monitors;
  }

  /** `get_profile_info`: the profiler's error, or the monitors its output describes. */
  method GetProfileInfo(output: ProfilerOutput) returns (r: Result<seq<MonitorInfo>>)
    ensures output.Failed? ==> r == Err(output.message)
    ensures output.Succeeded? ==> r == Ok(ProfileInfo(output.stdout))
  {
    if output.Failed? {
      return Err(output.message);
    }
    var remaining := SkipToDisplays(output.stdout);
    var monitors := GroupRecords(remaining);
    var result := ExtractMonitors(monitors);
    return Ok(result);
  }

  // ---------------------------------------------------------------------------
  // Queries

  /** `get_monitor_count`: the number of entries, or the profiler's error. */
  function GetMonitorCount(profile: Result<seq<MonitorInfo>>): (r: Result<nat>)
    ensures profile.Err? ==> r == Err(profile.message)
    ensures profile.Ok? ==> r == Ok(|profile.value|)
  {
    match profile
    case Err(e) => Err(e)
    case Ok(info) => Ok(|info|)
  }

  /**
   * `get_monitor_size(n)`: fails exactly when `n` is outside `1..=count`;
   * otherwise the size of the entry at POSITION `n - 1` (not the entry whose
   * id is `n`).
   */
  function GetMonitorSize(profile: Result<seq<MonitorInfo>>, n: int): (r: Result<(nat, nat)>)
    ensures profile.Err? ==> r == Err(profile.message)
    ensures profile.Ok? ==> (r.Ok? <==> 1 <= n <= |profile.value|)
    ensures r.Ok? ==> profile.Ok? && 1 <= n <= |profile.value|
                      && r.value == (profile.value[n - 1].width, profile.value[n - 1].height)
  {
    match profile
    case Err(e) => Err(e)
    case Ok(info) =>
      if n < 1 || n > |info| then
        Err("Monitor number " + IntToString(n) + " is out of range (1-" + NatToString(|info|) + ")")
      else Ok((info[n - 1].width, info[n - 1].height))
  }

  /**
   * When the first display has no usable resolution, monitor 1 is the second
   * display (id 2), and asking for monitor 2 is out of range.
   */
  lemma SizeByPositionNotId(first: Record, second: Record, w: nat, h: nat)
    requires ResolutionOf(first).None? && ResolutionOf(second) == Some((w, h))
    ensures var info := Extract([first, second]);
      && info == [MonitorInfo(NameOf(second), 2, w, h)]
      && GetMonitorSize(Ok(info), 1) == Ok((w, h))
      && GetMonitorSize(Ok(info), 2).Err?
  {
    var records := [first, second];
    assert records[..1] == [first];
    assert [first][..0] == [];
    assert ExtractWith(ResolutionOf, [first]) == [];
    assert EntryWith(ResolutionOf, 1, second) == [MonitorInfo(NameOf(second), 2, w, h)];
  }
}
