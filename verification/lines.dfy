/** The lines of `displayplacer list` output as the two scans in `display-helper.js` see them.
    Regular-expression matching is abstracted: a `Matcher` maps the text of a line to the first
    match (if any) of each pattern the scans use, and `WellFormedCaptures` states what each pattern
    guarantees of the text it captures. Substring tests and trimming are modelled on the text itself. */
module PlacerLines {
  import opened Wrappers
  import opened Text

  /** The two digit groups of a `(\d+)x(\d+)` match. */
  datatype Dims = Dims(width: string, height: string)

  /** The `${w}x${h}` string both scans build from a width/height match. */
  function DimsText(d: Dims): string {
    d.width + "x" + d.height
  }

  /** The first match of every pattern the scans apply to one line. */
  datatype Captures = Captures(
    screenId: Option<string>,   // /Persistent screen id:\s*([a-f0-9-]+)/i, group 1
    resolution: Option<Dims>,   // /Resolution:\s*(\d+)x(\d+)/i
    typeLabel: Option<string>,  // /Type:\s*(.+)/i, group 1 before trimming
    resToken: Option<Dims>,     // /(\d+)x(\d+)/
    scaling: Option<string>,    // /Scaling:\s*(on|off)/i, group 1 as written
    origin: Option<string>,     // /Origin:\s*\(([^)]+)\)/i, the text between the parentheses
    degree: Option<string>)     // /Degree:\s*(\d+)/i

  datatype Line = Line(text: string, caps: Captures)

  /** Stands in for the regular-expression engine. */
  type Matcher = string -> Captures

  const RotationMarker := "Resolutions for rotation"

  /** `line.includes('Resolutions for rotation')` */
  predicate IsRotationMarker(l: Line) {
    Contains(l.text, RotationMarker)
  }

  predicate IsScreenIdLine(l: Line) {
    l.caps.screenId.Some?
  }

  /** `output.split('\n')`, each piece paired with what the patterns find in it. */
  function Lines(output: string, matcher: Matcher): (ls: seq<Line>)
    ensures |ls| == multiset(output)['\n'] + 1
    ensures forall i :: 0 <= i < |ls| ==> '\n' !in ls[i].text && ls[i].caps == matcher(ls[i].text)
  {
    var parts := Split(output, '\n');
    seq(|parts|, i requires 0 <= i < |parts| => Line(parts[i], matcher(parts[i])))
  }

  function Texts(ls: seq<Line>): seq<string> {
    seq(|ls|, i requires 0 <= i < |ls| => ls[i].text)
  }

  /** The scanned lines are exactly the output: joined back with newlines they restore it. */
  lemma LinesCoverOutput(output: string, matcher: Matcher)
    ensures Join(Texts(Lines(output, matcher)), '\n') == output
  {
    assert Texts(Lines(output, matcher)) == Split(output, '\n');
    JoinSplit(output, '\n');
  }

  // What each pattern guarantees of the text it captures.

  predicate IsScreenIdChar(c: char) {
    IsDigit(c) || 'a' <= c <= 'f' || 'A' <= c <= 'F' || c == '-'
  }

  /** Text a case-insensitive `([a-f0-9-]+)` group can capture. */
  predicate IsScreenId(s: string) {
    |s| > 0 && forall i :: 0 <= i < |s| ==> IsScreenIdChar(s[i])
  }

  predicate WellFormedDims(d: Dims) {
    IsDigits(d.width) && IsDigits(d.height)
  }

  predicate WellFormedCaptures(c: Captures) {
    && (c.screenId.Some? ==> IsScreenId(c.screenId.value))
    && (c.resolution.Some? ==> WellFormedDims(c.resolution.value))
    && (c.typeLabel.Some? ==> |c.typeLabel.value| > 0)
    && (c.resToken.Some? ==> WellFormedDims(c.resToken.value))
    && (c.scaling.Some? ==> IsOnOffAnyCase(c.scaling.value))
    && (c.origin.Some? ==> |c.origin.value| > 0 && ')' !in c.origin.value)
    && (c.degree.Some? ==> IsDigits(c.degree.value))
  }

  predicate WellFormedLines(ls: seq<Line>) {
    forall i :: 0 <= i < |ls| ==> WellFormedCaptures(ls[i].caps)
  }

  /** The `WIDTHxHEIGHT` shape: digits, a lower-case `x`, digits. */
  predicate IsResolutionText(s: string) {
    exists k :: 0 < k < |s| && s[k] == 'x' && IsDigits(s[..k]) && IsDigits(s[k + 1..])
  }

  lemma DimsTextShape(d: Dims)
    requires WellFormedDims(d)
    ensures IsResolutionText(DimsText(d))
  {
    var s := DimsText(d);
    var k := |d.width|;
    assert s[..k] == d.width && s[k + 1..] == d.height;
  }

  /** A resolution string always starts with a digit, so it is never the text of a placeholder word. */
  lemma ResolutionStartsWithDigit(s: string)
    requires IsResolutionText(s)
    ensures |s| > 0 && IsDigit(s[0])
  {
    var k :| 0 < k < |s| && s[k] == 'x' && IsDigits(s[..k]) && IsDigits(s[k + 1..]);
    assert s[..k][0] == s[0];
  }

  // What a scan keeps of one pattern: the capture of the last line that matched it.

  function ResolutionOf(l: Line): Option<Dims> { l.caps.resolution }
  function TypeLabelOf(l: Line): Option<string> { l.caps.typeLabel }
  function ScalingOf(l: Line): Option<string> { l.caps.scaling }
  function OriginOf(l: Line): Option<string> { l.caps.origin }
  function DegreeOf(l: Line): Option<string> { l.caps.degree }

  /** The capture of the last line of `ls` on which `field` matched, or None when none did. */
  function LastMatch<T>(ls: seq<Line>, field: Line -> Option<T>): Option<T>
    decreases |ls|
  {
    if |ls| == 0 then None
    else if field(ls[|ls| - 1]).Some? then field(ls[|ls| - 1])
    else LastMatch(ls[..|ls| - 1], field)
  }

  lemma LastMatchExtend<T>(ls: seq<Line>, l: Line, field: Line -> Option<T>)
    ensures LastMatch(ls + [l], field) == if field(l).Some? then field(l) else LastMatch(ls, field)
  {
    assert (ls + [l])[..|ls|] == ls;
  }

  /** The last matching line decides: a later line without a match changes nothing. */
  lemma {:induction false} LastMatchIsLast<T>(ls: seq<Line>, field: Line -> Option<T>, j: nat)
    requires j < |ls| && field(ls[j]).Some?
    requires forall k :: j < k < |ls| ==> field(ls[k]).None?
    ensures LastMatch(ls, field) == field(ls[j])
    decreases |ls|
  {
    if j < |ls| - 1 {
      var init := ls[..|ls| - 1];
      assert init[j] == ls[j];
      LastMatchIsLast(init, field, j);
    }
  }

  /** Without a matching line there is no capture. */
  lemma {:induction false} LastMatchNone<T>(ls: seq<Line>, field: Line -> Option<T>)
    requires forall k :: 0 <= k < |ls| ==> field(ls[k]).None?
    ensures LastMatch(ls, field) == None
    decreases |ls|
  {
    if |ls| > 0 {
      LastMatchNone(ls[..|ls| - 1], field);
    }
  }

  /** A capture that is kept comes from some line of `ls`. */
  lemma {:induction false} LastMatchFromSomeLine<T>(ls: seq<Line>, field: Line -> Option<T>)
    requires LastMatch(ls, field).Some?
    ensures exists j :: 0 <= j < |ls| && field(ls[j]) == LastMatch(ls, field)
    decreases |ls|
  {
    if field(ls[|ls| - 1]).None? {
      var init := ls[..|ls| - 1];
      LastMatchFromSomeLine(init, field);
      var j :| 0 <= j < |init| && field(init[j]) == LastMatch(init, field);
      assert ls[j] == init[j];
    }
  }

  /** There is a capture exactly when some line of `ls` matched. */
  lemma {:induction false} LastMatchNoneIff<T>(ls: seq<Line>, field: Line -> Option<T>)
    ensures LastMatch(ls, field).None? <==> forall k :: 0 <= k < |ls| ==> field(ls[k]).None?
    decreases |ls|
  {
    if |ls| > 0 {
      var init := ls[..|ls| - 1];
      LastMatchNoneIff(init, field);
      assert forall k :: 0 <= k < |init| ==> init[k] == ls[k];
    }
  }
}
