/** `extractDisplayPlacerConfig` and `buildDisplayPlacerCommand`: re-reading one display's
    scaling, origin and rotation from the listing, and the command that applies a new resolution. */
module PlacerConfig {
  import opened Wrappers
  import opened Text
  import opened PlacerLines

  /** The configuration object the extraction returns (`width`/`height` None is `null`). */
  datatype Config = Config(id: string, width: Option<string>, height: Option<string>, scaling: string, origin: string, degree: string)

  const DefaultScaling := "on"
  const DefaultOrigin := "(0,0)"
  const DefaultDegree := "0"

  function DefaultConfig(id: string): Config {
    Config(id, None, None, DefaultScaling, DefaultOrigin, DefaultDegree)
  }

  // ----- Which lines the extraction reads -----

  /** `line.includes(persistentId)` */
  predicate Mentions(l: Line, id: string) {
    Contains(l.text, id)
  }

  /** The two substring tests that delimit the lines read. */
  datatype LineTest = MentionOf(id: string) | RotationMarkerTest

  predicate Holds(t: LineTest, l: Line) {
    match t
    case MentionOf(id) => Mentions(l, id)
    case RotationMarkerTest => IsRotationMarker(l)
  }

  /** The first index at or after `from` whose line passes test `t`. */
  function FirstFrom(ls: seq<Line>, from: nat, t: LineTest): (r: Option<nat>)
    ensures r.Some? ==> from <= r.value < |ls| && Holds(t, ls[r.value]) && forall k {:trigger Holds(t, ls[k])} :: from <= k < r.value ==> !Holds(t, ls[k])
    ensures r.None? ==> forall k {:trigger Holds(t, ls[k])} :: from <= k < |ls| ==> !Holds(t, ls[k])
    decreases |ls| - from
  {
    if from >= |ls| then None
    else if Holds(t, ls[from]) then Some(from)
    else FirstFrom(ls, from + 1, t)
  }

  /** The contract of `FirstFrom`, with its quantifiers usable on any line of `ls`. */
  lemma FirstFromSpec(ls: seq<Line>, from: nat, t: LineTest)
    ensures var r := FirstFrom(ls, from, t);
      && (r.Some? ==> from <= r.value < |ls| && Holds(t, ls[r.value]) && forall k :: from <= k < r.value ==> !Holds(t, ls[k]))
      && (r.None? ==> forall k :: from <= k < |ls| ==> !Holds(t, ls[k]))
  {
  }

  /** `FirstFrom` is determined by its contract. */
  lemma FirstFromUnique(ls: seq<Line>, from: nat, t: LineTest, r: Option<nat>)
    requires r.Some? ==> from <= r.value < |ls| && Holds(t, ls[r.value]) && forall k :: from <= k < r.value ==> !Holds(t, ls[k])
    requires r.None? ==> forall k :: from <= k < |ls| ==> !Holds(t, ls[k])
    ensures FirstFrom(ls, from, t) == r
  {
  }

  /** Lines known not to pass `t` can be skipped. */
  lemma FirstFromSkip(ls: seq<Line>, from: nat, to: nat, t: LineTest)
    requires from <= to <= |ls|
    requires forall k :: from <= k < to ==> !Holds(t, ls[k])
    ensures FirstFrom(ls, from, t) == FirstFrom(ls, to, t)
  {
    FirstFromUnique(ls, from, t, FirstFrom(ls, to, t));
  }

  /** Searching behind a prefix finds the same line, shifted by the prefix length. */
  lemma FirstFromShifted(pre: seq<Line>, ls: seq<Line>, from: nat, t: LineTest)
    ensures var r := FirstFrom(ls, from, t);
      FirstFrom(pre + ls, |pre| + from, t) == if r.Some? then Some(|pre| + r.value) else None
  {
    var r := FirstFrom(ls, from, t);
    var all := pre + ls;
    assert forall k :: 0 <= k < |ls| ==> all[|pre| + k] == ls[k];
    FirstFromUnique(all, |pre| + from, t, if r.Some? then Some(|pre| + r.value) else None);
  }


  function FirstMention(ls: seq<Line>, id: string): Option<nat> {
    FirstFrom(ls, 0, MentionOf(id))
  }

  function FirstMarkerFrom(ls: seq<Line>, k: nat): Option<nat> {
    FirstFrom(ls, k, RotationMarkerTest)
  }

  /** The lines the extraction reads: from the first line mentioning `id` up to and including the
      first rotation marker at or after it, or to the end of the listing when there is no such
      marker; nothing when no line mentions `id`. */
  function Window(ls: seq<Line>, id: string): seq<Line> {
    match FirstMention(ls, id)
    case None => []
    case Some(k) =>
      match FirstMarkerFrom(ls, k)
      case Some(m) => ls[k..m + 1]
      case None => ls[k..]
  }

  /** What the extraction makes of the lines it reads: every field is the value captured on the last
      line of the window that matched its pattern, or the default when no line did. */
  function ConfigOf(w: seq<Line>, id: string): Config {
    var res := LastMatch(w, ResolutionOf);
    Config(
      id,
      if res.Some? then Some(res.value.width) else None,
      if res.Some? then Some(res.value.height) else None,
      match LastMatch(w, ScalingOf) case Some(s) => LowerAscii(s) case None => DefaultScaling,
      match LastMatch(w, OriginOf) case Some(o) => "(" + o + ")" case None => DefaultOrigin,
      match LastMatch(w, DegreeOf) case Some(d) => d case None => DefaultDegree)
  }

  /** The field updates the loop body makes for one line of the target display. */
  function Absorb(config: Config, l: Line): Config {
    var c1 := if l.caps.resolution.Some? then config.(width := Some(l.caps.resolution.value.width), height := Some(l.caps.resolution.value.height)) else config;
    var c2 := if l.caps.scaling.Some? then c1.(scaling := LowerAscii(l.caps.scaling.value)) else c1;
    var c3 := if l.caps.origin.Some? then c2.(origin := "(" + l.caps.origin.value + ")") else c2;
    if l.caps.degree.Some? then c3.(degree := l.caps.degree.value) else c3
  }

  lemma ConfigOfExtend(w: seq<Line>, l: Line, id: string)
    ensures ConfigOf(w + [l], id) == Absorb(ConfigOf(w, id), l)
  {
    LastMatchExtend(w, l, ResolutionOf);
    LastMatchExtend(w, l, ScalingOf);
    LastMatchExtend(w, l, OriginOf);
    LastMatchExtend(w, l, DegreeOf);
  }

  /** The loop state before line `i`: `inTarget` says whether a line mentioning `id` has been seen;
      if so, no marker has been seen since and `config` reflects the lines read from there on. */
  ghost predicate ExtractState(ls: seq<Line>, id: string, i: nat, inTarget: bool, config: Config)
    requires i <= |ls|
  {
    ExtractStateAt(ls, id, FirstMention(ls, id), i, inTarget, config)
  }

  ghost predicate ExtractStateAt(ls: seq<Line>, id: string, first: Option<nat>, i: nat, inTarget: bool, config: Config)
    requires i <= |ls|
    requires first.Some? ==> first.value < |ls|
  {
    && (inTarget <==> first.Some? && first.value < i)
    && (!inTarget ==> config == DefaultConfig(id))
    && (inTarget ==>
          && (forall k :: first.value <= k < i ==> !IsRotationMarker(ls[k]))
          && config == ConfigOf(ls[first.value..i], id))
  }

  /** At line `i` of the target display (its first mention or a later line), `config` is the
      configuration of the lines read from the first mention up to `i`. */
  lemma ExtractStateSoFar(ls: seq<Line>, id: string, i: nat, inTarget: bool, config: Config)
    requires i < |ls|
    requires ExtractState(ls, id, i, inTarget, config)
    requires inTarget || Mentions(ls[i], id)
    ensures FirstMention(ls, id).Some? && FirstMention(ls, id).value <= i
    ensures config == ConfigOf(ls[FirstMention(ls, id).value..i], id)
    ensures ls[FirstMention(ls, id).value..i] + [ls[i]] == ls[FirstMention(ls, id).value..i + 1]
  {
    FirstFromSpec(ls, 0, MentionOf(id));
    var k := FirstMention(ls, id).value;
    if !inTarget {
      assert ls[k..i] == [];
    }
  }

  /** A line that is not a marker of the target display lets the scan go on. */
  lemma ExtractStateStep(ls: seq<Line>, id: string, i: nat, inTarget: bool, config: Config, inTarget': bool, config': Config)
    requires i < |ls|
    requires ExtractState(ls, id, i, inTarget, config)
    requires inTarget' == (inTarget || Mentions(ls[i], id))
    requires inTarget' ==> FirstMention(ls, id).Some? && FirstMention(ls, id).value <= i
    requires inTarget' ==> config' == ConfigOf(ls[FirstMention(ls, id).value..i + 1], id)
    requires !inTarget' ==> config' == config
    requires inTarget' ==> !IsRotationMarker(ls[i])
    ensures ExtractState(ls, id, i + 1, inTarget', config')
  {
    if inTarget' {
      ExtractStateSoFar(ls, id, i, inTarget, config);
    }
  }

  /** The scan stops at the first marker from the target's first mention on: the window ends there. */
  lemma ExtractStateStop(ls: seq<Line>, id: string, i: nat, inTarget: bool, config: Config, config': Config)
    requires i < |ls|
    requires ExtractState(ls, id, i, inTarget, config)
    requires inTarget || Mentions(ls[i], id)
    requires FirstMention(ls, id).Some? && FirstMention(ls, id).value <= i
    requires config' == ConfigOf(ls[FirstMention(ls, id).value..i + 1], id)
    requires IsRotationMarker(ls[i])
    ensures config' == ConfigOf(Window(ls, id), id)
  {
    var k := FirstMention(ls, id).value;
    assert inTarget ==> forall j :: k <= j < i ==> !IsRotationMarker(ls[j]);
    assert !inTarget ==> k == i by { FirstFromSpec(ls, 0, MentionOf(id)); }
    FirstFromUnique(ls, k, RotationMarkerTest, Some(i));
    assert Window(ls, id) == ls[k..i + 1];
  }

  /** Before the first line nothing has been read. */
  lemma ExtractStateStart(ls: seq<Line>, id: string)
    ensures ExtractState(ls, id, 0, false, DefaultConfig(id))
  {
    FirstFromSpec(ls, 0, MentionOf(id));
  }

  /** Running off the end of the listing: the window is everything from the first mention on. */
  lemma ExtractStateEnd(ls: seq<Line>, id: string, inTarget: bool, config: Config)
    requires ExtractState(ls, id, |ls|, inTarget, config)
    ensures config == ConfigOf(Window(ls, id), id)
  {
    if inTarget {
      var k := FirstMention(ls, id).value;
      FirstFromUnique(ls, k, RotationMarkerTest, None);
      assert ls[k..|ls|] == ls[k..];
    } else {
      assert ConfigOf([], id) == DefaultConfig(id);
    }
  }

  /** The four pattern tests the loop applies to a line of the target display: they turn the
      configuration of the lines `w` read so far into that of `w` and the line. */
  method ReadTargetLine(config: Config, line: Line, ghost w: seq<Line>, ghost id: string) returns (config': Config)
    requires config == ConfigOf(w, id)
    ensures config' == ConfigOf(w + [line], id)
  {
    config' := config;
    if line.caps.resolution.Some? {
      config' := config'.(width := Some(line.caps.resolution.value.width), height := Some(line.caps.resolution.value.height));
    }
    if line.caps.scaling.Some? {
      config' := config'.(scaling := LowerAscii(line.caps.scaling.value));
    }
    if line.caps.origin.Some? {
      config' := config'.(origin := "(" + line.caps.origin.value + ")");
    }
    if line.caps.degree.Some? {
      config' := config'.(degree := line.caps.degree.value);
    }
    ConfigOfExtend(w, line, id);
  }

  /** `extractDisplayPlacerConfig(output, persistentId)`: the configuration read from the window. */
  method ExtractDisplayPlacerConfig(output: string, persistentId: string, matcher: Matcher) returns (config: Config)
    ensures config == ConfigOf(Window(Lines(output, matcher), persistentId), persistentId)
  {
    config := ScanForConfig(Lines(output, matcher), persistentId);
  }

  /** One pass of the loop body of `extractDisplayPlacerConfig` on line `i` of `ls`; `stop` is its
      `break`. Going on, the state describes the lines up to `i + 1`; stopping, the configuration
      is already that of the whole window. */
  method ReadLine(line: Line, persistentId: string, inTargetDisplay: bool, config: Config, ghost ls: seq<Line>, ghost i: nat)
    returns (inTargetDisplay': bool, config': Config, stop: bool)
    requires i < |ls| && line == ls[i]
    requires ExtractState(ls, persistentId, i, inTargetDisplay, config)
    ensures !stop ==> ExtractState(ls, persistentId, i + 1, inTargetDisplay', config')
    ensures stop ==> config' == ConfigOf(Window(ls, persistentId), persistentId)
  {
    inTargetDisplay', config', stop := inTargetDisplay, config, false;
    if Mentions(line, persistentId) {
      inTargetDisplay' := true;
    }
    if inTargetDisplay' {
      ExtractStateSoFar(ls, persistentId, i, inTargetDisplay, config);
      ghost var k := FirstMention(ls, persistentId).value;
      config' := ReadTargetLine(config, line, ls[k..i], persistentId);
      if IsRotationMarker(line) {
        stop := true;
        ExtractStateStop(ls, persistentId, i, inTargetDisplay, config, config');
      } else {
        ExtractStateStep(ls, persistentId, i, inTargetDisplay, config, inTargetDisplay', config');
      }
    } else {
      ExtractStateStep(ls, persistentId, i, inTargetDisplay, config, inTargetDisplay', config');
    }
  }

  /** The loop of `extractDisplayPlacerConfig` over the split lines; `stop` ends it as the `break` does. */
  method ScanForConfig(lines: seq<Line>, persistentId: string) returns (config: Config)
    ensures config == ConfigOf(Window(lines, persistentId), persistentId)
  {
    config := DefaultConfig(persistentId);
    var inTargetDisplay := false;
    var stop := false;
    var i := 0;
    ExtractStateStart(lines, persistentId);
    while i < |lines| && !stop
      invariant i <= |lines|
      invariant !stop ==> ExtractState(lines, persistentId, i, inTargetDisplay, config)
      invariant stop ==> config == ConfigOf(Window(lines, persistentId), persistentId)
    {
      inTargetDisplay, config, stop := ReadLine(lines[i], persistentId, inTargetDisplay, config, lines, i);
      i := i + 1;
    }
    if !stop {
      ExtractStateEnd(lines, persistentId, inTargetDisplay, config);
    }
  }

  // ----- What the configuration says -----

  /** Each field is the capture of the last line of the window that matched its pattern; width
      and height always come from one and the same `Resolution:` line. */
  lemma ConfigFromLastLines(w: seq<Line>, id: string)
    ensures ConfigOf(w, id).id == id
    ensures ConfigOf(w, id).width.Some? <==> ConfigOf(w, id).height.Some?
    ensures forall j :: 0 <= j < |w| && w[j].caps.resolution.Some? && (forall k :: j < k < |w| ==> w[k].caps.resolution.None?) ==>
      ConfigOf(w, id).width == Some(w[j].caps.resolution.value.width) && ConfigOf(w, id).height == Some(w[j].caps.resolution.value.height)
    ensures forall j :: 0 <= j < |w| && w[j].caps.scaling.Some? && (forall k :: j < k < |w| ==> w[k].caps.scaling.None?) ==>
      ConfigOf(w, id).scaling == LowerAscii(w[j].caps.scaling.value)
    ensures forall j :: 0 <= j < |w| && w[j].caps.origin.Some? && (forall k :: j < k < |w| ==> w[k].caps.origin.None?) ==>
      ConfigOf(w, id).origin == "(" + w[j].caps.origin.value + ")"
    ensures forall j :: 0 <= j < |w| && w[j].caps.degree.Some? && (forall k :: j < k < |w| ==> w[k].caps.degree.None?) ==>
      ConfigOf(w, id).degree == w[j].caps.degree.value
  {
    forall j | 0 <= j < |w| && w[j].caps.resolution.Some? && (forall k :: j < k < |w| ==> w[k].caps.resolution.None?) {
      LastMatchIsLast(w, ResolutionOf, j);
    }
    forall j | 0 <= j < |w| && w[j].caps.scaling.Some? && (forall k :: j < k < |w| ==> w[k].caps.scaling.None?) {
      LastMatchIsLast(w, ScalingOf, j);
    }
    forall j | 0 <= j < |w| && w[j].caps.origin.Some? && (forall k :: j < k < |w| ==> w[k].caps.origin.None?) {
      LastMatchIsLast(w, OriginOf, j);
    }
    forall j | 0 <= j < |w| && w[j].caps.degree.Some? && (forall k :: j < k < |w| ==> w[k].caps.degree.None?) {
      LastMatchIsLast(w, DegreeOf, j);
    }
  }

  /** A field keeps its default exactly when no line of the window matched its pattern. */
  lemma ConfigDefaults(w: seq<Line>, id: string)
    ensures ConfigOf(w, id).width.None? <==> forall k :: 0 <= k < |w| ==> w[k].caps.resolution.None?
    ensures (forall k :: 0 <= k < |w| ==> w[k].caps.scaling.None?) ==> ConfigOf(w, id).scaling == "on"
    ensures (forall k :: 0 <= k < |w| ==> w[k].caps.origin.None?) ==> ConfigOf(w, id).origin == "(0,0)"
    ensures (forall k :: 0 <= k < |w| ==> w[k].caps.degree.None?) ==> ConfigOf(w, id).degree == "0"
  {
    LastMatchNoneIff(w, ResolutionOf);
    LastMatchNoneIff(w, ScalingOf);
    LastMatchNoneIff(w, OriginOf);
    LastMatchNoneIff(w, DegreeOf);
  }

  /** The fields have the shapes their patterns allow: digits for width, height and degree, `on` or
      `off` for scaling, and a parenthesised non-empty text without `)` for the origin. */
  lemma ConfigShape(w: seq<Line>, id: string)
    requires WellFormedLines(w)
    ensures var c := ConfigOf(w, id);
      && (c.width.Some? ==> IsDigits(c.width.value) && IsDigits(c.height.value))
      && (c.scaling == "on" || c.scaling == "off")
      && |c.origin| >= 3 && c.origin[0] == '(' && c.origin[|c.origin| - 1] == ')'
      && ')' !in c.origin[1..|c.origin| - 1]
      && IsDigits(c.degree)
  {
    var c := ConfigOf(w, id);
    if LastMatch(w, ResolutionOf).Some? {
      LastMatchFromSomeLine(w, ResolutionOf);
    }
    if LastMatch(w, ScalingOf).Some? {
      LastMatchFromSomeLine(w, ScalingOf);
    }
    if LastMatch(w, OriginOf).Some? {
      LastMatchFromSomeLine(w, OriginOf);
      assert c.origin[1..|c.origin| - 1] == LastMatch(w, OriginOf).value;
    } else {
      assert c.origin[1..|c.origin| - 1] == "0,0";
    }
    if LastMatch(w, DegreeOf).Some? {
      LastMatchFromSomeLine(w, DegreeOf);
    }
  }

  // ----- Which lines are read -----

  /** The window starts at the first line mentioning the display, holds no marker but possibly its
      last line, and runs to the end of the listing when it does not end at a marker. */
  lemma WindowShape(ls: seq<Line>, id: string)
    ensures Window(ls, id) == [] <==> forall k :: 0 <= k < |ls| ==> !Mentions(ls[k], id)
    ensures var w := Window(ls, id);
      w != [] ==> var start := FirstMention(ls, id).value;
        && start + |w| <= |ls| && w == ls[start..start + |w|]
        && Mentions(w[0], id) && (forall k :: 0 <= k < start ==> !Mentions(ls[k], id))
        && (forall k :: 0 <= k < |w| - 1 ==> !IsRotationMarker(w[k]))
        && (!IsRotationMarker(w[|w| - 1]) ==> start + |w| == |ls|)
  {
    var w := Window(ls, id);
    var first := FirstMention(ls, id);
    FirstFromSpec(ls, 0, MentionOf(id));
    if first.Some? {
      var start := first.value;
      FirstFromSpec(ls, start, RotationMarkerTest);
      assert w[0] == ls[start];
      assert forall k :: 0 <= k < |w| ==> w[k] == ls[start + k];
    }
  }

  lemma FirstMentionAfterPreamble(pre: seq<Line>, ls: seq<Line>, id: string)
    requires forall k :: 0 <= k < |pre| ==> !Mentions(pre[k], id)
    ensures var r := FirstMention(ls, id);
      FirstMention(pre + ls, id) == if r.Some? then Some(|pre| + r.value) else None
  {
    var all := pre + ls;
    assert forall k :: 0 <= k < |pre| ==> all[k] == pre[k];
    FirstFromSkip(all, 0, |pre|, MentionOf(id));
    FirstFromShifted(pre, ls, 0, MentionOf(id));
  }

  lemma SliceBehind(pre: seq<Line>, ls: seq<Line>, a: nat, b: nat)
    requires a <= b <= |ls|
    ensures (pre + ls)[|pre| + a..|pre| + b] == ls[a..b]
    ensures (pre + ls)[|pre| + a..] == ls[a..]
  {
    var all := pre + ls;
    assert all[|pre|..] == ls;
    assert all[|pre| + a..|pre| + b] == all[|pre|..][a..b];
    assert all[|pre| + a..] == all[|pre|..][a..];
  }

  /** The window, given where the first mention and the marker after it are. */
  lemma WindowAt(ls: seq<Line>, id: string, k: nat, m: Option<nat>)
    requires FirstMention(ls, id) == Some(k) && FirstMarkerFrom(ls, k) == m
    ensures k <= |ls| && Window(ls, id) == if m.Some? then ls[k..m.value + 1] else ls[k..]
  {
  }

  /** With the first mention shifted by the prefix, so is the window. */
  lemma WindowBehind(pre: seq<Line>, ls: seq<Line>, id: string, k: nat)
    requires FirstMention(ls, id) == Some(k) && FirstMention(pre + ls, id) == Some(|pre| + k)
    ensures Window(pre + ls, id) == Window(ls, id)
  {
    FirstFromShifted(pre, ls, k, RotationMarkerTest);
    var marker := FirstMarkerFrom(ls, k);
    WindowAt(ls, id, k, marker);
    if marker.Some? {
      WindowAt(pre + ls, id, |pre| + k, Some(|pre| + marker.value));
      SliceBehind(pre, ls, k, marker.value + 1);
    } else {
      WindowAt(pre + ls, id, |pre| + k, None);
      SliceBehind(pre, ls, k, k);
    }
  }

  /** Lines before the first mention of the display do not matter. */
  lemma WindowIgnoresPreamble(pre: seq<Line>, ls: seq<Line>, id: string)
    requires forall k :: 0 <= k < |pre| ==> !Mentions(pre[k], id)
    ensures Window(pre + ls, id) == Window(ls, id)
  {
    FirstMentionAfterPreamble(pre, ls, id);
    var first := FirstMention(ls, id);
    if first.Some? {
      WindowBehind(pre, ls, id, first.value);
    }
  }

  /** Once the window has ended at a marker, lines after it do not matter. */
  lemma WindowIgnoresRest(ls: seq<Line>, post: seq<Line>, id: string)
    requires Window(ls, id) != [] && IsRotationMarker(Window(ls, id)[|Window(ls, id)| - 1])
    ensures Window(ls + post, id) == Window(ls, id)
  {
    var all := ls + post;
    FirstFromSpec(ls, 0, MentionOf(id));
    var k := FirstMention(ls, id).value;
    FirstFromSpec(ls, k, RotationMarkerTest);
    FirstFromUnique(all, 0, MentionOf(id), Some(k));
    var m := FirstMarkerFrom(ls, k);
    assert m.Some?;
    FirstFromUnique(all, k, RotationMarkerTest, m);
    assert all[k..m.value + 1] == ls[k..m.value + 1];
  }

  /** A display that is never mentioned gets the default configuration. */
  lemma ConfigWithoutMention(ls: seq<Line>, id: string)
    requires forall k :: 0 <= k < |ls| ==> !Mentions(ls[k], id)
    ensures ConfigOf(Window(ls, id), id) == DefaultConfig(id)
  {
    WindowShape(ls, id);
  }

  // ----- The command that applies a resolution -----

  const CommandPrefix := "displayplacer \""

  /** The five space-separated `key:value` settings inside the quoted argument. */
  function CommandFields(config: Config, newWidth: string, newHeight: string): seq<string> {
    ["id:" + config.id, "res:" + DimsText(Dims(newWidth, newHeight)), "scaling:" + config.scaling,
     "origin:" + config.origin, "degree:" + config.degree]
  }

  /** `buildDisplayPlacerCommand(config, newWidth, newHeight)`: the template
      `displayplacer "id:… res:…x… scaling:… origin:… degree:…"`, filled in without any escaping. */
  function BuildDisplayPlacerCommand(config: Config, newWidth: string, newHeight: string): string {
    var id := "id:" + config.id;
    var res := "res:" + DimsText(Dims(newWidth, newHeight));
    var scaling := "scaling:" + config.scaling;
    var origin := "origin:" + config.origin;
    var degree := "degree:" + config.degree;
    CommandPrefix + (id + (" " + (res + (" " + (scaling + (" " + (origin + (" " + degree)))))))) + "\""
  }

  lemma JoinFive(a: string, b: string, c: string, d: string, e: string, sep: char)
    ensures Join([a, b, c, d, e], sep) == a + ([sep] + (b + ([sep] + (c + ([sep] + (d + ([sep] + e)))))))
  {
    var f := [a, b, c, d, e];
    assert f[1..] == [b, c, d, e];
    assert f[1..][1..] == [c, d, e];
    assert f[1..][1..][1..] == [d, e];
    assert f[1..][1..][1..][1..] == [e];
    assert Join([d, e], sep) == d + [sep] + e;
    assert Join([c, d, e], sep) == c + [sep] + Join([d, e], sep);
    assert Join([b, c, d, e], sep) == b + [sep] + Join([c, d, e], sep);
  }

  /** The command is `displayplacer "…"` around the five settings joined by single spaces. */
  lemma CommandLayout(config: Config, newWidth: string, newHeight: string)
    ensures var cmd := BuildDisplayPlacerCommand(config, newWidth, newHeight);
      && |cmd| > |CommandPrefix| && cmd[..|CommandPrefix|] == CommandPrefix && cmd[|cmd| - 1] == '"'
      && cmd[|CommandPrefix|..|cmd| - 1] == Join(CommandFields(config, newWidth, newHeight), ' ')
  {
    var f := CommandFields(config, newWidth, newHeight);
    JoinFive(f[0], f[1], f[2], f[3], f[4], ' ');
    assert " " == [' '];
    var cmd := BuildDisplayPlacerCommand(config, newWidth, newHeight);
    assert cmd == CommandPrefix + Join(f, ' ') + "\"";
  }

  /** Nothing is escaped: when no value carries a double quote, the only double quotes in the
      command are the two around its argument. */
  lemma CommandQuoting(config: Config, newWidth: string, newHeight: string)
    requires '"' !in config.id && '"' !in newWidth && '"' !in newHeight
    requires '"' !in config.scaling && '"' !in config.origin && '"' !in config.degree
    ensures var cmd := BuildDisplayPlacerCommand(config, newWidth, newHeight);
      forall i :: 0 <= i < |cmd| ==> (cmd[i] == '"' <==> i == |CommandPrefix| - 1 || i == |cmd| - 1)
  {
    var cmd := BuildDisplayPlacerCommand(config, newWidth, newHeight);
    var f := CommandFields(config, newWidth, newHeight);
    CommandLayout(config, newWidth, newHeight);
    forall i | 0 <= i < |f| ensures '"' !in f[i] {
      KeyedValueAvoids("id:", config.id, '"');
      KeyedValueAvoids("res:", DimsText(Dims(newWidth, newHeight)), '"');
      KeyedValueAvoids("scaling:", config.scaling, '"');
      KeyedValueAvoids("origin:", config.origin, '"');
      KeyedValueAvoids("degree:", config.degree, '"');
    }
    JoinAvoids(f, ' ', '"');
    var body := cmd[|CommandPrefix|..|cmd| - 1];
    forall i | 0 <= i < |cmd| ensures cmd[i] == '"' <==> i == |CommandPrefix| - 1 || i == |cmd| - 1 {
      if i < |CommandPrefix| {
        assert cmd[i] == CommandPrefix[i];
      } else if i < |cmd| - 1 {
        assert cmd[i] == body[i - |CommandPrefix|];
      }
    }
  }

  lemma KeyedValueAvoids(key: string, value: string, c: char)
    requires c !in key && c !in value
    ensures c !in key + value
  {
  }

  lemma {:induction false} JoinAvoids(parts: seq<string>, sep: char, c: char)
    requires sep != c && forall i :: 0 <= i < |parts| ==> c !in parts[i]
    ensures c !in Join(parts, sep)
    decreases |parts|
  {
    if |parts| > 1 {
      JoinAvoids(parts[1..], sep, c);
    }
  }

  lemma StripKeyOf(key: string, value: string)
    ensures StripKey(key, key + value) == Some(value)
  {
    assert (key + value)[..|key|] == key;
    assert (key + value)[|key|..] == value;
  }

  /** What `displayplacer` reads back from a command of this shape. */
  datatype PlacerArgs = PlacerArgs(id: string, width: string, height: string, scaling: string, origin: string, degree: string)

  function StripKey(key: string, field: string): Option<string> {
    if key <= field then Some(field[|key|..]) else None
  }

  /** Reads the settings back out of a command: the quoted argument split at spaces into the five
      keyed settings, the resolution split at its `x`. None for anything of another shape. */
  function ParseCommand(cmd: string): Option<PlacerArgs> {
    if |cmd| <= |CommandPrefix| || cmd[..|CommandPrefix|] != CommandPrefix || cmd[|cmd| - 1] != '"' then None
    else ParseSettings(Split(cmd[|CommandPrefix|..|cmd| - 1], ' '))
  }

  function ParseSettings(fields: seq<string>): Option<PlacerArgs> {
    if |fields| != 5 then None
    else
      var id, res, scaling, origin, degree :=
        StripKey("id:", fields[0]), StripKey("res:", fields[1]), StripKey("scaling:", fields[2]),
        StripKey("origin:", fields[3]), StripKey("degree:", fields[4]);
      if id.None? || res.None? || scaling.None? || origin.None? || degree.None? then None
      else
        var dims := Split(res.value, 'x');
        if |dims| != 2 then None
        else Some(PlacerArgs(id.value, dims[0], dims[1], scaling.value, origin.value, degree.value))
  }

  lemma ParseSettingsOf(config: Config, newWidth: string, newHeight: string)
    requires 'x' !in newWidth && 'x' !in newHeight
    ensures ParseSettings(CommandFields(config, newWidth, newHeight))
      == Some(PlacerArgs(config.id, newWidth, newHeight, config.scaling, config.origin, config.degree))
  {
    var dims := [newWidth, newHeight];
    assert Join(dims, 'x') == newWidth + "x" + newHeight by { assert dims[1..] == [newHeight]; }
    SplitJoin(dims, 'x');
    StripKeyOf("id:", config.id);
    StripKeyOf("res:", DimsText(Dims(newWidth, newHeight)));
    StripKeyOf("scaling:", config.scaling);
    StripKeyOf("origin:", config.origin);
    StripKeyOf("degree:", config.degree);
  }

  /** The command carries every setting intact, provided no value contains a space (which would
      split the argument) and the width and height contain no `x`. */
  lemma ParseBuiltCommand(config: Config, newWidth: string, newHeight: string)
    requires ' ' !in config.id && ' ' !in newWidth && ' ' !in newHeight
    requires ' ' !in config.scaling && ' ' !in config.origin && ' ' !in config.degree
    requires 'x' !in newWidth && 'x' !in newHeight
    ensures ParseCommand(BuildDisplayPlacerCommand(config, newWidth, newHeight))
      == Some(PlacerArgs(config.id, newWidth, newHeight, config.scaling, config.origin, config.degree))
  {
    var f := CommandFields(config, newWidth, newHeight);
    CommandLayout(config, newWidth, newHeight);
    forall i | 0 <= i < |f| ensures ' ' !in f[i] {
      KeyedValueAvoids("id:", config.id, ' ');
      JoinAvoids([newWidth, newHeight], 'x', ' ');
      assert Join([newWidth, newHeight], 'x') == newWidth + "x" + newHeight by { assert [newWidth, newHeight][1..] == [newHeight]; }
      KeyedValueAvoids("res:", DimsText(Dims(newWidth, newHeight)), ' ');
      KeyedValueAvoids("scaling:", config.scaling, ' ');
      KeyedValueAvoids("origin:", config.origin, ' ');
      KeyedValueAvoids("degree:", config.degree, ' ');
    }
    SplitJoin(f, ' ');
    ParseSettingsOf(config, newWidth, newHeight);
  }
}
