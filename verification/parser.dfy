/** `parseDisplayPlacerOutput`: one forward scan over the listing, opening a display record on every
    persistent-id line. The scan is proved equal to a block-wise reading of the listing: the lines
    before the first persistent-id line are ignored, and each persistent-id line starts a block that
    runs to the next one. */
module PlacerParser {
  import opened Wrappers
  import opened Text
  import opened Seqs
  import opened PlacerLines

  /** One display as the listing scan reports it (`currentResolution` None is JavaScript's `null`). */
  datatype Display = Display(persistentId: string, name: string, currentResolution: Option<string>, resolutions: seq<string>)

  const UnknownName := "Unknown"

  /** The record the scan opens on a persistent-id line. */
  function OpenedDisplay(id: string): Display {
    Display(id, UnknownName, None, [])
  }

  // ----- The block-wise reading -----

  /** A persistent-id line's id and the lines after it up to the next persistent-id line. */
  datatype Block = Block(id: string, body: seq<Line>)

  function Blocks(ls: seq<Line>): seq<Block>
    decreases |ls|
  {
    if |ls| == 0 then []
    else
      var l := ls[|ls| - 1];
      var bs := Blocks(ls[..|ls| - 1]);
      if IsScreenIdLine(l) then bs + [Block(l.caps.screenId.value, [])]
      else if |bs| == 0 then []
      else bs[..|bs| - 1] + [Block(bs[|bs| - 1].id, bs[|bs| - 1].body + [l])]
  }

  /** The trimmed label of the last `Type:` line, or "Unknown" when there is none. */
  function LastTypeName(body: seq<Line>): string {
    match LastMatch(body, TypeLabelOf)
    case Some(text) => Trim(text)
    case None => UnknownName
  }

  /** The resolution of the last `Resolution: WxH` line, or None when there is none. */
  function LastResolution(body: seq<Line>): Option<string> {
    match LastMatch(body, ResolutionOf)
    case Some(d) => Some(DimsText(d))
    case None => None
  }

  predicate HasMarker(body: seq<Line>) {
    exists m :: 0 <= m < |body| && IsRotationMarker(body[m])
  }

  /** A line that offers a resolution once the rotation marker has been passed: not itself a
      marker, not blank, and holding a `WxH` token. */
  predicate IsListingLine(l: Line) {
    !IsRotationMarker(l) && Trim(l.text) != [] && l.caps.resToken.Some?
  }

  /** The `WxH` tokens of the listing lines that follow the first rotation marker, repeats kept. */
  function ListedTokens(body: seq<Line>): seq<string>
    decreases |body|
  {
    if |body| == 0 then []
    else
      var init := body[..|body| - 1];
      var l := body[|body| - 1];
      if HasMarker(init) && IsListingLine(l) then ListedTokens(init) + [DimsText(l.caps.resToken.value)]
      else ListedTokens(init)
  }

  /** The distinct elements of `s` in the order of their first occurrence. */
  function Dedup(s: seq<string>): (r: seq<string>)
    ensures NoDups(r)
    ensures forall x :: x in r <==> x in s
    decreases |s|
  {
    if |s| == 0 then []
    else
      var d := Dedup(s[..|s| - 1]);
      var x := s[|s| - 1];
      assert forall y :: y in s <==> y in s[..|s| - 1] || y == x by {
        assert s == s[..|s| - 1] + [x];
      }
      if x in d then d else d + [x]
  }

  function DisplayOf(b: Block): Display {
    Display(b.id, LastTypeName(b.body), LastResolution(b.body), Dedup(ListedTokens(b.body)))
  }

  function DisplaysOf(bs: seq<Block>): (ds: seq<Display>)
    ensures |ds| == |bs|
  {
    seq(|bs|, i requires 0 <= i < |bs| => DisplayOf(bs[i]))
  }

  /** What the listing means: one display per block. */
  function ReferenceParse(ls: seq<Line>): seq<Display> {
    DisplaysOf(Blocks(ls))
  }

  // ----- One-line extensions of the reading -----

  lemma BlocksExtend(p: seq<Line>, l: Line)
    ensures var bs := Blocks(p);
      Blocks(p + [l]) ==
        if IsScreenIdLine(l) then bs + [Block(l.caps.screenId.value, [])]
        else if |bs| == 0 then []
        else bs[..|bs| - 1] + [Block(bs[|bs| - 1].id, bs[|bs| - 1].body + [l])]
  {
    assert (p + [l])[..|p|] == p;
  }


  lemma MarkerExtend(body: seq<Line>, l: Line)
    ensures HasMarker(body + [l]) == (HasMarker(body) || IsRotationMarker(l))
  {
    var b := body + [l];
    assert b[|body|] == l;
    if HasMarker(body) {
      var m :| 0 <= m < |body| && IsRotationMarker(body[m]);
      assert b[m] == body[m];
    }
    if HasMarker(b) && !IsRotationMarker(l) {
      var m :| 0 <= m < |b| && IsRotationMarker(b[m]);
      if m < |body| {
        assert b[m] == body[m];
      }
    }
  }

  lemma TokensExtend(body: seq<Line>, l: Line)
    ensures ListedTokens(body + [l]) == if HasMarker(body) && IsListingLine(l) then ListedTokens(body) + [DimsText(l.caps.resToken.value)] else ListedTokens(body)
  {
    assert (body + [l])[..|body|] == body;
  }

  lemma BodyExtend(body: seq<Line>, l: Line)
    ensures LastTypeName(body + [l]) == if l.caps.typeLabel.Some? then Trim(l.caps.typeLabel.value) else LastTypeName(body)
    ensures LastResolution(body + [l]) == if l.caps.resolution.Some? then Some(DimsText(l.caps.resolution.value)) else LastResolution(body)
    ensures ListedTokens(body + [l]) == if HasMarker(body) && IsListingLine(l) then ListedTokens(body) + [DimsText(l.caps.resToken.value)] else ListedTokens(body)
    ensures HasMarker(body + [l]) == (HasMarker(body) || IsRotationMarker(l))
  {
    LastMatchExtend(body, l, TypeLabelOf);
    LastMatchExtend(body, l, ResolutionOf);
    MarkerExtend(body, l);
    TokensExtend(body, l);
  }

  lemma DedupExtend(s: seq<string>, x: string)
    ensures Dedup(s + [x]) == if x in Dedup(s) then Dedup(s) else Dedup(s) + [x]
  {
    assert (s + [x])[..|s|] == s;
  }

  lemma DisplaysOfExtend(bs: seq<Block>, b: Block)
    ensures DisplaysOf(bs + [b]) == DisplaysOf(bs) + [DisplayOf(b)]
  {
  }

  // ----- The scan -----

  /** The scan state after a prefix `p` of the lines: the records already pushed, the open record and
      the `resolutionsSection` flag, all as the block-wise reading of `p` predicts. */
  ghost predicate ScanState(p: seq<Line>, done: seq<Display>, current: Option<Display>, inSection: bool) {
    var bs := Blocks(p);
    && (current.Some? <==> |bs| > 0)
    && done + (if current.Some? then [current.value] else []) == DisplaysOf(bs)
    && (current.Some? ==> inSection == HasMarker(bs[|bs| - 1].body))
  }

  /** The part of the loop body that runs for a line that is not a persistent-id line: it updates
      the open record, if any, from the line and sets `resolutionsSection` on a rotation marker.
      `body` is the open block's lines so far. */
  method ScanDetailLine(current: Option<Display>, resolutionsSection: bool, line: Line, ghost body: seq<Line>)
    returns (current': Option<Display>, resolutionsSection': bool)
    requires !IsScreenIdLine(line)
    requires current.Some? ==> current.value == DisplayOf(Block(current.value.persistentId, body)) && resolutionsSection == HasMarker(body)
    ensures current'.Some? == current.Some?
    ensures current.Some? ==> current'.value == DisplayOf(Block(current.value.persistentId, body + [line]))
    ensures current.Some? ==> resolutionsSection' == HasMarker(body + [line])
  {
    BodyExtend(body, line);
    current' := current;
    resolutionsSection' := resolutionsSection;
    if line.caps.resolution.Some? && current'.Some? {
      current' := Some(current'.value.(currentResolution := Some(DimsText(line.caps.resolution.value))));
    }
    if line.caps.typeLabel.Some? && current'.Some? {
      current' := Some(current'.value.(name := Trim(line.caps.typeLabel.value)));
    }
    if IsRotationMarker(line) {
      resolutionsSection' := true;
    } else if resolutionsSection' && current'.Some? && Trim(line.text) != [] {
      if line.caps.resToken.Some? {
        var resolution := DimsText(line.caps.resToken.value);
        DedupExtend(ListedTokens(body), resolution);
        if resolution !in current'.value.resolutions {
          current' := Some(current'.value.(resolutions := current'.value.resolutions + [resolution]));
        }
      }
    }
  }

  /** The lines of the open block after its persistent-id line (none before the first block). */
  function OpenBody(p: seq<Line>): seq<Line> {
    var bs := Blocks(p);
    if |bs| > 0 then bs[|bs| - 1].body else []
  }

  /** The open record is the reading of the open block. */
  lemma ScanStateCurrent(p: seq<Line>, done: seq<Display>, current: Option<Display>, inSection: bool)
    requires ScanState(p, done, current, inSection)
    ensures current.Some? ==>
      current.value == DisplayOf(Block(current.value.persistentId, OpenBody(p))) && inSection == HasMarker(OpenBody(p))
  {
    if current.Some? {
      var bs := Blocks(p);
      assert (done + [current.value])[|done|] == current.value;
      assert DisplaysOf(bs)[|bs| - 1] == DisplayOf(bs[|bs| - 1]);
    }
  }

  lemma ScanStateStep(lines: seq<Line>, i: nat, done: seq<Display>, current: Option<Display>, inSection: bool,
                      current': Option<Display>, inSection': bool)
    requires i < |lines| && !IsScreenIdLine(lines[i])
    requires ScanState(lines[..i], done, current, inSection)
    requires current'.Some? == current.Some?
    requires current.Some? ==> current'.value == DisplayOf(Block(current.value.persistentId, OpenBody(lines[..i]) + [lines[i]]))
    requires current.Some? ==> inSection' == HasMarker(OpenBody(lines[..i]) + [lines[i]])
    ensures ScanState(lines[..i + 1], done, current', inSection')
  {
    var p, l := lines[..i], lines[i];
    assert lines[..i + 1] == p + [l];
    ScanStateCurrent(p, done, current, inSection);
    BlocksExtend(p, l);
    var bs := Blocks(p);
    if |bs| > 0 {
      var last := bs[|bs| - 1];
      DisplaysOfExtend(bs[..|bs| - 1], Block(last.id, last.body + [l]));
      DisplaysOfExtend(bs[..|bs| - 1], last);
      assert bs[..|bs| - 1] + [last] == bs;
      var whole := done + [current.value];
      assert whole[..|done|] == done;
      assert DisplaysOf(bs)[..|bs| - 1] == DisplaysOf(bs[..|bs| - 1]);
    }
  }

  /** On a persistent-id line the open record is pushed and a fresh one, with name "Unknown", no
      current resolution and no resolutions, is opened with `resolutionsSection` reset. */
  lemma ScanStateOpen(lines: seq<Line>, i: nat, done: seq<Display>, current: Option<Display>, inSection: bool)
    requires i < |lines| && IsScreenIdLine(lines[i])
    requires ScanState(lines[..i], done, current, inSection)
    ensures ScanState(lines[..i + 1], done + (if current.Some? then [current.value] else []),
                      Some(Display(lines[i].caps.screenId.value, "Unknown", None, [])), false)
  {
    var p, l := lines[..i], lines[i];
    assert lines[..i + 1] == p + [l];
    BlocksExtend(p, l);
    DisplaysOfExtend(Blocks(p), Block(l.caps.screenId.value, []));
  }

  /** The `for (const line of lines)` loop of `parseDisplayPlacerOutput` and the final push. */
  method ScanLines(lines: seq<Line>) returns (displays: seq<Display>)
    ensures displays == ReferenceParse(lines)
  {
    displays := [];
    var current: Option<Display> := None;
    var resolutionsSection := false;
    var i := 0;
    while i < |lines|
      invariant 0 <= i <= |lines|
      invariant ScanState(lines[..i], displays, current, resolutionsSection)
    {
      var line := lines[i];
      if line.caps.screenId.Some? {
        ScanStateOpen(lines, i, displays, current, resolutionsSection);
        if current.Some? {
          displays := displays + [current.value];
        }
        current := Some(OpenedDisplay(line.caps.screenId.value));
        resolutionsSection := false;
      } else {
        ScanStateCurrent(lines[..i], displays, current, resolutionsSection);
        var current', resolutionsSection' := ScanDetailLine(current, resolutionsSection, line, OpenBody(lines[..i]));
        ScanStateStep(lines, i, displays, current, resolutionsSection, current', resolutionsSection');
        current, resolutionsSection := current', resolutionsSection';
      }
      i := i + 1;
    }
    if current.Some? {
      displays := displays + [current.value];
    }
    assert lines[..|lines|] == lines;
  }

  /** `parseDisplayPlacerOutput(output)`: one record per persistent-id line, in input order, each
      with a duplicate-free list of resolutions. */
  method ParseDisplayPlacerOutput(output: string, matcher: Matcher) returns (displays: seq<Display>)
    ensures displays == ReferenceParse(Lines(output, matcher))
    ensures |displays| == |ScreenIds(Lines(output, matcher))|
    ensures forall i :: 0 <= i < |displays| ==> displays[i].persistentId == ScreenIds(Lines(output, matcher))[i]
    ensures forall i :: 0 <= i < |displays| ==> NoDups(displays[i].resolutions)
  {
    var lines := Lines(output, matcher);
    displays := ScanLines(lines);
    ReferenceParseFollowsScreenIds(lines);
    ReferenceParseNoDups(lines);
  }

  // ----- Properties of the reading -----

  /** The ids of the persistent-id lines, in input order. */
  function ScreenIds(ls: seq<Line>): (ids: seq<string>)
    ensures |ids| <= |ls|
    decreases |ls|
  {
    if |ls| == 0 then []
    else
      var l := ls[|ls| - 1];
      ScreenIds(ls[..|ls| - 1]) + if IsScreenIdLine(l) then [l.caps.screenId.value] else []
  }

  /** One block per persistent-id line, in input order. */
  predicate BlocksMatchIds(bs: seq<Block>, ids: seq<string>) {
    |bs| == |ids| && forall i :: 0 <= i < |bs| ==> bs[i].id == ids[i]
  }

  lemma BlocksMatchIdsExtend(init: seq<Line>, l: Line)
    requires BlocksMatchIds(Blocks(init), ScreenIds(init))
    ensures BlocksMatchIds(Blocks(init + [l]), ScreenIds(init + [l]))
  {
    BlocksExtend(init, l);
    assert (init + [l])[..|init|] == init;
    var bs, ids := Blocks(init), ScreenIds(init);
    var bs' := Blocks(init + [l]);
    if IsScreenIdLine(l) {
      assert ScreenIds(init + [l]) == ids + [l.caps.screenId.value];
      assert forall i :: 0 <= i < |bs| ==> bs'[i] == bs[i];
    } else {
      assert ScreenIds(init + [l]) == ids;
      if |bs| > 0 {
        assert forall i :: 0 <= i < |bs'| ==> bs'[i].id == bs[i].id;
      }
    }
  }

  lemma {:induction false} BlocksFollowScreenIds(ls: seq<Line>)
    ensures |Blocks(ls)| == |ScreenIds(ls)|
    ensures forall i :: 0 <= i < |Blocks(ls)| ==> Blocks(ls)[i].id == ScreenIds(ls)[i]
    decreases |ls|
  {
    if |ls| > 0 {
      var init := ls[..|ls| - 1];
      BlocksFollowScreenIds(init);
      BlocksMatchIdsExtend(init, ls[|ls| - 1]);
      assert init + [ls[|ls| - 1]] == ls;
    }
  }

  lemma ReferenceParseFollowsScreenIds(ls: seq<Line>)
    ensures |ReferenceParse(ls)| == |ScreenIds(ls)|
    ensures forall i :: 0 <= i < |ReferenceParse(ls)| ==> ReferenceParse(ls)[i].persistentId == ScreenIds(ls)[i]
  {
    BlocksFollowScreenIds(ls);
  }

  lemma ReferenceParseNoDups(ls: seq<Line>)
    ensures forall i :: 0 <= i < |ReferenceParse(ls)| ==> NoDups(ReferenceParse(ls)[i].resolutions)
  {
  }

  /** Lines without a persistent-id line open no block. */
  lemma {:induction false} NoScreenIdNoBlocks(ls: seq<Line>)
    requires forall k :: 0 <= k < |ls| ==> !IsScreenIdLine(ls[k])
    ensures Blocks(ls) == []
    decreases |ls|
  {
    if |ls| > 0 {
      NoScreenIdNoBlocks(ls[..|ls| - 1]);
    }
  }

  /** Lines before the first persistent-id line change nothing. */
  /** Lines before the first persistent-id line change nothing. */
  lemma {:induction false} BlocksIgnorePreamble(pre: seq<Line>, ls: seq<Line>)
    requires forall k :: 0 <= k < |pre| ==> !IsScreenIdLine(pre[k])
    ensures Blocks(pre + ls) == Blocks(ls)
    decreases |ls|
  {
    if |ls| == 0 {
      assert pre + ls == pre;
      NoScreenIdNoBlocks(pre);
    } else {
      var init := ls[..|ls| - 1];
      var l := ls[|ls| - 1];
      BlocksIgnorePreamble(pre, init);
      assert pre + ls == (pre + init) + [l];
      assert init + [l] == ls;
      BlocksExtend(pre + init, l);
      BlocksExtend(init, l);
    }
  }

  lemma ReferenceParseIgnoresPreamble(pre: seq<Line>, ls: seq<Line>)
    requires forall k :: 0 <= k < |pre| ==> !IsScreenIdLine(pre[k])
    ensures ReferenceParse(pre + ls) == ReferenceParse(ls)
  {
    BlocksIgnorePreamble(pre, ls);
  }

  /** A persistent-id line opens a block whose body is every line after it up to the next
      persistent-id line; the blocks read before it are unchanged. */
  lemma {:induction false} BlockAfterIdLine(pre: seq<Line>, idl: Line, body: seq<Line>)
    requires IsScreenIdLine(idl)
    requires forall k :: 0 <= k < |body| ==> !IsScreenIdLine(body[k])
    ensures Blocks(pre + [idl] + body) == Blocks(pre) + [Block(idl.caps.screenId.value, body)]
    decreases |body|
  {
    if |body| == 0 {
      assert pre + [idl] + body == pre + [idl];
      BlocksExtend(pre, idl);
    } else {
      var init := body[..|body| - 1];
      var l := body[|body| - 1];
      BlockAfterIdLine(pre, idl, init);
      assert pre + [idl] + body == (pre + [idl] + init) + [l];
      assert init + [l] == body;
      BlocksExtend(pre + [idl] + init, l);
    }
  }

  /** The display read from such a block: its id is the persistent id of the opening line and its
      fields come from the lines of the body. */
  lemma ReferenceParseAfterIdLine(pre: seq<Line>, idl: Line, body: seq<Line>)
    requires IsScreenIdLine(idl)
    requires forall k :: 0 <= k < |body| ==> !IsScreenIdLine(body[k])
    ensures ReferenceParse(pre + [idl] + body) == ReferenceParse(pre) + [DisplayOf(Block(idl.caps.screenId.value, body))]
  {
    BlockAfterIdLine(pre, idl, body);
    DisplaysOfExtend(Blocks(pre), Block(idl.caps.screenId.value, body));
  }

  /** Line `j` of the block lists token `x`: it follows the rotation marker at line `m`, is not
      itself a marker, is not blank and holds the token. */
  predicate ListedAt(body: seq<Line>, m: int, j: int, x: string) {
    && 0 <= m < j < |body| && IsRotationMarker(body[m]) && IsListingLine(body[j])
    && DimsText(body[j].caps.resToken.value) == x
  }

  lemma {:induction false} ListedTokensComeAfterMarker(body: seq<Line>, x: string)
    requires x in ListedTokens(body)
    ensures exists m, j :: ListedAt(body, m, j, x)
    decreases |body|
  {
    var init := body[..|body| - 1];
    var l := body[|body| - 1];
    TokensExtend(init, l);
    assert init + [l] == body;
    if x in ListedTokens(init) {
      ListedTokensComeAfterMarker(init, x);
      var m, j :| ListedAt(init, m, j, x);
      assert body[m] == init[m] && body[j] == init[j];
      assert ListedAt(body, m, j, x);
    } else {
      var m :| 0 <= m < |init| && IsRotationMarker(init[m]);
      assert body[m] == init[m];
      assert ListedAt(body, m, |body| - 1, x);
    }
  }

  lemma {:induction false} MarkedTokensAreListed(body: seq<Line>, m: int, j: int, x: string)
    requires ListedAt(body, m, j, x)
    ensures x in ListedTokens(body)
    decreases |body|
  {
    var init := body[..|body| - 1];
    var l := body[|body| - 1];
    if j < |body| - 1 {
      assert init[m] == body[m] && init[j] == body[j];
      assert ListedAt(init, m, j, x);
      MarkedTokensAreListed(init, m, j, x);
    } else {
      assert init[m] == body[m];
      assert HasMarker(init);
      assert l == body[j];
    }
  }

  /** The resolutions of a display are the distinct tokens listed after a rotation marker of its
      block: a line contributes exactly when it follows a marker, is not itself a marker, is not
      blank and holds a `WxH` token. */
  lemma ResolutionsComeAfterMarker(b: Block, x: string)
    ensures x in DisplayOf(b).resolutions <==> exists m, j :: ListedAt(b.body, m, j, x)
  {
    if x in ListedTokens(b.body) {
      ListedTokensComeAfterMarker(b.body, x);
    }
    if exists m, j :: ListedAt(b.body, m, j, x) {
      var m, j :| ListedAt(b.body, m, j, x);
      MarkedTokensAreListed(b.body, m, j, x);
    }
  }

  /** Position of the first occurrence of `x` in `s`. */
  function FirstIndex(s: seq<string>, x: string): (k: nat)
    requires x in s
    ensures k < |s| && s[k] == x && x !in s[..k]
  {
    if s[0] == x then 0
    else
      assert x in s[1..];
      var k := FirstIndex(s[1..], x);
      assert s[..k + 1] == [s[0]] + s[1..][..k];
      k + 1
  }

  lemma {:induction false} FirstIndexExtend(s: seq<string>, x: string, y: string)
    requires y in s
    ensures FirstIndex(s + [x], y) == FirstIndex(s, y)
  {
    if s[0] != y {
      assert (s + [x])[1..] == s[1..] + [x];
      FirstIndexExtend(s[1..], x, y);
    }
  }

  /** `Dedup` keeps first-seen order: its elements appear in the order of their first occurrences. */
  lemma {:induction false} DedupFirstSeenOrder(s: seq<string>)
    ensures forall i, j :: 0 <= i < j < |Dedup(s)| ==> FirstIndex(s, Dedup(s)[i]) < FirstIndex(s, Dedup(s)[j])
    decreases |s|
  {
    if |s| > 0 {
      var init := s[..|s| - 1];
      var x := s[|s| - 1];
      assert init + [x] == s;
      DedupFirstSeenOrder(init);
      DedupExtend(init, x);
      var d := Dedup(init);
      forall y | y in d ensures FirstIndex(s, y) == FirstIndex(init, y) {
        FirstIndexExtend(init, x, y);
      }
      if x !in d {
        assert FirstIndex(s, x) == |init| by {
          assert x !in init;
          assert s[..|init|] == init;
        }
      }
    }
  }

  /** Within a block, the name is the trimmed text of the last `Type:` line. */
  lemma NameIsLastTypeLine(body: seq<Line>, j: nat)
    requires j < |body| && body[j].caps.typeLabel.Some?
    requires forall k :: j < k < |body| ==> body[k].caps.typeLabel.None?
    ensures LastTypeName(body) == Trim(body[j].caps.typeLabel.value)
  {
    LastMatchIsLast(body, TypeLabelOf, j);
  }

  /** A block without a `Type:` line keeps the name "Unknown". */
  lemma NameWithoutTypeLine(body: seq<Line>)
    requires forall k :: 0 <= k < |body| ==> body[k].caps.typeLabel.None?
    ensures LastTypeName(body) == UnknownName
  {
    LastMatchNone(body, TypeLabelOf);
  }

  /** Within a block, the current resolution is that of the last `Resolution: WxH` line. */
  lemma CurrentIsLastResolutionLine(body: seq<Line>, j: nat)
    requires j < |body| && body[j].caps.resolution.Some?
    requires forall k :: j < k < |body| ==> body[k].caps.resolution.None?
    ensures LastResolution(body) == Some(DimsText(body[j].caps.resolution.value))
  {
    LastMatchIsLast(body, ResolutionOf, j);
  }

  /** A block without a `Resolution:` line keeps `currentResolution` null. */
  lemma CurrentWithoutResolutionLine(body: seq<Line>)
    requires forall k :: 0 <= k < |body| ==> body[k].caps.resolution.None?
    ensures LastResolution(body) == None
  {
    LastMatchNone(body, ResolutionOf);
  }

  lemma {:induction false} BlocksWellFormed(ls: seq<Line>)
    requires WellFormedLines(ls)
    ensures forall i :: 0 <= i < |Blocks(ls)| ==> IsScreenId(Blocks(ls)[i].id) && WellFormedLines(Blocks(ls)[i].body)
    decreases |ls|
  {
    if |ls| > 0 {
      var init := ls[..|ls| - 1];
      var l := ls[|ls| - 1];
      assert init + [l] == ls;
      assert WellFormedLines(init) by {
        forall k | 0 <= k < |init| ensures WellFormedCaptures(init[k].caps) {
          assert init[k] == ls[k];
        }
      }
      BlocksWellFormed(init);
      BlocksWellFormedExtend(init, l);
    }
  }

  lemma BlocksWellFormedExtend(init: seq<Line>, l: Line)
    requires forall i :: 0 <= i < |Blocks(init)| ==> IsScreenId(Blocks(init)[i].id) && WellFormedLines(Blocks(init)[i].body)
    requires WellFormedCaptures(l.caps)
    ensures forall i :: 0 <= i < |Blocks(init + [l])| ==> IsScreenId(Blocks(init + [l])[i].id) && WellFormedLines(Blocks(init + [l])[i].body)
  {
    BlocksExtend(init, l);
  }

  lemma {:induction false} ShapeOfBody(body: seq<Line>)
    requires WellFormedLines(body)
    ensures LastResolution(body).Some? ==> IsResolutionText(LastResolution(body).value)
    ensures forall x :: x in ListedTokens(body) ==> IsResolutionText(x)
    decreases |body|
  {
    if |body| > 0 {
      var init := body[..|body| - 1];
      var l := body[|body| - 1];
      assert WellFormedLines(init) by {
        forall k | 0 <= k < |init| ensures WellFormedCaptures(init[k].caps) {
          assert init[k] == body[k];
        }
      }
      ShapeOfBody(init);
      assert WellFormedCaptures(l.caps);
      assert init + [l] == body;
      LastMatchExtend(init, l, ResolutionOf);
      if l.caps.resolution.Some? {
        DimsTextShape(l.caps.resolution.value);
      }
      if l.caps.resToken.Some? {
        DimsTextShape(l.caps.resToken.value);
      }
    }
  }

  /** On well-formed captures every display has a non-empty hexadecimal id, and its current and
      supported resolutions all have the `WIDTHxHEIGHT` shape. */
  lemma ReferenceParseShape(ls: seq<Line>)
    requires WellFormedLines(ls)
    ensures forall i :: 0 <= i < |ReferenceParse(ls)| ==>
      var d := ReferenceParse(ls)[i];
      && IsScreenId(d.persistentId)
      && (d.currentResolution.Some? ==> IsResolutionText(d.currentResolution.value))
      && (forall k :: 0 <= k < |d.resolutions| ==> IsResolutionText(d.resolutions[k]))
  {
    BlocksWellFormed(ls);
    forall i | 0 <= i < |Blocks(ls)| ensures WellFormedLines(Blocks(ls)[i].body) {
    }
    forall i | 0 <= i < |Blocks(ls)|
      ensures var d := DisplayOf(Blocks(ls)[i]);
        && (d.currentResolution.Some? ==> IsResolutionText(d.currentResolution.value))
        && (forall k :: 0 <= k < |d.resolutions| ==> IsResolutionText(d.resolutions[k]))
    {
      ShapeOfBody(Blocks(ls)[i].body);
    }
  }
}
