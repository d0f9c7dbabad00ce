/** Incremental editing of open documents (server/lsp/p4unit.cpp), after the
    "DidChangeTextDocument Notification" section of the Language Server Protocol. */
module Document {
  import opened Common

  datatype Position = Position(line: nat, character: nat)

  // ----- what a position means -----

  function Newlines(text: string, k: nat): nat
    requires k <= |text|
  {
    if k == 0 then 0 else Newlines(text, k - 1) + if text[k - 1] == '\n' then 1 else 0
  }

  /** Offset of the first character of the line that offset `k` is on. */
  function LineStart(text: string, k: nat): (s: nat)
    requires k <= |text|
    ensures s <= k
  {
    if k == 0 || text[k - 1] == '\n' then k else LineStart(text, k - 1)
  }

  /** Count the newlines and the column before an offset. */
  function PositionAt(text: string, k: nat): Position
    requires k <= |text|
  {
    Position(Newlines(text, k), k - LineStart(text, k))
  }

  /** `k` is the offset that the code accepts for `p`: it must hold a character other than a
      newline, so the end of a line and the end of the text are no positions at all. */
  ghost predicate IsOffset(text: string, p: Position, k: nat) {
    k < |text| && text[k] != '\n' && PositionAt(text, k) == p
  }

  ghost predicate Before(p: Position, q: Position) {
    p.line < q.line || (p.line == q.line && p.character < q.character)
  }

  lemma {:induction false} NewlinesGrow(text: string, i: nat, j: nat)
    requires i <= j <= |text|
    ensures Newlines(text, i) <= Newlines(text, j)
    ensures Newlines(text, i) == Newlines(text, j) <==> forall k :: i <= k < j ==> text[k] != '\n'
    decreases j
  {
    if i < j {
      NewlinesGrow(text, i, j - 1);
    }
  }

  lemma {:induction false} SameLine(text: string, i: nat, j: nat)
    requires i <= j <= |text| && forall k :: i <= k < j ==> text[k] != '\n'
    ensures LineStart(text, i) == LineStart(text, j)
    decreases j
  {
    if i < j {
      SameLine(text, i, j - 1);
    }
  }

  /** Offsets and positions are in the same order; in particular a position has at most one
      offset. */
  lemma PositionsAreOrdered(text: string, i: nat, j: nat)
    requires i < j <= |text|
    ensures Before(PositionAt(text, i), PositionAt(text, j))
  {
    NewlinesGrow(text, i, j);
    if Newlines(text, i) == Newlines(text, j) {
      SameLine(text, i, j);
    }
  }

  lemma OffsetIsUnique(text: string, p: Position, i: nat, j: nat)
    requires IsOffset(text, p, i) && IsOffset(text, p, j)
    ensures i == j
  {
    if i < j {
      PositionsAreOrdered(text, i, j);
    } else if j < i {
      PositionsAreOrdered(text, j, i);
    }
  }

  ghost function IndexOf(text: string, p: Position): (r: Option<nat>)
    ensures r.Some? ==> IsOffset(text, p, r.value)
    ensures r.None? <==> forall k :: !IsOffset(text, p, k)
  {
    if k: nat :| IsOffset(text, p, k) then
      OffsetsAgree(text, p);
      Some(k)
    else None
  }

  lemma OffsetsAgree(text: string, p: Position)
    ensures forall i, j :: IsOffset(text, p, i) && IsOffset(text, p, j) ==> i == j
  {
    forall i, j | IsOffset(text, p, i) && IsOffset(text, p, j) ensures i == j {
      OffsetIsUnique(text, p, i, j);
    }
  }

  /** Going to an offset and back: every character that is not a newline is found at its own
      position, and only there. */
  lemma IndexOfPositionAt(text: string, k: nat)
    requires k < |text|
    ensures IndexOf(text, PositionAt(text, k)) == if text[k] != '\n' then Some(k) else None
  {
    var p := PositionAt(text, k);
    if text[k] != '\n' {
      assert IsOffset(text, p, k);
      OffsetIsUnique(text, p, k, IndexOf(text, p).value);
    } else {
      forall j: nat | IsOffset(text, p, j) ensures false {
        if j < k { PositionsAreOrdered(text, j, k); } else { PositionsAreOrdered(text, k, j); }
      }
    }
  }

  // ----- positions in a text given by its lines -----

  predicate IsLine(line: string) { '\n' !in line }

  /** The lines, each but the last with a newline behind it. */
  function JoinLines(lines: seq<string>): string {
    if lines == [] then "" else if |lines| == 1 then lines[0] else lines[0] + "\n" + JoinLines(lines[1..])
  }

  /** Where line `l` begins. */
  function OffsetOfLine(lines: seq<string>, l: nat): nat
    requires l < |lines|
  {
    if l == 0 then 0 else |lines[0]| + 1 + OffsetOfLine(lines[1..], l - 1)
  }

  lemma {:induction false} FirstLine(line: string, more: string, k: nat)
    requires IsLine(line) && k <= |line|
    ensures PositionAt(line + more, k) == Position(0, k)
    decreases k
  {
    if k > 0 {
      FirstLine(line, more, k - 1);
      assert (line + more)[k - 1] == line[k - 1];
    }
  }

  lemma {:induction false} LaterLine(line: string, more: string, k: nat)
    requires IsLine(line) && k <= |more|
    ensures var text := line + "\n" + more;
      PositionAt(text, |line| + 1 + k) == Position(PositionAt(more, k).line + 1, PositionAt(more, k).character)
    decreases k
  {
    var text := line + "\n" + more;
    if k == 0 {
      assert text == line + ("\n" + more);
      FirstLine(line, "\n" + more, |line|);
      assert text[|line|] == '\n';
    } else {
      LaterLine(line, more, k - 1);
      assert text[|line| + k] == more[k - 1];
    }
  }

  /** The character `c` places behind the beginning of line `l` has position `l`, `c`, both counted
      from zero, up to and including the end of the line. */
  lemma {:induction false} PositionInLines(lines: seq<string>, l: nat, c: nat)
    requires l < |lines| && c <= |lines[l]| && forall i :: 0 <= i < |lines| ==> IsLine(lines[i])
    ensures OffsetOfLine(lines, l) + c <= |JoinLines(lines)|
    ensures PositionAt(JoinLines(lines), OffsetOfLine(lines, l) + c) == Position(l, c)
    decreases |lines|
  {
    if l == 0 {
      var more := if |lines| == 1 then "" else "\n" + JoinLines(lines[1..]);
      assert JoinLines(lines) == lines[0] + more;
      FirstLine(lines[0], more, c);
    } else {
      PositionInLines(lines[1..], l - 1, c);
      LaterLine(lines[0], JoinLines(lines[1..]), OffsetOfLine(lines[1..], l - 1) + c);
    }
  }

  // ----- get_position_index -----

  /** `content.find_first_of("\n", index)`, with `None` for `npos`. */
  method FindNewline(content: string, index: nat) returns (r: Option<nat>)
    requires index <= |content|
    ensures r.Some? ==> index <= r.value < |content| && content[r.value] == '\n'
    ensures forall k :: index <= k < (if r.Some? then r.value else |content|) ==> content[k] != '\n'
  {
    var i := index;
    while i < |content|
      invariant index <= i <= |content| && forall k :: index <= k < i ==> content[k] != '\n'
    {
      if content[i] == '\n' {
        return Some(i);
      }
      i := i + 1;
    }
    r := None;
  }

  method GetPositionIndex(content: string, position: Position) returns (r: Option<nat>)
    ensures r == IndexOf(content, position)
  {
    OffsetsAgree(content, position);
    var index: nat := 0;
    var it := 0;
    while it != position.line
      invariant it <= position.line && index <= |content|
      invariant Newlines(content, index) == it && LineStart(content, index) == index
    {
      var nextIndex := FindNewline(content, index);
      if nextIndex.None? {
        TooFewLines(content, index, position);
        return None;
      }
      NewlinesGrow(content, index, nextIndex.value);
      index := nextIndex.value + 1;
      it := it + 1;
    }
    var lineEnd := FindNewline(content, index);
    var lineEndIndex := if lineEnd.Some? then lineEnd.value else |content|;
    if index + position.character < lineEndIndex {
      var k := index + position.character;
      NewlinesGrow(content, index, k);
      SameLine(content, index, k);
      assert IsOffset(content, position, k);
      return Some(k);
    }
    LineTooShort(content, index, lineEndIndex, position);
    r := None;
  }

  lemma TooFewLines(text: string, index: nat, p: Position)
    requires index <= |text| && Newlines(text, index) < p.line
    requires forall k :: index <= k < |text| ==> text[k] != '\n'
    ensures forall k :: !IsOffset(text, p, k)
  {
    NewlinesGrow(text, index, |text|);
    forall k: nat | k < |text| ensures Newlines(text, k) < p.line {
      NewlinesGrow(text, k, |text|);
    }
  }

  lemma LineTooShort(text: string, index: nat, end: nat, p: Position)
    requires index <= end <= |text| && Newlines(text, index) == p.line && LineStart(text, index) == index
    requires forall k :: index <= k < end ==> text[k] != '\n'
    requires end == |text| || text[end] == '\n'
    requires index + p.character >= end
    ensures forall k :: !IsOffset(text, p, k)
  {
    forall k: nat | IsOffset(text, p, k) ensures false {
      if k < index {
        PositionsAreOrdered(text, k, index);
      } else {
        NewlinesGrow(text, index, k);
        SameLine(text, index, k);
      }
    }
  }

  // ----- change_source_code -----

  datatype Range = Range(start: Position, end: Position)

  /** TextDocumentContentChangeEvent. */
  datatype Change = Change(range: Option<Range>, rangeLength: Option<nat>, text: string)

  /** The replaced span of a ranged change, if the code accepts it on this text. */
  ghost function Span(text: string, c: Change): (r: Option<(nat, nat)>)
    requires c.range.Some?
    ensures r.Some? ==> r.value.0 <= r.value.1 < |text|
  {
    var start, end := IndexOf(text, c.range.value.start), IndexOf(text, c.range.value.end);
    if start.Some? && end.Some? && start.value <= end.value
       && (c.rangeLength.None? || c.rangeLength.value == end.value - start.value)
    then Some((start.value, end.value))
    else None
  }

  function Splice(text: string, start: nat, end: nat, ins: string): string
    requires start <= end <= |text|
  {
    text[..start] + ins + text[end..]
  }

  /** A change without a range replaces everything; one with an unacceptable range is ignored. */
  ghost function ApplyChange(text: string, c: Change): string {
    if c.range.None? then c.text
    else match Span(text, c)
      case Some((start, end)) => Splice(text, start, end, c.text)
      case None => text
  }

  ghost function ApplyAll(text: string, cs: seq<Change>): string
    decreases |cs|
  {
    if cs == [] then text else ApplyAll(ApplyChange(text, cs[0]), cs[1..])
  }

  lemma {:induction false} ApplyAllConcat(text: string, a: seq<Change>, b: seq<Change>)
    ensures ApplyAll(text, a + b) == ApplyAll(ApplyAll(text, a), b)
    decreases |a|
  {
    if a == [] {
      assert a + b == b;
    } else {
      assert (a + b)[1..] == a[1..] + b;
      ApplyAllConcat(ApplyChange(text, a[0]), a[1..], b);
    }
  }

  class P4File {
    var sourceCode: string
    var changed: bool

    constructor (text: string)
      ensures sourceCode == text && changed
    {
      sourceCode, changed := text, true;
    }

    method ChangeSourceCode(contentChanges: seq<Change>)
      modifies this
      ensures sourceCode == ApplyAll(old(sourceCode), contentChanges) && changed
    {
      changed := true;
      for i := 0 to |contentChanges|
        invariant changed
        invariant ApplyAll(sourceCode, contentChanges[i..]) == ApplyAll(old(sourceCode), contentChanges)
      {
        var it := contentChanges[i];
        ghost var before := sourceCode;
        if it.range.None? {
          sourceCode := it.text;
        } else {
          var start := GetPositionIndex(sourceCode, it.range.value.start);
          var end := GetPositionIndex(sourceCode, it.range.value.end);
          if start.Some? && end.Some? && start.value <= end.value
             && (it.rangeLength.None? || it.rangeLength.value == end.value - start.value) {
            var content := sourceCode[..start.value];
            content := content + it.text;
            content := content + sourceCode[end.value..];
            sourceCode := content;
          }
        }
        assert sourceCode == ApplyChange(before, it);
        assert contentChanges[i..][1..] == contentChanges[i + 1..];
      }
    }
  }

  // ----- what one change does -----

  /** The range that covers the offsets from `i` to `j`, both of which hold a character other than a
      newline. */
  ghost predicate Covers(text: string, range: Range, i: nat, j: nat) {
    && i <= j < |text| && text[i] != '\n' && text[j] != '\n'
    && range == Range(PositionAt(text, i), PositionAt(text, j))
  }

  /** A ranged change whose length, if given, fits replaces exactly the text it covers. */
  lemma RangeIsReplaced(text: string, range: Range, length: Option<nat>, ins: string, i: nat, j: nat)
    requires Covers(text, range, i, j) && (length.None? || length.value == j - i)
    ensures ApplyAll(text, [Change(Some(range), length, ins)]) == text[..i] + ins + text[j..]
  {
    IndexOfPositionAt(text, i);
    IndexOfPositionAt(text, j);
    OneChange(text, Change(Some(range), length, ins));
  }

  /** Every other ranged change is ignored: a position that is not there, an end before the start, or
      a length that does not fit. */
  lemma RangeIsIgnored(text: string, range: Range, length: Option<nat>, ins: string)
    requires forall i: nat, j: nat :: Covers(text, range, i, j) ==> length.Some? && length.value != j - i
    ensures ApplyAll(text, [Change(Some(range), length, ins)]) == text
  {
    var c := Change(Some(range), length, ins);
    OneChange(text, c);
    var start, end := IndexOf(text, range.start), IndexOf(text, range.end);
    if start.Some? && end.Some? && start.value <= end.value {
      assert Covers(text, range, start.value, end.value);
    }
  }

  lemma OneChange(text: string, c: Change)
    ensures ApplyAll(text, [c]) == ApplyChange(text, c)
  {
    assert [c][1..] == [];
    assert ApplyAll(ApplyChange(text, c), []) == ApplyChange(text, c);
  }

  /** A change without a range replaces the whole text, whatever it was and whatever came before; what
      follows acts on the replacement. */
  lemma LastReplacementCounts(text: string, before: seq<Change>, length: Option<nat>, t: string, after: seq<Change>)
    ensures ApplyAll(text, before + [Change(None, length, t)]) == t
    ensures ApplyAll(text, before + [Change(None, length, t)] + after) == ApplyAll(t, after)
  {
    var c := Change(None, length, t);
    ApplyAllConcat(text, before, [c]);
    OneChange(ApplyAll(text, before), c);
    ApplyAllConcat(text, before + [c], after);
  }

  // ----- undo -----

  lemma {:induction false} PrefixPositions(a: string, b: string, k: nat)
    requires k <= |a| && k <= |b| && a[..k] == b[..k]
    ensures PositionAt(a, k) == PositionAt(b, k)
  {
    if k > 0 {
      assert a[..k - 1] == a[..k][..k - 1] == b[..k - 1];
      assert a[k - 1] == a[..k][k - 1] == b[k - 1];
      PrefixPositions(a, b, k - 1);
    }
  }

  /** The change that takes an accepted change back: from the old start to the position that
      the end of the inserted text has in the new text, carrying the removed slice. */
  ghost function Inverse(text: string, c: Change): Change
    requires c.range.Some? && Span(text, c).Some?
  {
    var (start, end) := Span(text, c).value;
    Change(Some(Range(c.range.value.start, PositionAt(ApplyChange(text, c), start + |c.text|))),
           Some(|c.text|), text[start..end])
  }

  /** An accepted edit is undone by its inverse exactly when the inserted text does not begin
      with a newline. */
  lemma UndoRestores(text: string, c: Change)
    requires c.range.Some? && Span(text, c).Some?
    ensures ApplyChange(ApplyChange(text, c), Inverse(text, c)) == text <==> (c.text == "" || c.text[0] != '\n')
  {
    var (start, end) := Span(text, c).value;
    var new', inv := ApplyChange(text, c), Inverse(text, c);
    assert new'[..start] == text[..start];
    PrefixPositions(text, new', start);
    IndexOfPositionAt(new', start);
    var end' := start + |c.text|;
    assert new'[end'] == text[end] && new'[end'..] == text[end..];
    IndexOfPositionAt(new', end');
    assert new'[start] == if c.text == "" then text[end] else c.text[0];
    if c.text == "" || c.text[0] != '\n' {
      assert Span(new', inv) == Some((start, end'));
      assert text == text[..start] + text[start..end] + text[end..];
    } else {
      assert Span(new', inv) == None;
      assert text[start] != '\n';
    }
  }

  // ----- batches -----

  datatype Edit = Edit(start: nat, end: nat, text: string)

  /** Simultaneous replacement of disjoint spans, given from the highest to the lowest. */
  function ReplaceAll(text: string, edits: seq<Edit>): string
    requires Descending(edits, |text|)
    decreases |edits|
  {
    if edits == [] then text
    else ReplaceAll(text[..edits[0].start], edits[1..]) + edits[0].text + text[edits[0].end..]
  }

  /** No span reaches into the next-higher one, the highest not beyond `limit`; spans may
      touch. */
  predicate Descending(edits: seq<Edit>, limit: nat)
    decreases |edits|
  {
    edits == [] ||
    (edits[0].start <= edits[0].end <= limit && Descending(edits[1..], edits[0].start))
  }

  /** Like `Descending`, with at least one character left between two spans. */
  predicate Apart(edits: seq<Edit>, limit: nat)
    decreases |edits|
  {
    edits == [] ||
    (edits[0].start <= edits[0].end < limit && Apart(edits[1..], edits[0].start))
  }

  /** The changes name exactly these spans of the original text. */
  ghost predicate Names(text: string, cs: seq<Change>, edits: seq<Edit>) {
    && |cs| == |edits|
    && forall i :: 0 <= i < |cs| ==>
         cs[i].range.Some? && cs[i].text == edits[i].text && Span(text, cs[i]) == Some((edits[i].start, edits[i].end))
  }

  /** The edits of a batch that take effect. `barrier` is the offset at which an earlier edit
      has left a newline: it is no longer a position, so an edit that ends there is ignored. */
  function Effective(edits: seq<Edit>, barrier: Option<nat>): seq<Edit>
    decreases |edits|
  {
    if edits == [] then []
    else if barrier == Some(edits[0].end) then Effective(edits[1..], barrier)
    else [edits[0]] + Effective(edits[1..], Barrier(edits[0]))
  }

  function Barrier(e: Edit): Option<nat> {
    if e.text != "" && e.text[0] == '\n' then Some(e.start) else None
  }

  lemma {:induction false} EffectiveDescends(edits: seq<Edit>, barrier: Option<nat>, limit: nat)
    requires Descending(edits, limit)
    ensures Descending(Effective(edits, barrier), limit)
    decreases |edits|
  {
    if edits != [] {
      if barrier == Some(edits[0].end) {
        EffectiveDescends(edits[1..], barrier, edits[0].start);
        DescendingBelow(Effective(edits[1..], barrier), edits[0].start, limit);
      } else {
        EffectiveDescends(edits[1..], Barrier(edits[0]), edits[0].start);
      }
    }
  }

  lemma DescendingBelow(edits: seq<Edit>, low: nat, limit: nat)
    requires Descending(edits, low) && low <= limit
    ensures Descending(edits, limit)
  {
  }

  /** What replacement does above all spans. */
  lemma ReplaceAbove(text: string, low: nat, m: nat, edits: seq<Edit>)
    requires low <= m <= |text| && Descending(edits, low)
    ensures Descending(edits, m) && ReplaceAll(text[..m], edits) == ReplaceAll(text[..low], edits) + text[low..m]
  {
    if edits != [] {
      var e := edits[0];
      assert text[..m][..e.start] == text[..e.start] == text[..low][..e.start];
      assert text[..m][e.end..] == text[..low][e.end..] + text[low..m];
    }
  }

  lemma SamePositions(text: string, u: string, m: nat, c: Change)
    requires m <= |text| && m <= |u| && u[..m] == text[..m]
    requires c.range.Some? && Span(text, c).Some? && Span(text, c).value.1 <= m
    ensures PositionAt(u, Span(text, c).value.0) == c.range.value.start
    ensures PositionAt(u, Span(text, c).value.1) == c.range.value.end
  {
    var (start, end) := Span(text, c).value;
    assert u[..start] == u[..m][..start] == text[..start];
    assert u[..end] == u[..m][..end] == text[..end];
    PrefixPositions(text, u, start);
    PrefixPositions(text, u, end);
  }

  /** Where the text below `m` is still the original one, a span that ends at or below `m`
      stands as long as its end does not hold a newline now. */
  lemma SpanSurvives(text: string, u: string, m: nat, c: Change)
    requires m <= |text| && m <= |u| && u[..m] == text[..m]
    requires c.range.Some? && Span(text, c).Some? && Span(text, c).value.1 <= m && Span(text, c).value.1 < |u|
    ensures Span(u, c) == if u[Span(text, c).value.1] == '\n' then None else Span(text, c)
  {
    var (start, end) := Span(text, c).value;
    SamePositions(text, u, m, c);
    IndexOfPositionAt(u, end);
    IndexOfPositionAt(u, start);
    assert start < m ==> u[start] == u[..m][start] == text[start];
  }

  /** `barrier` tells whether offset `m` of `u`, the lowest one that was changed, holds a
      newline. */
  ghost predicate BarrierAt(u: string, m: nat, barrier: Option<nat>, edits: seq<Edit>) {
    && (barrier.Some? ==> barrier.value >= m)
    && (edits != [] ==> edits[0].end < |u|)
    && (edits != [] && edits[0].end == m ==> (u[m] == '\n' <==> barrier == Some(m)))
  }

  lemma {:induction false} SequentialIsEffectiveBelow(text: string, u: string, m: nat, barrier: Option<nat>,
      cs: seq<Change>, edits: seq<Edit>)
    requires m <= |text| && m <= |u| && u[..m] == text[..m]
    requires Names(text, cs, edits) && Descending(edits, m) && BarrierAt(u, m, barrier, edits)
    ensures Descending(Effective(edits, barrier), m)
    ensures ApplyAll(u, cs) == ReplaceAll(text[..m], Effective(edits, barrier)) + u[m..]
    decreases |cs|
  {
    hide Span, ApplyChange, ApplyAll, IsOffset, Names, PositionAt, ReplaceAll, Effective, Barrier;
    EffectiveDescends(edits, barrier, m);
    SameCount(text, cs, edits);
    if cs == [] {
      ReplaceNone(text[..m]);
      NothingToDo(u, barrier);
      assert u == u[..m] + u[m..];
    } else {
      var e, rest := edits[0], edits[1..];
      SeamsBelow(text, cs, edits);
      FirstApplied(text, u, m, barrier, cs, edits);
      assert u[..e.start] == u[..m][..e.start] == text[..e.start];
      ApplyFirst(u, cs);
      EffectiveFirst(edits, barrier);
      if barrier == Some(e.end) {
        BarrierBelow(text, u, m, e);
        SequentialIsEffectiveBelow(text, u, e.start, barrier, cs[1..], rest);
        ReplaceAbove(text, e.start, m, Effective(rest, barrier));
        assert u[e.start..] == u[..m][e.start..] + u[m..] == text[e.start..m] + u[m..];
      } else {
        var u' := Splice(u, e.start, e.end, e.text);
        BarrierOfEdit(text, u, m, e);
        assert u'[..e.start] == u[..e.start];
        SequentialIsEffectiveBelow(text, u', e.start, Barrier(e), cs[1..], rest);
        Reassemble(text, u, m, e, Effective(rest, Barrier(e)));
      }
    }
  }

  lemma NothingToDo(u: string, barrier: Option<nat>)
    ensures ApplyAll(u, []) == u && Effective([], barrier) == []
  {
  }

  lemma ApplyFirst(u: string, cs: seq<Change>)
    requires cs != []
    ensures ApplyAll(u, cs) == ApplyAll(ApplyChange(u, cs[0]), cs[1..])
  {
  }

  lemma EffectiveFirst(edits: seq<Edit>, barrier: Option<nat>)
    requires edits != []
    ensures var e := edits[0];
      Effective(edits, barrier) == if barrier == Some(e.end) then Effective(edits[1..], barrier)
                                   else [e] + Effective(edits[1..], Barrier(e))
  {
  }

  lemma SameCount(text: string, cs: seq<Change>, edits: seq<Edit>)
    requires Names(text, cs, edits)
    ensures |cs| == |edits|
  {
  }

  lemma ReplaceNone(text: string)
    ensures ReplaceAll(text, []) == text
  {
  }

  /** The first change of a batch: ignored behind a barrier, spliced in otherwise. */
  lemma FirstApplied(text: string, u: string, m: nat, barrier: Option<nat>, cs: seq<Change>, edits: seq<Edit>)
    requires m <= |text| && m <= |u| && u[..m] == text[..m] && cs != [] && edits != []
    requires Names(text, cs, edits) && Descending(edits, m) && BarrierAt(u, m, barrier, edits)
    ensures var e := edits[0];
      && ApplyChange(u, cs[0]) == (if barrier == Some(e.end) then u else Splice(u, e.start, e.end, e.text))
      && (barrier == Some(e.end) <==> u[e.end] == '\n')
  {
    var e := edits[0];
    assert Span(text, cs[0]) == Some((e.start, e.end));
    SpanSurvives(text, u, m, cs[0]);
    assert e.end < m ==> u[e.end] == u[..m][e.end] == text[e.end];
  }

  lemma BarrierBelow(text: string, u: string, m: nat, e: Edit)
    requires m <= |text| && m < |u| && u[..m] == text[..m]
    requires e.start <= e.end == m && e.start < |text| && text[e.start] != '\n' && u[m] == '\n'
    ensures u[e.start] == '\n' <==> e.start == m
  {
    assert e.start < m ==> u[e.start] == u[..m][e.start] == text[e.start];
  }

  lemma BarrierOfEdit(text: string, u: string, m: nat, e: Edit)
    requires m <= |text| && m <= |u| && u[..m] == text[..m]
    requires e.start <= e.end <= m && e.end < |u| && u[e.end] != '\n'
    ensures e.start < |Splice(u, e.start, e.end, e.text)|
    ensures Splice(u, e.start, e.end, e.text)[e.start] == '\n' <==> Barrier(e) == Some(e.start)
    ensures Barrier(e).Some? ==> Barrier(e).value == e.start
  {
  }

  /** The second span of a batch lies below the first, and its start held a character. */
  lemma SeamsBelow(text: string, cs: seq<Change>, edits: seq<Edit>)
    requires Names(text, cs, edits) && edits != []
    ensures edits[0].start < |text| && text[edits[0].start] != '\n' && text[edits[0].end] != '\n'
    ensures Names(text, cs[1..], edits[1..])
  {
  }

  lemma Reassemble(text: string, u: string, m: nat, e: Edit, lower: seq<Edit>)
    requires m <= |text| && m <= |u| && u[..m] == text[..m]
    requires e.start <= e.end <= m && Descending(lower, e.start) && Descending([e] + lower, m)
    ensures ReplaceAll(text[..e.start], lower) + Splice(u, e.start, e.end, e.text)[e.start..]
      == ReplaceAll(text[..m], [e] + lower) + u[m..]
  {
    assert ([e] + lower)[1..] == lower;
    ReplaceFirst(text[..m], [e] + lower);
    hide ReplaceAll, Descending;
    assert text[..m][..e.start] == text[..e.start];
    SpliceTail(u, e, m);
    assert u[..m][e.end..] == text[..m][e.end..];
    var low := ReplaceAll(text[..e.start], lower);
    assert low + (e.text + u[..m][e.end..] + u[m..]) == (low + e.text + text[..m][e.end..]) + u[m..];
  }

  lemma SpliceTail(u: string, e: Edit, m: nat)
    requires e.start <= e.end <= m <= |u|
    ensures Splice(u, e.start, e.end, e.text)[e.start..] == e.text + u[..m][e.end..] + u[m..]
  {
    assert u[e.end..] == u[..m][e.end..] + u[m..];
  }

  /** A batch in descending order replaces, all at once, those of its spans of the original
      text that do not end where a higher edit has just put a newline. */
  lemma SequentialIsEffective(text: string, cs: seq<Change>, edits: seq<Edit>)
    requires Names(text, cs, edits) && Descending(edits, |text|)
    ensures Descending(Effective(edits, None), |text|)
    ensures ApplyAll(text, cs) == ReplaceAll(text, Effective(edits, None))
  {
    if edits != [] {
      assert Span(text, cs[0]) == Some((edits[0].start, edits[0].end));
    }
    SequentialIsEffectiveBelow(text, text, |text|, None, cs, edits);
    assert text[..|text|] == text;
  }

  /** Two spans touch and the text of the higher one begins with a newline. */
  predicate Clashes(edits: seq<Edit>, i: nat)
    requires i < |edits| - 1
  {
    edits[i + 1].end == edits[i].start && Barrier(edits[i]).Some?
  }

  predicate NoClash(edits: seq<Edit>) {
    forall i :: 0 <= i < |edits| - 1 ==> !Clashes(edits, i)
  }

  /** Nothing is ignored exactly when no edit touches a higher one that begins with a newline. */
  lemma {:induction false} AllEffective(edits: seq<Edit>, barrier: Option<nat>)
    ensures Effective(edits, barrier) == edits <==>
      (edits != [] ==> barrier != Some(edits[0].end)) && NoClash(edits)
    ensures |Effective(edits, barrier)| <= |edits|
    decreases |edits|
  {
    if edits != [] {
      var rest, b := edits[1..], Barrier(edits[0]);
      if barrier == Some(edits[0].end) {
        AllEffective(rest, barrier);
      } else {
        AllEffective(rest, b);
        assert edits == [edits[0]] + rest;
        assert ([edits[0]] + Effective(rest, b))[1..] == Effective(rest, b);
        assert rest != [] ==> (Clashes(edits, 0) <==> b == Some(rest[0].end));
        forall i | 0 <= i < |rest| - 1 ensures Clashes(rest, i) == Clashes(edits, i + 1) {
        }
        if NoClash(edits) {
          forall i | 0 <= i < |rest| - 1 ensures !Clashes(rest, i) {
            assert !Clashes(edits, i + 1);
          }
        }
        if NoClash(rest) && (rest != [] ==> !Clashes(edits, 0)) {
          forall i | 0 <= i < |edits| - 1 ensures !Clashes(edits, i) {
            if i > 0 {
              assert !Clashes(rest, i - 1);
            }
          }
        }
      }
    }
  }

  lemma {:induction false} ApartNeverClashes(edits: seq<Edit>, limit: nat)
    requires Apart(edits, limit)
    ensures Descending(edits, limit) && NoClash(edits)
    decreases |edits|
  {
    if edits != [] {
      var rest := edits[1..];
      ApartNeverClashes(rest, edits[0].start);
      forall i | 0 <= i < |edits| - 1 ensures !Clashes(edits, i) {
        assert i == 0 ==> edits[1] == rest[0];
        if i > 0 {
          assert !Clashes(rest, i - 1);
        }
      }
    }
  }

  /** A batch in descending order without clashes, in particular one with strict gaps, has the
      effect of replacing all its spans of the original text at once. */
  lemma SequentialIsSimultaneous(text: string, cs: seq<Change>, edits: seq<Edit>)
    requires Names(text, cs, edits)
    requires Apart(edits, |text|) || (Descending(edits, |text|) && NoClash(edits))
    ensures Descending(edits, |text|) && ApplyAll(text, cs) == ReplaceAll(text, edits)
  {
    if Apart(edits, |text|) {
      ApartNeverClashes(edits, |text|);
    }
    AllEffective(edits, None);
    SequentialIsEffective(text, cs, edits);
  }

  /** Touching spans with a newline between them: of the text `ab`, `b` becomes a line break
      and `a` becomes `x`, but the second change is lost. */
  lemma ClashLosesAnEdit()
    ensures var cs := [Change(Some(Range(Position(0, 1), Position(0, 1))), None, "\n"),
                       Change(Some(Range(Position(0, 0), Position(0, 1))), None, "x")];
      var edits := [Edit(1, 1, "\n"), Edit(0, 1, "x")];
      && Names("ab", cs, edits) && Descending(edits, 2)
      && ReplaceAll("ab", edits) == "x\nb" && ApplyAll("ab", cs) == "a\nb"
  {
    var cs := [Change(Some(Range(Position(0, 1), Position(0, 1))), None, "\n"),
               Change(Some(Range(Position(0, 0), Position(0, 1))), None, "x")];
    hide Span, ApplyAll, IsOffset, ReplaceAll, Effective, Descending, Names;
    SpanOfTwo(cs[0], 1, 1);
    SpanOfTwo(cs[1], 0, 1);
    TwoNames("ab", cs[0], cs[1], Edit(1, 1, "\n"), Edit(0, 1, "x"));
    ClashTexts(Edit(1, 1, "\n"), Edit(0, 1, "x"));
    SequentialIsEffective("ab", cs, [Edit(1, 1, "\n"), Edit(0, 1, "x")]);
  }

  lemma TwoNames(text: string, c: Change, d: Change, high: Edit, low: Edit)
    requires c.range.Some? && c.text == high.text && Span(text, c) == Some((high.start, high.end))
    requires d.range.Some? && d.text == low.text && Span(text, d) == Some((low.start, low.end))
    ensures Names(text, [c, d], [high, low])
  {
    hide Span;
  }

  lemma ClashTexts(high: Edit, low: Edit)
    requires high == Edit(1, 1, "\n") && low == Edit(0, 1, "x")
    ensures Descending([high, low], 2) && ReplaceAll("ab", [high, low]) == "x\nb"
    ensures Descending(Effective([high, low], None), 2) && ReplaceAll("ab", Effective([high, low], None)) == "a\nb"
  {
    var edits := [high, low];
    assert edits[1..] == [low] && [low][1..] == [] && Descending([low], 1);
    hide ReplaceAll, Effective;
    EffectiveFirst(edits, None);
    EffectiveFirst([low], Some(1));
    NothingToDo("", Some(1));
    assert Effective(edits, None) == [high];
    ReplaceOne("ab", high);
    ReplaceFirst("ab", edits);
    assert "ab"[..1] == "a" && "ab"[1..] == "b" && "a"[..0] == "" && "a"[1..] == "";
    ReplaceOne("a", low);
  }

  lemma ReplaceOne(text: string, e: Edit)
    requires e.start <= e.end <= |text|
    ensures ReplaceAll(text, [e]) == text[..e.start] + e.text + text[e.end..]
  {
    ReplaceFirst(text, [e]);
    assert [e][1..] == [];
    ReplaceNone(text[..e.start]);
  }

  lemma ReplaceFirst(text: string, edits: seq<Edit>)
    requires edits != [] && Descending(edits, |text|)
    ensures ReplaceAll(text, edits) == ReplaceAll(text[..edits[0].start], edits[1..]) + edits[0].text + text[edits[0].end..]
  {
  }

  lemma SpanOfTwo(c: Change, i: nat, j: nat)
    requires i <= j < 2 && c.range == Some(Range(Position(0, i), Position(0, j))) && c.rangeLength == None
    ensures Span("ab", c) == Some((i, j))
  {
    assert PositionAt("ab", 0) == Position(0, 0) && PositionAt("ab", 1) == Position(0, 1);
    IndexOfPositionAt("ab", i);
    IndexOfPositionAt("ab", j);
  }

  // ----- the open documents of the server -----

  datatype Message =
    | DidOpen(path: string, text: string)
    | DidChange(path: string, changes: seq<Change>)
    | DidClose(path: string)

  /** `emplace` keeps the entry that is already there; closing a document does nothing. */
  ghost function StepTexts(texts: map<string, string>, m: Message): map<string, string> {
    match m
    case DidOpen(path, text) => if path in texts then texts else texts[path := text]
    case DidChange(path, cs) => if path in texts then texts[path := ApplyAll(texts[path], cs)] else texts
    case DidClose(_) => texts
  }

  ghost function RunTexts(texts: map<string, string>, ms: seq<Message>): map<string, string> {
    if ms == [] then texts else StepTexts(RunTexts(texts, ms[..|ms| - 1]), ms[|ms| - 1])
  }

  class DocumentStore {
    var files: map<string, P4File>

    ghost predicate Valid()
      reads this
    {
      forall p, q :: p in files && q in files && files[p] == files[q] ==> p == q
    }

    ghost function Texts(): map<string, string>
      reads this, files.Values
    {
      map p | p in files :: files[p].sourceCode
    }

    constructor ()
      ensures Valid() && Texts() == map[]
    {
      files := map[];
    }

    method Handle(m: Message)
      requires Valid()
      modifies this, files.Values
      ensures Valid() && Texts() == StepTexts(old(Texts()), m)
      ensures fresh(files.Values - old(files.Values))
    {
      match m
      case DidOpen(path, text) =>
        if path !in files {
          var file := new P4File(text);
          files := files[path := file];
          assert files[path] == file;
        }
      case DidChange(path, changes) =>
        if path in files {
          files[path].ChangeSourceCode(changes);
        }
      case DidClose(_) =>
    }
  }

  // ----- what the stored text is, after any run -----

  ghost predicate Opened(path: string, ms: seq<Message>) {
    exists i :: 0 <= i < |ms| && ms[i].DidOpen? && ms[i].path == path
  }

  ghost function FirstText(path: string, ms: seq<Message>): string
    requires Opened(path, ms)
  {
    if ms[0].DidOpen? && ms[0].path == path then ms[0].text else FirstText(path, ms[1..])
  }

  /** All changes that were sent for the path after it was first opened, in order. */
  ghost function ChangesSince(path: string, ms: seq<Message>): seq<Change>
    requires Opened(path, ms)
  {
    if ms[0].DidOpen? && ms[0].path == path then ChangesOf(path, ms[1..]) else ChangesSince(path, ms[1..])
  }

  ghost function ChangesOf(path: string, ms: seq<Message>): seq<Change> {
    if ms == [] then []
    else (if ms[0].DidChange? && ms[0].path == path then ms[0].changes else []) + ChangesOf(path, ms[1..])
  }

  lemma {:induction false} RunSplits(texts: map<string, string>, a: seq<Message>, b: seq<Message>)
    ensures RunTexts(texts, a + b) == RunTexts(RunTexts(texts, a), b)
  {
    if b == [] {
      assert a + b == a;
    } else {
      assert (a + b)[..|a + b| - 1] == a + b[..|b| - 1];
      RunSplits(texts, a, b[..|b| - 1]);
    }
  }

  lemma {:induction false} RunOnOpenPath(texts: map<string, string>, path: string, ms: seq<Message>)
    requires path in texts
    ensures path in RunTexts(texts, ms) && RunTexts(texts, ms)[path] == ApplyAll(texts[path], ChangesOf(path, ms))
    decreases |ms|
  {
    if ms != [] {
      assert ms == ms[..1] + ms[1..];
      var t := StepTexts(texts, ms[0]);
      assert ms[..1][..0] == [];
      assert RunTexts(texts, ms[..1]) == t;
      RunSplits(texts, ms[..1], ms[1..]);
      RunOnOpenPath(t, path, ms[1..]);
      var now := if ms[0].DidChange? && ms[0].path == path then ms[0].changes else [];
      ApplyAllConcat(texts[path], now, ChangesOf(path, ms[1..]));
    }
  }

  /** Over any run, a path has a text exactly when it was opened, and the text is the first
      opened one with every later change applied; reopening and closing change nothing. */
  lemma {:induction false} StoredTextIsFoldOfEdits(texts: map<string, string>, path: string, ms: seq<Message>)
    requires path !in texts
    ensures path in RunTexts(texts, ms) <==> Opened(path, ms)
    ensures Opened(path, ms) ==> RunTexts(texts, ms)[path] == ApplyAll(FirstText(path, ms), ChangesSince(path, ms))
    decreases |ms|
  {
    if ms != [] {
      assert ms == ms[..1] + ms[1..];
      var t := StepTexts(texts, ms[0]);
      assert ms[..1][..0] == [];
      assert RunTexts(texts, ms[..1]) == t;
      RunSplits(texts, ms[..1], ms[1..]);
      if ms[0].DidOpen? && ms[0].path == path {
        RunOnOpenPath(t, path, ms[1..]);
      } else {
        StoredTextIsFoldOfEdits(t, path, ms[1..]);
        OpenedLater(path, ms);
      }
    }
  }

  /** A full replacement sent for an open path decides its text: what was stored, and every change
      before, no longer matters, and only what follows is applied to it. */
  lemma ReplacementDecides(texts: map<string, string>, path: string, ms: seq<Message>,
      before: seq<Change>, length: Option<nat>, t: string, after: seq<Change>, later: seq<Message>)
    requires path in RunTexts(texts, ms)
    ensures var message := DidChange(path, before + [Change(None, length, t)] + after);
      var all := RunTexts(texts, ms + ([message] + later));
      path in all && all[path] == ApplyAll(t, after + ChangesOf(path, later))
  {
    var cs := before + [Change(None, length, t)] + after;
    var message := DidChange(path, cs);
    RunSplits(texts, ms, [message] + later);
    RunOnOpenPath(RunTexts(texts, ms), path, [message] + later);
    assert ([message] + later)[1..] == later;
    assert ChangesOf(path, [message] + later) == cs + ChangesOf(path, later);
    assert cs + ChangesOf(path, later) == before + [Change(None, length, t)] + (after + ChangesOf(path, later));
    hide ApplyAll;
    LastReplacementCounts(RunTexts(texts, ms)[path], before, length, t, after + ChangesOf(path, later));
  }

  lemma OpenedLater(path: string, ms: seq<Message>)
    requires ms != [] && !(ms[0].DidOpen? && ms[0].path == path)
    ensures Opened(path, ms) <==> Opened(path, ms[1..])
  {
  }
}
