/**
 * The ranges the reconciler re-reads: the tests whether a resolved
 * position is flush with the start or end of an ancestor, the range
 * around the selection when no DOM mutation was recorded, the range
 * spanning the recorded mutations, and the widening step taken when the
 * DOM between two positions cannot be parsed.
 */
module Ranges {
  import opened Wrappers
  import opened Document

  /** A span of document positions. */
  datatype Range = Range(from: int, to: int)

  /** What `isAtEnd($pos, depth)` answers: from `depth` down, every
      ancestor's child on the path is its last child, and the position is
      at the end of its parent. */
  predicate AtEnd(p: ResolvedPos, depth: nat)
    requires |p.path| >= 1
  {
    (forall i :: depth <= i < p.Depth() ==> p.IndexAt(i) + 1 >= |p.NodeAt(i).Children()|) &&
    p.parentOffset == ContentSize(p.Parent().Children())
  }

  /** What `isAtStart($pos, depth)` answers as written: the loop over the
      depths from `depth` down tests the index at depth 0 every time, so it
      only matters whether that loop runs at all. */
  predicate AtStartAsWritten(p: ResolvedPos, depth: nat)
    requires |p.path| >= 1
  {
    (depth < p.Depth() ==> p.IndexAt(0) == 0) && p.parentOffset == 0
  }

  /** The start test the loop evidently means, mirroring `AtEnd`: from
      `depth` down, every child on the path is its parent's first child. */
  predicate AtStart(p: ResolvedPos, depth: nat)
    requires |p.path| >= 1
  {
    (forall i :: depth <= i < p.Depth() ==> p.IndexAt(i) == 0) && p.parentOffset == 0
  }

  /** `isAtEnd`: an early-exit scan over the depths. */
  method IsAtEnd(p: ResolvedPos, depth: nat) returns (b: bool)
    requires |p.path| >= 1
    ensures b <==> AtEnd(p, depth)
  {
    var i := depth;
    while i < p.Depth()
      invariant depth <= i || p.Depth() <= depth
      invariant forall k :: depth <= k < i && k < p.Depth() ==> p.IndexAt(k) + 1 >= |p.NodeAt(k).Children()|
      decreases p.Depth() - i
    {
      if p.IndexAt(i) + 1 < |p.NodeAt(i).Children()| {
        return false;
      }
      i := i + 1;
    }
    b := p.parentOffset == ContentSize(p.Parent().Children());
  }

  /** `isAtStart` as written: the scan tests `index(0)` at every depth. */
  method IsAtStart(p: ResolvedPos, depth: nat) returns (b: bool)
    requires |p.path| >= 1
    ensures b <==> AtStartAsWritten(p, depth)
  {
    var i := depth;
    while i < p.Depth()
      invariant i == depth || (depth < i <= p.Depth() && p.IndexAt(0) == 0)
      decreases p.Depth() - i
    {
      if p.IndexAt(0) > 0 {
        return false;
      }
      i := i + 1;
    }
    b := p.parentOffset == 0;
  }

  /** The start test with the index taken at each scanned depth. */
  method IsAtStartIntended(p: ResolvedPos, depth: nat) returns (b: bool)
    requires |p.path| >= 1
    ensures b <==> AtStart(p, depth)
  {
    var i := depth;
    while i < p.Depth()
      invariant depth <= i || p.Depth() <= depth
      invariant forall k :: depth <= k < i && k < p.Depth() ==> p.IndexAt(k) == 0
      decreases p.Depth() - i
    {
      if p.IndexAt(i) > 0 {
        return false;
      }
      i := i + 1;
    }
    b := p.parentOffset == 0;
  }

  /** A position is never closer to the end of an ancestor than the closing
      tokens of the ancestors in between, and `AtEnd` holds exactly when it
      is that close: leaving every ancestor below `depth` reaches the end of
      the ancestor at `depth`. */
  lemma {:induction false} AtEndIsFlush(p: ResolvedPos, depth: nat)
    requires WellFormed(p) && Valid(p.path[0].node) && depth <= p.Depth()
    ensures p.pos + (p.Depth() - depth) <= p.End(depth)
    ensures AtEnd(p, depth) <==> p.pos + (p.Depth() - depth) == p.End(depth)
    decreases p.Depth() - depth
  {
    if depth == p.Depth() {
      assert LastOk(p.path, 0, p.pos, p.parentOffset);
    } else {
      AtEndIsFlush(p, depth + 1);
      EndStep(p, depth);
      AtEndStep(p, depth);
    }
  }

  /** `AtEnd` from `depth` is `AtEnd` from `depth + 1` plus being in the last
      child at `depth`. */
  lemma AtEndStep(p: ResolvedPos, depth: nat)
    requires |p.path| >= 1 && depth < p.Depth()
    ensures AtEnd(p, depth) <==>
      AtEnd(p, depth + 1) && p.IndexAt(depth) + 1 >= |p.NodeAt(depth).Children()|
  {
    if AtEnd(p, depth + 1) && p.IndexAt(depth) + 1 >= |p.NodeAt(depth).Children()| {
      forall k | depth <= k < p.Depth() ensures p.IndexAt(k) + 1 >= |p.NodeAt(k).Children()| {
        if k > depth {
          assert depth + 1 <= k;
        }
      }
    }
  }

  /** The ancestor at `depth` ends at least one token after the one below
      it, and exactly one when the path is in its last child. */
  lemma EndStep(p: ResolvedPos, depth: nat)
    requires WellFormed(p) && Valid(p.path[0].node) && depth < p.Depth()
    ensures p.End(depth + 1) + 1 <= p.End(depth)
    ensures p.End(depth) == p.End(depth + 1) + 1 <==> p.IndexAt(depth) + 1 >= |p.NodeAt(depth).Children()|
  {
    LevelGaps(p, depth);
    PrefixGaps(p.NodeAt(depth).Children(), p.IndexAt(depth));
  }

  /** The mirror image for the intended start test. */
  lemma {:induction false} AtStartIsFlush(p: ResolvedPos, depth: nat)
    requires WellFormed(p) && Valid(p.path[0].node) && depth <= p.Depth()
    ensures p.Start(depth) + (p.Depth() - depth) <= p.pos
    ensures AtStart(p, depth) <==> p.Start(depth) + (p.Depth() - depth) == p.pos
    decreases p.Depth() - depth
  {
    if depth == p.Depth() {
      assert LastOk(p.path, 0, p.pos, p.parentOffset);
    } else {
      AtStartIsFlush(p, depth + 1);
      StartStep(p, depth);
      AtStartStep(p, depth);
    }
  }

  lemma AtStartStep(p: ResolvedPos, depth: nat)
    requires |p.path| >= 1 && depth < p.Depth()
    ensures AtStart(p, depth) <==> AtStart(p, depth + 1) && p.IndexAt(depth) == 0
  {
    if AtStart(p, depth + 1) && p.IndexAt(depth) == 0 {
      forall k | depth <= k < p.Depth() ensures p.IndexAt(k) == 0 {
        if k > depth {
          assert depth + 1 <= k;
        }
      }
    }
  }

  /** The ancestor at `depth + 1` starts at least one token after the one
      above it, and exactly one when the path is in its first child. */
  lemma StartStep(p: ResolvedPos, depth: nat)
    requires WellFormed(p) && Valid(p.path[0].node) && depth < p.Depth()
    ensures p.Start(depth) + 1 <= p.Start(depth + 1)
    ensures p.Start(depth + 1) == p.Start(depth) + 1 <==> p.IndexAt(depth) == 0
  {
    LevelGaps(p, depth);
    PrefixGaps(p.NodeAt(depth).Children(), p.IndexAt(depth));
  }

  /** The condition of the textblock branch of `rangeAroundSelection`:
      both ends share a textblock parent, the start is not at its beginning
      and the end is not at its end. */
  predicate InOneTextblock(f: ResolvedPos, t: ResolvedPos)
    requires |f.path| >= 1 && |t.path| >= 1
  {
    f.SameParent(t) && f.Parent().IsTextblock() && f.parentOffset != 0 &&
    t.parentOffset < ContentSize(t.Parent().Children())
  }

  function Max(a: int, b: int): int { if a < b then b else a }
  function Min(a: int, b: int): int { if a < b then a else b }

  /** The offsets of the textblock branch inside the parent's content: both
      are clamped to the content, the start moves back to the start of the
      child before it and the end forward to the end of the child after it. */
  function SnapOffsets(parent: Node, fromOff: int, toOff: int): (int, int)
    requires parent.Element? && Valid(parent)
    requires 0 <= fromOff <= ContentSize(parent.content) && 0 <= toOff
  {
    var size := ContentSize(parent.content);
    var startOff := Max(0, fromOff);
    var endOff := Min(size, toOff);
    var startOff := if startOff > 0 then ChildBefore(parent, startOff).1 else startOff;
    var endOff :=
      if endOff < size then
        var (index, offset) := FindIndex(parent.content, endOff);
        PrefixAll(parent.content);
        offset + NodeSize(parent.content[index])
      else endOff;
    (startOff, endOff)
  }

  /** Strictly inside the parent's content, the snapped start is the start
      of the child holding `fromOff` (or ending at it) and the snapped end
      the end of the child holding `toOff`. */
  lemma SnapOffsetsOnChildren(parent: Node, fromOff: int, toOff: int) returns (k1: nat, k2: nat)
    requires parent.Element? && Valid(parent)
    requires 0 < fromOff <= ContentSize(parent.content) && 0 <= toOff < ContentSize(parent.content)
    ensures var r := SnapOffsets(parent, fromOff, toOff); var c := parent.content;
      k1 < |c| && k2 < |c| && 0 <= r.0 && r.1 <= ContentSize(c) &&
      r.0 == ContentSize(c[..k1]) && r.0 < fromOff <= ContentSize(c[..k1]) + NodeSize(c[k1]) &&
      ContentSize(c[..k2]) <= toOff < ContentSize(c[..k2]) + NodeSize(c[k2]) == r.1
  {
    var c := parent.content;
    k1 := ChildBefore(parent, fromOff).0;
    var (ai, ao) := FindIndex(c, toOff);
    PrefixAll(c);
    PrefixStep(c, ai);
    PrefixMono(c, ai + 1, |c|);
    k2 := ai;
  }

  /** The textblock branch: the snapped offsets, placed at the start of the
      shared parent's content. */
  function TextblockRange(doc: Node, from: int, to: int): Range
    requires ValidDoc(doc) && 0 <= from <= DocSize(doc) && 0 <= to <= DocSize(doc)
    requires InOneTextblock(Resolve(doc, from), Resolve(doc, to))
  {
    var f, t := Resolve(doc, from), Resolve(doc, to);
    ResolveWellFormed(doc, from);
    ResolveWellFormed(doc, to);
    assert LastOk(f.path, 0, from, f.parentOffset) && LastOk(t.path, 0, to, t.parentOffset);
    PathValid(f.path, 0, from, f.parentOffset, f.Depth());
    var offs := SnapOffsets(f.Parent(), f.parentOffset, t.parentOffset);
    var nodeStart := f.Start(f.Depth());
    Range(nodeStart + offs.0, nodeStart + offs.1)
  }

  /** The textblock branch widens the selection to whole children of the
      shared textblock: the range starts at the start of the child the
      selection's start is in (or right after), ends at the end of the child
      its end is in (or right before), and stays inside the textblock. */
  lemma TextblockRangeSnaps(doc: Node, from: int, to: int)
    requires ValidDoc(doc) && 0 <= from <= DocSize(doc) && 0 <= to <= DocSize(doc)
    requires InOneTextblock(Resolve(doc, from), Resolve(doc, to))
    ensures var f := Resolve(doc, from); var r := TextblockRange(doc, from, to);
      var c := f.Parent().Children(); var s := f.Start(f.Depth());
      s <= r.from <= from && to <= r.to <= s + ContentSize(c) &&
      (exists k :: 0 <= k < |c| && r.from == s + ContentSize(c[..k]) && r.from < from <= s + ContentSize(c[..k + 1])) &&
      (exists k :: 0 <= k < |c| && s + ContentSize(c[..k]) <= to < s + ContentSize(c[..k + 1]) == r.to)
  {
    var f := Resolve(doc, from);
    var k1, k2 := TextblockRangeInParent(doc, from, to);
    var c := f.Parent().Children();
    var s := f.Start(f.Depth());
    PrefixStep(c, k1);
    PrefixStep(c, k2);
  }

  /** The same facts, with the two children named. */
  lemma TextblockRangeInParent(doc: Node, from: int, to: int) returns (k1: nat, k2: nat)
    requires ValidDoc(doc) && 0 <= from <= DocSize(doc) && 0 <= to <= DocSize(doc)
    requires InOneTextblock(Resolve(doc, from), Resolve(doc, to))
    ensures var f := Resolve(doc, from); var r := TextblockRange(doc, from, to);
      var c := f.Parent().Children(); var s := f.Start(f.Depth());
      k1 < |c| && k2 < |c| &&
      s <= r.from <= from && to <= r.to <= s + ContentSize(c) &&
      r.from == s + ContentSize(c[..k1]) && r.from < from <= s + ContentSize(c[..k1]) + NodeSize(c[k1]) &&
      s + ContentSize(c[..k2]) <= to < s + ContentSize(c[..k2]) + NodeSize(c[k2]) == r.to
  {
    var f, t := Resolve(doc, from), Resolve(doc, to);
    ResolveWellFormed(doc, from);
    ResolveWellFormed(doc, to);
    SameParentSound(doc, from, to);
    assert LastOk(f.path, 0, from, f.parentOffset) && LastOk(t.path, 0, to, t.parentOffset);
    PathValid(f.path, 0, from, f.parentOffset, f.Depth());
    k1, k2 := SnapOffsetsOnChildren(f.Parent(), f.parentOffset, t.parentOffset);
  }

  lemma TextblockRangeInDoc(doc: Node, from: int, to: int)
    requires ValidDoc(doc) && 0 <= from <= DocSize(doc) && 0 <= to <= DocSize(doc)
    requires InOneTextblock(Resolve(doc, from), Resolve(doc, to))
    ensures var r := TextblockRange(doc, from, to);
      0 <= r.from <= from && to <= r.to <= DocSize(doc)
  {
    var _, _ := TextblockRangeInParent(doc, from, to);
    var f := Resolve(doc, from);
    ResolveWellFormed(doc, from);
    Bounds(f, f.Depth());
  }

  /** The start test the depth scan of `rangeAroundSelection` applies:
      `isAtStart` as written, which is what the source runs, or the test it
      evidently means. */
  datatype StartTest = AsWritten | Intended

  /** The answer of the chosen start test. */
  predicate StartFlush(test: StartTest, p: ResolvedPos, depth: nat)
    requires |p.path| >= 1
  {
    if test.AsWritten? then AtStartAsWritten(p, depth) else AtStart(p, depth)
  }

  /** Whether the scan of `rangeAroundSelection` stops at depth `d`: the
      start test passes for the ancestor at `d + 1`, the end is flush with
      the end of its ancestor there, the two ends are in different children
      of the ancestor at `d`, or that ancestor is a textblock. */
  predicate StopsAt(f: ResolvedPos, t: ResolvedPos, d: nat, test: StartTest)
    requires d < |f.path| && d < |t.path|
  {
    StartFlush(test, f, d + 1) || AtEnd(t, d + 1) || f.IndexAt(d) != t.IndexAt(d) || t.NodeAt(d).IsTextblock()
  }

  /** The start of the range the scan returns at depth `d`: the position
      before the ancestor at `d + 1` (the position itself below the innermost
      level), moved back over the previous sibling when the start test
      passes for that ancestor. */
  function FromEdge(f: ResolvedPos, d: nat, test: StartTest): int
    requires WellFormed(f) && d < |f.path|
  {
    assert LevelOk(f.path, 0, d);
    var c, i := f.NodeAt(d).Children(), f.IndexAt(d);
    f.Before(d + 1) - (if StartFlush(test, f, d + 1) && i > 0 then NodeSize(c[i - 1]) else 0)
  }

  /** The end of that range, symmetrically. */
  function ToEdge(t: ResolvedPos, d: nat): int
    requires WellFormed(t) && d < |t.path|
  {
    var c, i := t.NodeAt(d).Children(), t.IndexAt(d);
    t.After(d + 1) + (if AtEnd(t, d + 1) && i + 1 < |c| then NodeSize(c[i + 1]) else 0)
  }

  /** The range the scan returns when it stops at depth `d`. */
  function RangeAtDepth(f: ResolvedPos, t: ResolvedPos, d: nat, test: StartTest): Range
    requires WellFormed(f) && WellFormed(t) && d < |f.path| && d < |t.path|
  {
    Range(FromEdge(f, d, test), ToEdge(t, d))
  }

  /** The depth scan, from depth `d` down to the shallower of the two
      positions; past that the source reads path entries that do not exist,
      and the model answers `None`. */
  function ScanFrom(f: ResolvedPos, t: ResolvedPos, d: nat, test: StartTest): Option<Range>
    requires WellFormed(f) && WellFormed(t)
    decreases |f.path| - d
  {
    if d >= |f.path| || d >= |t.path| then None
    else if StopsAt(f, t, d, test) then Some(RangeAtDepth(f, t, d, test))
    else ScanFrom(f, t, d + 1, test)
  }

  /** What `rangeAroundSelection` computes for a selection from `from` to
      `to`, with the scan's start test `test`. */
  function AroundSelection(doc: Node, from: int, to: int, test: StartTest): Option<Range>
    requires ValidDoc(doc) && 0 <= from <= DocSize(doc) && 0 <= to <= DocSize(doc)
  {
    var f, t := Resolve(doc, from), Resolve(doc, to);
    if InOneTextblock(f, t) then Some(TextblockRange(doc, from, to))
    else
      ResolveWellFormed(doc, from);
      ResolveWellFormed(doc, to);
      ScanFrom(f, t, 0, test)
  }

  /** On the start side, the range holds the ancestor at `d + 1` and grows
      past it exactly when the start test passes for that ancestor and a
      previous sibling exists; it then starts exactly at that sibling. */
  lemma FromSide(f: ResolvedPos, d: nat, test: StartTest)
    requires WellFormed(f) && Valid(f.path[0].node) && d <= f.Depth()
    ensures var c, i := f.NodeAt(d).Children(), f.IndexAt(d);
      var lo := FromEdge(f, d, test);
      f.Start(d) <= lo <= f.Before(d + 1) <= f.pos &&
      (lo < f.Before(d + 1) <==> StartFlush(test, f, d + 1) && i > 0) &&
      (lo < f.Before(d + 1) ==> 0 < i <= |c| && lo == f.Start(d) + ContentSize(c[..i - 1]))
  {
    if d < f.Depth() {
      FromSideInner(f, d, test);
    } else {
      FromSideInnermost(f, test);
    }
  }

  lemma FromSideInner(f: ResolvedPos, d: nat, test: StartTest)
    requires WellFormed(f) && Valid(f.path[0].node) && d < f.Depth()
    ensures var c, i := f.NodeAt(d).Children(), f.IndexAt(d);
      var lo := FromEdge(f, d, test);
      f.Start(d) <= lo <= f.Before(d + 1) <= f.pos &&
      (lo < f.Before(d + 1) <==> StartFlush(test, f, d + 1) && i > 0) &&
      (lo < f.Before(d + 1) ==> 0 < i <= |c| && lo == f.Start(d) + ContentSize(c[..i - 1]))
  {
    var c, i := f.NodeAt(d).Children(), f.IndexAt(d);
    ChildStart(f, d);
    if i > 0 {
      PrefixStep(c, i - 1);
    }
  }

  /** Below the innermost parent, the child on the path at `d` starts after
      the children before it, and before the position. */
  lemma ChildStart(f: ResolvedPos, d: nat)
    requires WellFormed(f) && Valid(f.path[0].node) && d < f.Depth()
    ensures var c, i := f.NodeAt(d).Children(), f.IndexAt(d);
      i <= |c| && (forall k :: 0 <= k < |c| ==> NodeSize(c[k]) > 0) &&
      f.Before(d + 1) == f.Start(d) + ContentSize(c[..i]) && f.Before(d + 1) <= f.pos
  {
    assert LevelOk(f.path, 0, d);
    PathValid(f.path, 0, f.pos, f.parentOffset, d);
    ChildrenPositive(f.NodeAt(d));
    BeforeAfter(f, d + 1);
  }

  lemma FromSideInnermost(f: ResolvedPos, test: StartTest)
    requires WellFormed(f) && Valid(f.path[0].node)
    ensures var d := f.Depth(); var i := f.IndexAt(d);
      f.Start(d) <= FromEdge(f, d, test) == f.Before(d + 1) == f.pos && !(StartFlush(test, f, d + 1) && i > 0)
  {
    var d := f.Depth();
    var c, i := f.NodeAt(d).Children(), f.IndexAt(d);
    assert LastOk(f.path, 0, f.pos, f.parentOffset) && LevelOk(f.path, 0, d);
    if i > 0 {
      PathValid(f.path, 0, f.pos, f.parentOffset, d);
      ChildrenPositive(f.NodeAt(d));
      PrefixStep(c, 0);
      PrefixMono(c, 1, i);
    }
  }

  /** On the end side, symmetrically: the range grows past the ancestor at
      `d + 1` exactly when the position is flush with its end and a next
      sibling exists, and then ends exactly at that sibling's end. */
  lemma ToSide(t: ResolvedPos, d: nat)
    requires WellFormed(t) && Valid(t.path[0].node) && d <= t.Depth()
    ensures var c, i := t.NodeAt(d).Children(), t.IndexAt(d);
      var hi := ToEdge(t, d);
      t.pos <= t.After(d + 1) <= hi <= t.End(d) &&
      (t.After(d + 1) < hi <==> AtEnd(t, d + 1) && i + 1 < |c|) &&
      (t.After(d + 1) < hi ==> i + 2 <= |c| && hi == t.Start(d) + ContentSize(c[..i + 2]))
  {
    if d < t.Depth() {
      ToSideInner(t, d);
    } else {
      ToSideInnermost(t);
    }
  }

  lemma ToSideInner(t: ResolvedPos, d: nat)
    requires WellFormed(t) && Valid(t.path[0].node) && d < t.Depth()
    ensures var c, i := t.NodeAt(d).Children(), t.IndexAt(d);
      var hi := ToEdge(t, d);
      t.pos <= t.After(d + 1) <= hi <= t.End(d) &&
      (t.After(d + 1) < hi <==> AtEnd(t, d + 1) && i + 1 < |c|) &&
      (t.After(d + 1) < hi ==> i + 2 <= |c| && hi == t.Start(d) + ContentSize(c[..i + 2]))
  {
    LevelGaps(t, d);
    BeforeAfter(t, d + 1);
    Nesting(t, d);
    var c, i := t.NodeAt(d).Children(), t.IndexAt(d);
    assert LevelOk(t.path, 0, d);
    PrefixStep(c, i);
    if i + 1 < |c| {
      PrefixStep(c, i + 1);
      PrefixMono(c, i + 2, |c|);
      PrefixAll(c);
    }
  }

  lemma ToSideInnermost(t: ResolvedPos)
    requires WellFormed(t) && Valid(t.path[0].node)
    ensures var d := t.Depth(); var c, i := t.NodeAt(d).Children(), t.IndexAt(d);
      var hi := ToEdge(t, d);
      t.pos == t.After(d + 1) == hi <= t.End(d) && !(AtEnd(t, d + 1) && i + 1 < |c|)
  {
    var d := t.Depth();
    assert LastOk(t.path, 0, t.pos, t.parentOffset);
    if t.IndexAt(d) + 1 < |t.NodeAt(d).Children()| {
      InnermostBeforeLast(t);
    }
  }

  /** A position in the innermost parent that is not in its last child is
      not at the end of that parent's content. */
  lemma InnermostBeforeLast(t: ResolvedPos)
    requires WellFormed(t) && Valid(t.path[0].node)
    requires t.IndexAt(t.Depth()) + 1 < |t.NodeAt(t.Depth()).Children()|
    ensures t.parentOffset < ContentSize(t.Parent().Children())
  {
    var d := t.Depth();
    var c, i := t.NodeAt(d).Children(), t.IndexAt(d);
    assert LastOk(t.path, 0, t.pos, t.parentOffset) && LevelOk(t.path, 0, d);
    assert t.parentOffset < ContentSize(c[..i]) + NodeSize(c[i]);
    PathValid(t.path, 0, t.pos, t.parentOffset, d);
    ChildrenPositive(t.NodeAt(d));
    InsideNotLast(c, i, t.parentOffset);
  }

  /** An offset inside a child that is not the last lies before the end of
      the content. */
  lemma InsideNotLast(c: seq<Node>, i: nat, off: int)
    requires forall k :: 0 <= k < |c| ==> NodeSize(c[k]) > 0
    requires i + 1 < |c| && off < ContentSize(c[..i]) + NodeSize(c[i])
    ensures off < ContentSize(c)
  {
    PrefixStep(c, i);
    PrefixMono(c, i + 1, |c|);
    PrefixAll(c);
  }

  /** At the depth where the scan stops, the range holds both ancestors at
      the next depth, grows on a side only by a sibling the position is
      flush against (see `FromSide` and `ToSide`), and stays in the root's
      content. */
  lemma RangeAtDepthAround(f: ResolvedPos, t: ResolvedPos, d: nat, test: StartTest)
    requires WellFormed(f) && WellFormed(t) && Valid(f.path[0].node) && Valid(t.path[0].node)
    requires d <= f.Depth() && d <= t.Depth()
    ensures var r := RangeAtDepth(f, t, d, test);
      f.Start(0) <= r.from <= f.Before(d + 1) <= f.pos && t.pos <= t.After(d + 1) <= r.to <= t.End(0)
  {
    FromSide(f, d, test);
    ToSide(t, d);
    Bounds(f, d);
    Bounds(t, d);
  }

  /** The same in a document: the range lies between its two ends. */
  lemma RangeAtDepthInDoc(doc: Node, from: int, to: int, d: nat, test: StartTest)
    requires ValidDoc(doc) && 0 <= from <= DocSize(doc) && 0 <= to <= DocSize(doc)
    requires WellFormed(Resolve(doc, from)) && WellFormed(Resolve(doc, to))
    requires d <= Resolve(doc, from).Depth() && d <= Resolve(doc, to).Depth()
    ensures var f, t := Resolve(doc, from), Resolve(doc, to);
      var r := RangeAtDepth(f, t, d, test);
      0 <= r.from <= f.Before(d + 1) <= from && to <= t.After(d + 1) <= r.to <= DocSize(doc)
  {
    RangeAtDepthAround(Resolve(doc, from), Resolve(doc, to), d, test);
  }

  /** Whatever depth the scan stops at, its range holds both positions and
      stays in the root's content. */
  lemma {:induction false} ScanFromAround(f: ResolvedPos, t: ResolvedPos, d: nat, test: StartTest)
    requires WellFormed(f) && WellFormed(t) && Valid(f.path[0].node) && Valid(t.path[0].node)
    ensures var r := ScanFrom(f, t, d, test);
      r.Some? ==> f.Start(0) <= r.value.from <= f.pos && t.pos <= r.value.to <= t.End(0)
    decreases |f.path| - d
  {
    if d < |f.path| && d < |t.path| {
      if StopsAt(f, t, d, test) {
        RangeAtDepthAround(f, t, d, test);
      } else {
        ScanFromAround(f, t, d + 1, test);
      }
    }
  }

  /** The same in a document: the scan's range holds the selection and
      stays in the document. */
  lemma ScanFromContains(doc: Node, from: int, to: int, d: nat, test: StartTest)
    requires ValidDoc(doc) && 0 <= from <= DocSize(doc) && 0 <= to <= DocSize(doc)
    requires WellFormed(Resolve(doc, from)) && WellFormed(Resolve(doc, to))
    ensures var r := ScanFrom(Resolve(doc, from), Resolve(doc, to), d, test);
      r.Some? ==> 0 <= r.value.from <= from && to <= r.value.to <= DocSize(doc)
  {
    ScanFromAround(Resolve(doc, from), Resolve(doc, to), d, test);
  }

  /** The range around a selection holds the selection and stays in the
      document. */
  lemma AroundSelectionContains(doc: Node, from: int, to: int, test: StartTest)
    requires ValidDoc(doc) && 0 <= from <= DocSize(doc) && 0 <= to <= DocSize(doc)
    ensures var r := AroundSelection(doc, from, to, test);
      r.Some? ==> 0 <= r.value.from <= from && to <= r.value.to <= DocSize(doc)
  {
    ResolveWellFormed(doc, from);
    ResolveWellFormed(doc, to);
    if InOneTextblock(Resolve(doc, from), Resolve(doc, to)) {
      TextblockRangeInDoc(doc, from, to);
    } else {
      ScanFromContains(doc, from, to, 0, test);
    }
  }

  /** `rangeAroundSelection`: the textblock branch, else a scan down the
      depths for the first one where the range has to stop. The source runs
      it with `AsWritten`. */
  method RangeAroundSelection(doc: Node, from: int, to: int, test: StartTest) returns (r: Option<Range>)
    requires ValidDoc(doc) && 0 <= from <= to <= DocSize(doc)
    ensures r == AroundSelection(doc, from, to, test)
    ensures r.Some? ==> 0 <= r.value.from <= from && to <= r.value.to <= DocSize(doc)
  {
    AroundSelectionContains(doc, from, to, test);
    var f, t := Resolve(doc, from), Resolve(doc, to);
    if InOneTextblock(f, t) {
      r := Some(TextblockRange(doc, from, to));
    } else {
      ResolveWellFormed(doc, from);
      ResolveWellFormed(doc, to);
      r := ScanDepths(f, t, test);
    }
  }

  /** `isAtStart` as written or as intended, according to `test`. */
  method RunStartTest(p: ResolvedPos, depth: nat, test: StartTest) returns (b: bool)
    requires |p.path| >= 1
    ensures b == StartFlush(test, p, depth)
  {
    if test.AsWritten? {
      b := IsAtStart(p, depth);
    } else {
      b := IsAtStartIntended(p, depth);
    }
  }

  /** The depth scan of `rangeAroundSelection`, calling `isAtStart` as
      written or as intended according to `test`. */
  method ScanDepths(f: ResolvedPos, t: ResolvedPos, test: StartTest) returns (r: Option<Range>)
    requires WellFormed(f) && WellFormed(t)
    ensures r == ScanFrom(f, t, 0, test)
  {
    var depth := 0;
    while depth <= f.Depth() && depth <= t.Depth()
      invariant ScanFrom(f, t, depth, test) == ScanFrom(f, t, 0, test)
      decreases f.Depth() - depth
    {
      var fromStart := RunStartTest(f, depth + 1, test);
      var toEnd := IsAtEnd(t, depth + 1);
      if fromStart || toEnd || f.IndexAt(depth) != t.IndexAt(depth) || t.NodeAt(depth).IsTextblock() {
        assert StopsAt(f, t, depth, test);
        var range := EdgesAt(f, t, depth, test, fromStart, toEnd);
        return Some(range);
      }
      assert !StopsAt(f, t, depth, test);
      depth := depth + 1;
    }
    return None;
  }

  /** The range returned where the scan stops at `depth`, given the answers
      of the start and end tests there: the ancestors at `depth + 1`,
      widened by a sibling on each side whose test passed. */
  method EdgesAt(f: ResolvedPos, t: ResolvedPos, depth: nat, test: StartTest, fromStart: bool, toEnd: bool)
    returns (r: Range)
    requires WellFormed(f) && WellFormed(t) && depth < |f.path| && depth < |t.path|
    requires fromStart == StartFlush(test, f, depth + 1) && toEnd == AtEnd(t, depth + 1)
    ensures r == RangeAtDepth(f, t, depth, test)
  {
    assert LevelOk(f.path, 0, depth);
    var lo, hi := f.Before(depth + 1), t.After(depth + 1);
    if fromStart && f.IndexAt(depth) > 0 {
      lo := lo - NodeSize(f.NodeAt(depth).Children()[f.IndexAt(depth) - 1]);
    }
    if toEnd && t.IndexAt(depth) + 1 < |t.NodeAt(depth).Children()| {
      hi := hi + NodeSize(t.NodeAt(depth).Children()[t.IndexAt(depth) + 1]);
    }
    r := Range(lo, hi);
  }

  /** The span `changedRange` gives for recorded mutations from `from` to
      `to`: the nodes at one depth below the deepest ancestor whose content
      holds both ends (the ends themselves where that ancestor is their
      parent). */
  function SpanRange(doc: Node, from: int, to: int): Range
    requires ValidDoc(doc) && 0 <= from <= DocSize(doc) && 0 <= to <= DocSize(doc)
  {
    var f, t := Resolve(doc, from), Resolve(doc, to);
    var shared := f.SharedDepth(to);
    SharedDepthHolds(doc, from, to);
    SharedAncestor(doc, from, to, shared);
    Range(f.Before(shared + 1), t.After(shared + 1))
  }

  /** The shared depth is one whose content holds the other position. */
  lemma SharedDepthHolds(doc: Node, from: int, to: int)
    requires ValidDoc(doc) && 0 <= from <= DocSize(doc) && 0 <= to <= DocSize(doc)
    ensures var f := Resolve(doc, from); var d := f.SharedDepth(to);
      d <= f.Depth() && f.Start(d) <= to <= f.End(d)
  {
  }

  /** A position lies between the edges of its ancestor's child at `d + 1`,
      and those lie in the ancestor's content. */
  lemma EdgesAround(rp: ResolvedPos, d: nat)
    requires WellFormed(rp) && d <= rp.Depth()
    ensures 0 <= rp.Start(d) <= rp.Before(d + 1) <= rp.pos <= rp.After(d + 1) <= rp.End(d) <= rp.End(0)
  {
    BeforeAfter(rp, d + 1);
    Bounds(rp, d);
    if d < rp.Depth() {
      Nesting(rp, d);
    }
  }

  /** The span holds both ends, its two ends are the edges of children of
      one common ancestor, and it stays in the document. */
  lemma SpanRangeContains(doc: Node, from: int, to: int)
    requires ValidDoc(doc) && 0 <= from <= to <= DocSize(doc)
    ensures var r := SpanRange(doc, from, to);
      0 <= r.from <= from && to <= r.to <= DocSize(doc)
    ensures var f, t := Resolve(doc, from), Resolve(doc, to); var d := f.SharedDepth(to);
      d <= t.Depth() && f.NodeAt(d) == t.NodeAt(d) &&
      f.Start(d) <= SpanRange(doc, from, to).from && SpanRange(doc, from, to).to <= t.End(d)
  {
    var f, t := Resolve(doc, from), Resolve(doc, to);
    var d := f.SharedDepth(to);
    SharedDepthHolds(doc, from, to);
    SharedAncestor(doc, from, to, d);
    ResolveWellFormed(doc, from);
    ResolveWellFormed(doc, to);
    EdgesAround(f, d);
    EdgesAround(t, d);
  }

  /** One widening step of the retry loop: each end moves out to the edge
      of its parent node, or to the edge of the document when it is already
      at the top level. */
  function Widen(doc: Node, r: Range): Range
    requires doc.Element? && 0 <= r.from <= DocSize(doc) && 0 <= r.to <= DocSize(doc)
  {
    var f, t := Resolve(doc, r.from), Resolve(doc, r.to);
    Range(if f.Depth() > 0 then f.Before(f.Depth()) else 0,
          if t.Depth() > 0 then t.After(t.Depth()) else DocSize(doc))
  }

  /** Widening holds the previous range, stays in the document, and leaves
      a range unchanged exactly when it is the whole document; a top-level
      end goes straight to the document's edge. */
  lemma WidenGrows(doc: Node, r: Range)
    requires doc.Element? && 0 <= r.from <= DocSize(doc) && 0 <= r.to <= DocSize(doc)
    ensures var w := Widen(doc, r);
      0 <= w.from <= r.from && r.to <= w.to <= DocSize(doc) &&
      (w == r <==> r == Range(0, DocSize(doc))) &&
      (Resolve(doc, r.from).Depth() == 0 ==> w.from == 0) &&
      (Resolve(doc, r.to).Depth() == 0 ==> w.to == DocSize(doc))
  {
    var f, t := Resolve(doc, r.from), Resolve(doc, r.to);
    ResolveWellFormed(doc, r.from);
    ResolveWellFormed(doc, r.to);
    EndsResolveAtRoot(doc);
    if f.Depth() > 0 {
      BeforeAfter(f, f.Depth());
    }
    if t.Depth() > 0 {
      BeforeAfter(t, t.Depth());
    }
    Bounds(t, 0);
  }

  /** A paragraph holding one unmarked text node. */
  function Para(t: string): Node {
    Element(false, true, [Text(t, {})], {})
  }

  /** A block wrapper (a blockquote, say). */
  function Wrap(c: seq<Node>): Node {
    Element(false, false, c, {})
  }

  lemma ParaFacts(t: string)
    requires t != ""
    ensures NodeSize(Para(t)) == |t| + 2 && Valid(Para(t))
    ensures FindIndex(Para(t).content, 0) == (0, 0)
  {
    assert ContentSize([Text(t, {})]) == |t| by {
      assert [Text(t, {})][..0] == [];
    }
    assert Para(t).content[..0] == [];
    FindIndexUnique(Para(t).content, 0, 0);
  }

  /** A blockquote holding two paragraphs, "a" and "b". */
  function QuoteOfTwo(): Node {
    Wrap([Wrap([Para("a"), Para("b")])])
  }

  /** A paragraph "a" followed by a blockquote holding a paragraph "b". */
  function QuoteAfterPara(): Node {
    Wrap([Para("a"), Wrap([Para("b")])])
  }

  /** Sizes, validity and child lookups of the two paragraphs of `QuoteOfTwo`. */
  lemma TwoParasFacts()
    ensures var inner := [Para("a"), Para("b")];
      Valid(Wrap(inner)) && ContentSize(inner) == 6 && FindIndex(inner, 4) == (1, 3)
  {
    var pa, pb := Para("a"), Para("b");
    ParaFacts("a");
    ParaFacts("b");
    var inner := [pa, pb];
    assert inner[..1] == [pa] && [pa][..0] == [] && inner[..2] == inner;
    assert ContentSize([pa]) == 3;
    assert ContentSize(inner) == 6;
    FindIndexUnique(inner, 4, 1);
    assert forall i :: 0 <= i < |inner| ==> Valid(inner[i]);
  }

  /** Size, validity and the child holding position 5 of `QuoteOfTwo`. */
  lemma QuoteOfTwoShape()
    ensures ValidDoc(QuoteOfTwo()) && DocSize(QuoteOfTwo()) == 8
    ensures FindIndex(QuoteOfTwo().content, 5) == (0, 0)
  {
    TwoParasFacts();
    var bq := Wrap([Para("a"), Para("b")]);
    assert NodeSize(bq) == 8;
    assert [bq][..0] == [] && [bq][..1] == [bq];
    assert ContentSize([bq]) == 8;
    FindIndexUnique([bq], 5, 0);
    assert forall i :: 0 <= i < |[bq]| ==> Valid([bq][i]);
  }

  /** Position 5 resolved inside the blockquote of `QuoteOfTwo`, which
      starts its content at 1. */
  lemma QuoteOfTwoInner()
    ensures var inner := [Para("a"), Para("b")];
      ContentSize(inner) == 6 &&
      ResolveLevels(Wrap(inner), 1, 5) == ([Level(Wrap(inner), 1, 4), Level(Para("b"), 0, 5)], 0)
  {
    var pb := Para("b");
    ParaFacts("b");
    TwoParasFacts();
    var bq := Wrap([Para("a"), pb]);
    var l2 := ResolveLevels(pb, 5, 5);
    assert l2 == ([Level(pb, 0, 5)], 0);
    assert ResolveLevels(bq, 1, 5) == ([Level(bq, 1, 4)] + l2.0, 0);
    assert [Level(bq, 1, 4)] + l2.0 == [Level(bq, 1, 4), Level(pb, 0, 5)];
  }

  lemma QuoteOfTwoFacts()
    ensures ValidDoc(QuoteOfTwo()) && DocSize(QuoteOfTwo()) == 8
    ensures Resolve(QuoteOfTwo(), 5).path ==
      [Level(QuoteOfTwo(), 0, 0), Level(Wrap([Para("a"), Para("b")]), 1, 4), Level(Para("b"), 0, 5)]
    ensures Resolve(QuoteOfTwo(), 5).parentOffset == 0
  {
    QuoteOfTwoShape();
    QuoteOfTwoInner();
    var doc := QuoteOfTwo();
    var l1 := ResolveLevels(Wrap([Para("a"), Para("b")]), 1, 5);
    assert ResolveLevels(doc, 0, 5) == ([Level(doc, 0, 0)] + l1.0, 0);
  }

  /** Sizes, validity and child lookups of the top level of `QuoteAfterPara`. */
  lemma ParaThenQuoteFacts()
    ensures var top := [Para("a"), Wrap([Para("b")])];
      Valid(Wrap(top)) && ContentSize(top) == 8 && FindIndex(top, 5) == (1, 3) &&
      ContentSize([Para("b")]) == 3 && FindIndex([Para("b")], 1) == (0, 0)
  {
    var pa, pb := Para("a"), Para("b");
    ParaFacts("a");
    ParaFacts("b");
    assert [pb][..0] == [] && [pb][..1] == [pb];
    assert ContentSize([pb]) == 3;
    var bq := Wrap([pb]);
    var top := [pa, bq];
    assert top[..1] == [pa] && [pa][..0] == [] && top[..2] == top;
    assert ContentSize([pa]) == 3;
    assert ContentSize(top) == 8;
    FindIndexUnique(top, 5, 1);
    FindIndexUnique([pb], 1, 0);
    assert Valid(bq);
    assert forall i :: 0 <= i < |top| ==> Valid(top[i]);
  }

  /** Position 5 resolved inside the blockquote of `QuoteAfterPara`, which
      starts its content at 4. */
  lemma QuoteAfterParaInner()
    ensures ContentSize([Para("b")]) == 3 &&
      ResolveLevels(Wrap([Para("b")]), 4, 5) == ([Level(Wrap([Para("b")]), 0, 4), Level(Para("b"), 0, 5)], 0)
  {
    var pb := Para("b");
    ParaFacts("b");
    ParaThenQuoteFacts();
    var bq := Wrap([pb]);
    var l2 := ResolveLevels(pb, 5, 5);
    assert l2 == ([Level(pb, 0, 5)], 0);
    assert ResolveLevels(bq, 4, 5) == ([Level(bq, 0, 4)] + l2.0, 0);
    assert [Level(bq, 0, 4)] + l2.0 == [Level(bq, 0, 4), Level(pb, 0, 5)];
  }

  lemma QuoteAfterParaFacts()
    ensures ValidDoc(QuoteAfterPara()) && DocSize(QuoteAfterPara()) == 8
    ensures Resolve(QuoteAfterPara(), 5).path ==
      [Level(QuoteAfterPara(), 1, 3), Level(Wrap([Para("b")]), 0, 4), Level(Para("b"), 0, 5)]
  {
    ParaThenQuoteFacts();
    QuoteAfterParaInner();
    var doc := QuoteAfterPara();
    var l1 := ResolveLevels(Wrap([Para("b")]), 4, 5);
    assert ResolveLevels(doc, 0, 5) == ([Level(doc, 1, 3)] + l1.0, 0);
  }

  /** The written test answers "at start" for the start of the second
      paragraph of a blockquote; the intended test does not. */
  lemma AtStartReportsLaterSibling()
    ensures var p := Resolve(QuoteOfTwo(), 5);
      ValidDoc(QuoteOfTwo()) && p.Depth() == 2 && AtStartAsWritten(p, 1) && !AtStart(p, 1)
  {
    QuoteOfTwoFacts();
    var p := Resolve(QuoteOfTwo(), 5);
    assert p.IndexAt(1) == 1;
  }

  /** The written test answers "not at start" for the start of the first
      paragraph of a blockquote that follows another paragraph; the intended
      test answers "at start". */
  lemma AtStartMissesFirstChild()
    ensures var p := Resolve(QuoteAfterPara(), 5);
      ValidDoc(QuoteAfterPara()) && p.Depth() == 2 && !AtStartAsWritten(p, 1) && AtStart(p, 1)
  {
    QuoteAfterParaFacts();
  }

  /** The whole of `rangeAroundSelection` with the cursor at the start of
      the second paragraph of `QuoteOfTwo`: as written, the scan stops at
      depth 0 and re-reads the whole blockquote, 0 to 8; with the intended
      test it stops at depth 1 and re-reads the quote's content, 1 to 7. */
  lemma AroundQuoteOfTwo()
    ensures ValidDoc(QuoteOfTwo()) && DocSize(QuoteOfTwo()) == 8
    ensures AroundSelection(QuoteOfTwo(), 5, 5, AsWritten) == Some(Range(0, 8))
    ensures AroundSelection(QuoteOfTwo(), 5, 5, Intended) == Some(Range(1, 7))
  {
    QuoteOfTwoFacts();
    QuoteOfTwoShape();
    ParaFacts("a");
    ParaFacts("b");
    var p := Resolve(QuoteOfTwo(), 5);
    ResolveWellFormed(QuoteOfTwo(), 5);
    assert !InOneTextblock(p, p);
    assert p.IndexAt(0) == 0 && p.IndexAt(1) == 1 && p.Depth() == 2;
    assert ContentSize(p.Parent().Children()) == 1;
    assert StopsAt(p, p, 0, AsWritten) && RangeAtDepth(p, p, 0, AsWritten) == Range(0, 8);
    assert !StopsAt(p, p, 0, Intended);
    assert StopsAt(p, p, 1, Intended) && RangeAtDepth(p, p, 1, Intended) == Range(1, 7);
  }
}
