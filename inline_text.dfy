/**
 * `uniformTextBetween`: the text typed between two positions of freshly
 * parsed content, provided that everything there is text under one mark
 * set; otherwise no text.
 */
module InlineText {
  import opened Wrappers
  import opened Document

  /** One call of the traversal callback: a node and the absolute position
      where it starts. */
  datatype Visit = Visit(node: Node, pos: int)

  /** The source's `text.slice(start, end)` for non-negative bounds: both are
      clamped to the text, and a start past the end gives "". */
  function Slice(s: string, start: int, end: int): (r: string)
    ensures |r| <= |s|
  {
    var lo := if start < 0 then 0 else if start > |s| then |s| else start;
    var hi := if end < lo then lo else if end > |s| then |s| else end;
    s[lo..hi]
  }

  /** The part of a text node starting at `pos` that lies in `[from, to)`. */
  function Clip(v: Visit, from: int, to: int): string
    requires v.node.Text?
  {
    Slice(v.node.text, if from - v.pos < 0 then 0 else from - v.pos, to - v.pos)
  }

  /** The callback skips block nodes that start before `from` (the ancestors
      the traversal passes through); every other visit counts. */
  predicate Counts(v: Visit, from: int) {
    v.node.IsInline() || v.pos >= from
  }

  function Counted(vs: seq<Visit>, from: int): (r: seq<Visit>)
    ensures forall v :: v in r ==> v in vs && Counts(v, from)
    ensures forall v :: v in vs && Counts(v, from) ==> v in r
  {
    if vs == [] then []
    else (if Counts(vs[0], from) then [vs[0]] else []) + Counted(vs[1..], from)
  }

  /** All counted visits are text nodes carrying the first one's marks. */
  predicate UniformRun(vs: seq<Visit>) {
    forall i :: 0 <= i < |vs| ==> vs[i].node.Text? && vs[i].node.marks == vs[0].node.marks
  }

  /** The clipped texts of the text visits, in order. */
  function Texts(vs: seq<Visit>, from: int, to: int): string {
    if vs == [] then ""
    else (if vs[0].node.Text? then Clip(vs[0], from, to) else "") + Texts(vs[1..], from, to)
  }

  /** What `uniformTextBetween` computes from the traversal's visits. */
  function UniformText(vs: seq<Visit>, from: int, to: int): Option<string> {
    var counted := Counted(vs, from);
    if UniformRun(counted) then Some(Texts(counted, from, to)) else None
  }

  lemma CountedAppend(vs: seq<Visit>, v: Visit, from: int)
    ensures Counted(vs + [v], from) == Counted(vs, from) + (if Counts(v, from) then [v] else [])
  {
    if vs != [] {
      assert (vs + [v])[1..] == vs[1..] + [v];
      CountedAppend(vs[1..], v, from);
    } else {
      assert [v][1..] == [];
    }
  }

  lemma TextsAppend(vs: seq<Visit>, v: Visit, from: int, to: int)
    ensures Texts(vs + [v], from, to) == Texts(vs, from, to) + (if v.node.Text? then Clip(v, from, to) else "")
  {
    if vs != [] {
      assert (vs + [v])[1..] == vs[1..] + [v];
      TextsAppend(vs[1..], v, from, to);
    } else {
      assert [v][1..] == [];
    }
  }

  lemma UniformRunAppend(vs: seq<Visit>, v: Visit)
    ensures UniformRun(vs + [v]) <==>
      UniformRun(vs) && v.node.Text? && (vs == [] || v.node.marks == vs[0].node.marks)
  {
    var w := vs + [v];
    if UniformRun(w) {
      forall i | 0 <= i < |vs| ensures vs[i].node.Text? && vs[i].node.marks == vs[0].node.marks {
        assert w[i] == vs[i];
      }
      assert w[|vs|] == v;
    }
  }

  /** What the callback has accumulated after the visits whose counted part
      is `counted`. */
  ghost predicate Accumulated(counted: seq<Visit>, from: int, to: int,
                              result: string, valid: bool, marks: Option<set<Mark>>) {
    result == Texts(counted, from, to) &&
    (valid <==> UniformRun(counted)) &&
    (valid ==> (marks.None? <==> counted == []) &&
               (marks.Some? ==> marks.value == counted[0].node.marks))
  }

  /** The callback loop: it accumulates the clipped text, remembers the
      first text node's marks and turns invalid on a non-text node or a
      different mark set. */
  method UniformTextBetween(visits: seq<Visit>, from: int, to: int) returns (r: Option<string>)
    ensures r == UniformText(visits, from, to)
  {
    var result := "";
    var valid := true;
    var marks: Option<set<Mark>> := None;
    for i := 0 to |visits|
      invariant Accumulated(Counted(visits[..i], from), from, to, result, valid, marks)
    {
      var v := visits[i];
      ghost var before := Counted(visits[..i], from);
      assert visits[..i + 1] == visits[..i] + [v];
      CountedAppend(visits[..i], v, from);
      if !v.node.IsInline() && v.pos < from {
        assert Counted(visits[..i + 1], from) == before;
      } else {
        assert Counted(visits[..i + 1], from) == before + [v];
        TextsAppend(before, v, from, to);
        UniformRunAppend(before, v);
        if !v.node.Text? {
          valid := false;
        } else {
          if marks.None? {
            marks := Some(v.node.marks);
          } else if marks.value != v.node.marks {
            valid := false;
          }
          result := result + Clip(v, from, to);
        }
      }
    }
    assert visits[..|visits|] == visits;
    r := if valid then Some(result) else None;
  }

  /** Where `Slice` starts and ends in a text of length `n`. */
  function SliceLo(n: nat, start: int): (lo: nat)
    ensures lo <= n
  {
    if start < 0 then 0 else if start > n then n else start
  }

  function SliceHi(n: nat, start: int, end: int): (hi: nat)
    ensures SliceLo(n, start) <= hi <= n
  {
    var lo := SliceLo(n, start);
    if end < lo then lo else if end > n then n else end
  }

  lemma SliceBounds(s: string, start: int, end: int)
    ensures Slice(s, start, end) == s[SliceLo(|s|, start)..SliceHi(|s|, start, end)]
  {
  }

  lemma SliceInLeft(x: string, y: string, lo: int, hi: int)
    requires 0 <= lo <= hi <= |x|
    ensures (x + y)[lo..hi] == x[lo..hi]
  {
    forall i | 0 <= i < hi - lo ensures (x + y)[lo..hi][i] == x[lo..hi][i] {
      assert (x + y)[lo + i] == x[lo + i];
    }
  }

  lemma SliceInRight(x: string, y: string, lo: int, hi: int)
    requires |x| <= lo <= hi <= |x| + |y|
    ensures (x + y)[lo..hi] == y[lo - |x|..hi - |x|]
  {
    forall i | 0 <= i < hi - lo ensures (x + y)[lo..hi][i] == y[lo - |x|..hi - |x|][i] {
      assert (x + y)[lo + i] == y[lo - |x| + i];
    }
  }

  lemma SliceAcross(x: string, y: string, lo: int, hi: int)
    requires 0 <= lo <= |x| <= hi <= |x| + |y|
    ensures (x + y)[lo..hi] == x[lo..] + y[..hi - |x|]
  {
    SliceInLeft(x, y, lo, |x|);
    SliceInRight(x, y, |x|, hi);
    assert (x + y)[lo..hi] == (x + y)[lo..|x|] + (x + y)[|x|..hi];
  }

  /** Slicing a concatenation slices each part at the shifted bounds. */
  lemma SliceConcat(x: string, y: string, a: int, e: int)
    ensures Slice(x + y, a, e) == Slice(x, a, e) + Slice(y, a - |x|, e - |x|)
  {
    if SliceHi(|x| + |y|, a, e) <= |x| {
      SliceConcatLeft(x, y, a, e);
    } else if SliceLo(|x| + |y|, a) >= |x| {
      SliceConcatRight(x, y, a, e);
    } else {
      SliceConcatAcross(x, y, a, e);
    }
  }

  lemma SliceConcatLeft(x: string, y: string, a: int, e: int)
    requires SliceHi(|x| + |y|, a, e) <= |x|
    ensures Slice(x + y, a, e) == Slice(x, a, e) + Slice(y, a - |x|, e - |x|)
  {
    var L, M := |x|, |y|;
    var lo, hi := SliceLo(L + M, a), SliceHi(L + M, a, e);
    SliceBounds(x + y, a, e);
    SliceBounds(x, a, e);
    SliceBounds(y, a - L, e - L);
    assert SliceLo(L, a) == lo && SliceHi(L, a, e) == hi;
    assert SliceHi(M, a - L, e - L) == SliceLo(M, a - L);
    SliceInLeft(x, y, lo, hi);
  }

  lemma SliceConcatRight(x: string, y: string, a: int, e: int)
    requires SliceLo(|x| + |y|, a) >= |x|
    ensures Slice(x + y, a, e) == Slice(x, a, e) + Slice(y, a - |x|, e - |x|)
  {
    var L, M := |x|, |y|;
    var lo, hi := SliceLo(L + M, a), SliceHi(L + M, a, e);
    SliceBounds(x + y, a, e);
    SliceBounds(x, a, e);
    SliceBounds(y, a - L, e - L);
    assert SliceLo(L, a) == L && SliceHi(L, a, e) == L;
    assert SliceLo(M, a - L) == lo - L && SliceHi(M, a - L, e - L) == hi - L;
    SliceInRight(x, y, lo, hi);
  }

  lemma SliceConcatAcross(x: string, y: string, a: int, e: int)
    requires SliceLo(|x| + |y|, a) < |x| < SliceHi(|x| + |y|, a, e)
    ensures Slice(x + y, a, e) == Slice(x, a, e) + Slice(y, a - |x|, e - |x|)
  {
    var L, M := |x|, |y|;
    var lo, hi := SliceLo(L + M, a), SliceHi(L + M, a, e);
    SliceBounds(x + y, a, e);
    SliceBounds(x, a, e);
    SliceBounds(y, a - L, e - L);
    assert SliceLo(L, a) == lo && SliceHi(L, a, e) == L;
    assert SliceLo(M, a - L) == 0 && SliceHi(M, a - L, e - L) == hi - L;
    SliceAcross(x, y, lo, hi);
  }

  /** The text of a run of inline children. */
  function TextOf(children: seq<Node>): string {
    if children == [] then ""
    else (if children[0].Text? then children[0].text else "") + TextOf(children[1..])
  }

  /** The visits the traversal makes among the children of a textblock whose
      content starts at `pos`: each child that overlaps the range, in order,
      with the position where it starts. */
  function InlineVisits(children: seq<Node>, pos: int, from: int, to: int): seq<Visit>
    decreases |children|
  {
    if children == [] || pos >= to then []
    else
      var end := pos + NodeSize(children[0]);
      (if end > from then [Visit(children[0], pos)] else []) + InlineVisits(children[1..], end, from, to)
  }

  /** A run of text nodes that all carry the same marks. */
  predicate PlainRun(children: seq<Node>) {
    forall i :: 0 <= i < |children| ==>
      children[i].Text? && children[i].marks == children[0].marks
  }

  lemma InlineVisitsStep(children: seq<Node>, pos: int, from: int, to: int)
    requires children != [] && pos < to
    ensures var end := pos + NodeSize(children[0]);
      var tail := InlineVisits(children[1..], end, from, to);
      InlineVisits(children, pos, from, to) == if end > from then [Visit(children[0], pos)] + tail else tail
  {
  }

  /** Every visit carries a text node under the given marks. */
  predicate TextVisitsMarked(vs: seq<Visit>, marks: set<Mark>) {
    forall i :: 0 <= i < |vs| ==> vs[i].node.Text? && vs[i].node.marks == marks
  }

  /** Every child is a text node under the given marks. */
  predicate RunMarked(children: seq<Node>, marks: set<Mark>) {
    forall i :: 0 <= i < |children| ==> children[i].Text? && children[i].marks == marks
  }

  lemma RunMarkedTail(children: seq<Node>, marks: set<Mark>)
    requires RunMarked(children, marks) && children != []
    ensures RunMarked(children[1..], marks)
  {
    var rest := children[1..];
    forall i | 0 <= i < |rest| ensures rest[i].Text? && rest[i].marks == marks {
      assert rest[i] == children[i + 1];
    }
  }

  lemma ConsTextVisit(v: Visit, tail: seq<Visit>, marks: set<Mark>)
    requires v.node.Text? && v.node.marks == marks && TextVisitsMarked(tail, marks)
    ensures TextVisitsMarked([v] + tail, marks)
  {
    var vs := [v] + tail;
    forall i | 0 <= i < |vs| ensures vs[i].node.Text? && vs[i].node.marks == marks {
      if i > 0 { assert vs[i] == tail[i - 1]; } else { assert vs[i] == v; }
    }
  }

  /** The traversal visits among equally marked text children only text
      nodes under those marks. */
  lemma {:induction false} RunVisitsMarked(children: seq<Node>, pos: int, from: int, to: int, marks: set<Mark>)
    requires RunMarked(children, marks)
    ensures TextVisitsMarked(InlineVisits(children, pos, from, to), marks)
    decreases |children|
  {
    if children != [] && pos < to {
      RunMarkedTail(children, marks);
      RunVisitsMarked(children[1..], pos + NodeSize(children[0]), from, to, marks);
      InlineVisitsStep(children, pos, from, to);
      if pos + NodeSize(children[0]) > from {
        assert children[0].Text? && children[0].marks == marks;
        ConsTextVisit(Visit(children[0], pos), InlineVisits(children[1..], pos + NodeSize(children[0]), from, to), marks);
      }
    }
  }

  /** Text visits are inline, so every one of them counts. */
  lemma {:induction false} TextVisitsCounted(vs: seq<Visit>, from: int, marks: set<Mark>)
    requires TextVisitsMarked(vs, marks)
    ensures Counted(vs, from) == vs
    decreases |vs|
  {
    if vs != [] {
      assert vs[0].node.Text?;
      var rest := vs[1..];
      assert TextVisitsMarked(rest, marks) by {
        forall i | 0 <= i < |rest| ensures rest[i].node.Text? && rest[i].node.marks == marks {
          assert rest[i] == vs[i + 1];
        }
      }
      TextVisitsCounted(rest, from, marks);
      assert vs == [vs[0]] + rest;
    }
  }

  /** Every visit among a plain run is a counted text visit under the run's marks. */
  lemma PlainRunVisitsAreText(children: seq<Node>, pos: int, from: int, to: int)
    requires PlainRun(children) && children != []
    ensures var vs := InlineVisits(children, pos, from, to);
      Counted(vs, from) == vs && TextVisitsMarked(vs, children[0].marks)
  {
    assert RunMarked(children, children[0].marks);
    RunVisitsMarked(children, pos, from, to, children[0].marks);
    TextVisitsCounted(InlineVisits(children, pos, from, to), from, children[0].marks);
  }

  /** Clipping is slicing: `Slice` already clamps a negative start. */
  lemma ClipIsSlice(v: Visit, from: int, to: int)
    requires v.node.Text?
    ensures Clip(v, from, to) == Slice(v.node.text, from - v.pos, to - v.pos)
  {
  }

  lemma SliceOutside(s: string, a: int, e: int)
    requires e <= 0 || a >= |s|
    ensures Slice(s, a, e) == ""
  {
  }

  /** One step of the traversal over a text child: its clipped text, then the rest. */
  lemma TextChildStep(children: seq<Node>, pos: int, from: int, to: int)
    requires children != [] && children[0].Text? && pos < to
    ensures var end := pos + NodeSize(children[0]);
      Texts(InlineVisits(children, pos, from, to), from, to) ==
      Slice(children[0].text, from - pos, to - pos) + Texts(InlineVisits(children[1..], end, from, to), from, to)
  {
    var end := pos + NodeSize(children[0]);
    var tail := InlineVisits(children[1..], end, from, to);
    InlineVisitsStep(children, pos, from, to);
    if end > from {
      var vs := [Visit(children[0], pos)] + tail;
      assert vs[1..] == tail;
      ClipIsSlice(vs[0], from, to);
    } else {
      SliceOutside(children[0].text, from - pos, to - pos);
    }
  }

  /** Past the end of the range, or with no children left, there is no text. */
  lemma NothingVisited(children: seq<Node>, pos: int, from: int, to: int)
    requires children == [] || pos >= to
    ensures Texts(InlineVisits(children, pos, from, to), from, to) == ""
    ensures Slice(TextOf(children), from - pos, to - pos) == ""
  {
    if children != [] {
      SliceOutside(TextOf(children), from - pos, to - pos);
    }
  }

  /** The slice of a run's text that starts with a text child at `pos`: the
      slice of that child, then the slice of the rest from where it ends. */
  lemma SliceOfTextOf(children: seq<Node>, pos: int, from: int, to: int)
    requires children != [] && children[0].Text?
    ensures Slice(TextOf(children), from - pos, to - pos) ==
      Slice(children[0].text, from - pos, to - pos) +
      Slice(TextOf(children[1..]), from - (pos + NodeSize(children[0])), to - (pos + NodeSize(children[0])))
  {
    var t := children[0].text;
    assert TextOf(children) == t + TextOf(children[1..]);
    SliceConcat(t, TextOf(children[1..]), from - pos, to - pos);
  }

  /** The text of the visits among a run of text children is the slice of
      the run's text. */
  lemma {:induction false} RunVisitsText(children: seq<Node>, pos: int, from: int, to: int, marks: set<Mark>)
    requires RunMarked(children, marks)
    ensures Texts(InlineVisits(children, pos, from, to), from, to) == Slice(TextOf(children), from - pos, to - pos)
    decreases |children|
  {
    if children == [] || pos >= to {
      NothingVisited(children, pos, from, to);
    } else {
      assert children[0].Text?;
      RunMarkedTail(children, marks);
      RunVisitsText(children[1..], pos + NodeSize(children[0]), from, to, marks);
      TextChildText(children, pos, from, to);
    }
  }

  /** The inductive step: a text child in range contributes its own slice. */
  lemma TextChildText(children: seq<Node>, pos: int, from: int, to: int)
    requires children != [] && children[0].Text? && pos < to
    requires Texts(InlineVisits(children[1..], pos + NodeSize(children[0]), from, to), from, to) ==
             Slice(TextOf(children[1..]), from - (pos + NodeSize(children[0])), to - (pos + NodeSize(children[0])))
    ensures Texts(InlineVisits(children, pos, from, to), from, to) == Slice(TextOf(children), from - pos, to - pos)
  {
    SliceOfTextOf(children, pos, from, to);
    TextChildStep(children, pos, from, to);
  }

  /** Between two positions of a textblock whose content is one run of
      equally marked text, `uniformTextBetween` gives exactly the text
      between them, whatever block ancestors the traversal passes first. */
  lemma UniformTextOfPlainRun(ancestors: seq<Visit>, children: seq<Node>, pos: int, from: int, to: int)
    requires PlainRun(children) && children != []
    requires forall v :: v in ancestors ==> !v.node.IsInline() && v.pos < from
    ensures UniformText(ancestors + InlineVisits(children, pos, from, to), from, to) ==
            Some(Slice(TextOf(children), from - pos, to - pos))
  {
    var vs := InlineVisits(children, pos, from, to);
    PlainRunVisitsAreText(children, pos, from, to);
    RunVisitsText(children, pos, from, to, children[0].marks);
    CountedSkips(ancestors, vs, from);
    if vs != [] {
      assert UniformRun(vs) by {
        forall i | 0 <= i < |vs| ensures vs[i].node.Text? && vs[i].node.marks == vs[0].node.marks {
        }
      }
    }
  }

  lemma CountedSkips(ancestors: seq<Visit>, vs: seq<Visit>, from: int)
    requires forall v :: v in ancestors ==> !Counts(v, from)
    ensures Counted(ancestors + vs, from) == Counted(vs, from)
  {
    if ancestors == [] {
      assert ancestors + vs == vs;
    } else {
      var whole := ancestors + vs;
      assert whole[0] == ancestors[0] && ancestors[0] in ancestors;
      assert whole[1..] == ancestors[1..] + vs;
      assert Counted(whole, from) == Counted(whole[1..], from);
      CountedSkips(ancestors[1..], vs, from);
    }
  }

  /** A counted visit of anything but text (an inline atom, say) makes
      `uniformTextBetween` give no text. */
  lemma NonTextHasNoUniformText(vs: seq<Visit>, from: int, to: int, v: Visit)
    requires v in vs && Counts(v, from) && !v.node.Text?
    ensures UniformText(vs, from, to).None?
  {
    var counted := Counted(vs, from);
    var k :| 0 <= k < |counted| && counted[k] == v;
  }

  /** Two counted text visits under different marks give no text either. */
  lemma MixedMarksHaveNoUniformText(vs: seq<Visit>, from: int, to: int, v: Visit, w: Visit)
    requires v in vs && w in vs && Counts(v, from) && Counts(w, from)
    requires v.node.Text? && w.node.Text? && v.node.marks != w.node.marks
    ensures UniformText(vs, from, to).None?
  {
    var counted := Counted(vs, from);
    var k :| 0 <= k < |counted| && counted[k] == v;
    var l :| 0 <= l < |counted| && counted[l] == w;
  }
}
