/**
 * The part of the document model that the DOM-change reconciler relies on:
 * a node tree whose sizes drive position arithmetic, and resolved positions
 * (the ancestor path of an absolute position) with the accessors the
 * reconciler calls: start, end, before, after, index, sharedDepth,
 * sameParent and atNodeBoundary.
 */
module Document {
  type Mark = string

  /** A document node. Text nodes hold characters, atoms are leaves of size
      one, elements hold child content and count two for their own tokens. */
  datatype Node =
    | Text(text: string, marks: set<Mark>)
    | Atom(inline: bool, marks: set<Mark>)
    | Element(inline: bool, textblock: bool, content: seq<Node>, marks: set<Mark>)
  {
    predicate IsInline() { Text? || inline }
    predicate IsTextblock() { Element? && textblock }

    /** The child content (empty for text and atoms). */
    function Children(): seq<Node> {
      if Element? then content else []
    }
  }

  function NodeSize(n: Node): nat
    decreases n
  {
    match n
    case Text(t, _) => |t|
    case Atom(_, _) => 1
    case Element(_, _, c, _) => ContentSize(c) + 2
  }

  /** The size of a fragment: the sum of its children's sizes. */
  function ContentSize(c: seq<Node>): nat
    decreases c
  {
    if c == [] then 0 else ContentSize(c[..|c| - 1]) + NodeSize(c[|c| - 1])
  }

  /** Well-formed trees: no empty text node, no inline textblock, and a
      textblock holds only inline content. */
  ghost predicate Valid(n: Node)
    decreases n
  {
    match n
    case Text(t, _) => |t| > 0
    case Atom(_, _) => true
    case Element(inl, tb, c, _) =>
      !(inl && tb) &&
      (forall i :: 0 <= i < |c| ==> Valid(c[i])) &&
      (tb ==> forall i :: 0 <= i < |c| ==> c[i].IsInline())
  }

  /** A document is a valid element at the root. */
  ghost predicate ValidDoc(doc: Node) {
    doc.Element? && Valid(doc)
  }

  function DocSize(doc: Node): nat
    requires doc.Element?
  {
    ContentSize(doc.content)
  }

  lemma ValidSizePositive(n: Node)
    requires Valid(n)
    ensures NodeSize(n) > 0
  {
  }

  lemma PrefixStep(c: seq<Node>, i: nat)
    requires i < |c|
    ensures ContentSize(c[..i + 1]) == ContentSize(c[..i]) + NodeSize(c[i])
  {
    assert c[..i + 1][..i] == c[..i];
  }

  lemma {:induction false} PrefixMono(c: seq<Node>, i: nat, j: nat)
    requires i <= j <= |c|
    ensures ContentSize(c[..i]) <= ContentSize(c[..j])
    decreases j - i
  {
    if i < j {
      PrefixStep(c, j - 1);
      PrefixMono(c, i, j - 1);
    }
  }

  lemma PrefixAll(c: seq<Node>)
    ensures ContentSize(c[..|c|]) == ContentSize(c)
  {
    assert c[..|c|] == c;
  }

  /** The child of `c` that holds relative offset `off`: its index and the
      offset where it starts, or the child count and the size at the end. */
  function FindIndex(c: seq<Node>, off: int): (r: (nat, nat))
    requires 0 <= off <= ContentSize(c)
    ensures r.0 <= |c| && r.1 == ContentSize(c[..r.0]) && r.1 <= off
    ensures r.0 < |c| ==> off < r.1 + NodeSize(c[r.0])
    ensures r.0 == |c| ==> r.1 == off
  {
    PrefixAll(c);
    FindIndexFrom(c, off, 0, 0)
  }

  function FindIndexFrom(c: seq<Node>, off: int, i: nat, cur: nat): (r: (nat, nat))
    requires i <= |c| && cur == ContentSize(c[..i]) && cur <= off <= ContentSize(c)
    ensures i <= r.0 <= |c| && r.1 == ContentSize(c[..r.0]) && r.1 <= off
    ensures r.0 < |c| ==> off < r.1 + NodeSize(c[r.0])
    ensures r.0 == |c| ==> r.1 == off
    decreases |c| - i
  {
    PrefixAll(c);
    if i == |c| then (i, cur)
    else if off < cur + NodeSize(c[i]) then (i, cur)
    else
      PrefixStep(c, i);
      FindIndexFrom(c, off, i + 1, cur + NodeSize(c[i]))
  }

  /** In a fragment whose children all have positive size, the child that
      covers an offset is unique. */
  lemma FindIndexUnique(c: seq<Node>, off: int, i: nat)
    requires forall k :: 0 <= k < |c| ==> NodeSize(c[k]) > 0
    requires i < |c| && ContentSize(c[..i]) <= off < ContentSize(c[..i]) + NodeSize(c[i])
    ensures 0 <= off <= ContentSize(c)
    ensures FindIndex(c, off) == (i, ContentSize(c[..i]))
  {
    PrefixStep(c, i);
    PrefixMono(c, i + 1, |c|);
    PrefixAll(c);
    var r := FindIndex(c, off);
    if r.0 < i {
      PrefixStep(c, r.0);
      PrefixMono(c, r.0 + 1, i);
    } else if r.0 > i {
      PrefixMono(c, i + 1, r.0);
    }
  }

  /** One level of a resolved position: the ancestor node, the index of the
      child the position is in (or before), and the absolute position where
      that child starts. */
  datatype Level = Level(node: Node, index: nat, offset: int)

  /** The path from `n` (whose content starts at `start`) down to the
      innermost element around `pos`, and the position's offset in it. */
  function ResolveLevels(n: Node, start: int, pos: int): (r: (seq<Level>, int))
    requires n.Element? && start <= pos <= start + ContentSize(n.content)
    ensures |r.0| >= 1 && r.0[0].node == n
    decreases n
  {
    var (index, offset) := FindIndex(n.content, pos - start);
    var here := Level(n, index, start + offset);
    if pos == start + offset || !n.content[index].Element? then ([here], pos - start)
    else
      var rest := ResolveLevels(n.content[index], start + offset + 1, pos);
      ([here] + rest.0, rest.1)
  }

  /** A position resolved in a document. */
  datatype ResolvedPos = ResolvedPos(pos: int, path: seq<Level>, parentOffset: int)
  {
    function Depth(): int { |path| - 1 }

    function NodeAt(d: int): Node
      requires 0 <= d < |path|
    {
      path[d].node
    }

    function Parent(): Node
      requires |path| >= 1
    {
      path[|path| - 1].node
    }

    function IndexAt(d: int): nat
      requires 0 <= d < |path|
    {
      path[d].index
    }

    /** The index in the innermost parent (`index()` with no argument). */
    function Index(): nat
      requires |path| >= 1
    {
      path[|path| - 1].index
    }

    /** Where the content of the ancestor at depth `d` starts. */
    function Start(d: int): int
      requires 0 <= d < |path|
    {
      StartAt(path, 0, d)
    }

    /** Where the content of the ancestor at depth `d` ends. */
    function End(d: int): int
      requires 0 <= d < |path|
    {
      EndAt(path, 0, d)
    }

    /** The position before the ancestor at depth `d`, or the position
        itself for `d == Depth() + 1`. */
    function Before(d: int): int
      requires 1 <= d <= |path|
    {
      if d == |path| then pos else path[d - 1].offset
    }

    /** The position after the ancestor at depth `d`, or the position
        itself for `d == Depth() + 1`. */
    function After(d: int): int
      requires 1 <= d <= |path|
    {
      if d == |path| then pos else path[d - 1].offset + NodeSize(path[d].node)
    }

    /** The deepest depth whose content range holds `p` (0 if none below
        the root does). */
    function SharedDepth(p: int): (r: nat)
      requires |path| >= 1
      ensures r < |path|
    {
      SharedDepthFrom(p, |path| - 1)
    }

    function SharedDepthFrom(p: int, d: nat): (r: nat)
      requires d < |path|
      ensures r <= d
      ensures r > 0 ==> Start(r) <= p <= End(r)
      ensures forall k :: r < k <= d ==> !(Start(k) <= p <= End(k))
    {
      if d == 0 then 0
      else if Start(d) <= p <= End(d) then d
      else SharedDepthFrom(p, d - 1)
    }

    predicate SameParent(other: ResolvedPos) {
      pos - parentOffset == other.pos - other.parentOffset
    }

    /** Whether the position lies between two children rather than inside
        a text node. */
    predicate AtNodeBoundary()
      requires |path| >= 1
    {
      pos == path[|path| - 1].offset
    }
  }

  function StartAt(path: seq<Level>, base: int, d: int): int
    requires 0 <= d < |path|
  {
    if d == 0 then base else path[d - 1].offset + 1
  }

  function EndAt(path: seq<Level>, base: int, d: int): int
    requires 0 <= d < |path|
  {
    StartAt(path, base, d) + ContentSize(path[d].node.Children())
  }

  function Resolve(doc: Node, pos: int): (r: ResolvedPos)
    requires doc.Element? && 0 <= pos <= DocSize(doc)
    ensures r.pos == pos && |r.path| >= 1 && r.path[0].node == doc
  {
    var (path, parentOffset) := ResolveLevels(doc, 0, pos);
    ResolvedPos(pos, path, parentOffset)
  }

  /** The facts the path of a resolved position satisfies at level `d`. */
  ghost predicate LevelOk(path: seq<Level>, base: int, d: int)
    requires 0 <= d < |path|
  {
    path[d].node.Element? && path[d].index <= |path[d].node.Children()| &&
    path[d].offset == StartAt(path, base, d) + ContentSize(path[d].node.Children()[..path[d].index])
  }

  /** Each level's node is the indexed child of the one above it. */
  ghost predicate LinkOk(path: seq<Level>, d: int)
    requires 0 <= d < |path| - 1
  {
    path[d].index < |path[d].node.Children()| &&
    path[d + 1].node == path[d].node.Children()[path[d].index]
  }

  /** The innermost level: the position lies in the parent's content, and
      strictly inside a child only when that child is not an element. */
  ghost predicate LastOk(path: seq<Level>, base: int, pos: int, po: int)
    requires |path| >= 1
  {
    var last := path[|path| - 1];
    var c := last.node.Children();
    po == pos - StartAt(path, base, |path| - 1) &&
    0 <= po <= ContentSize(c) && last.offset <= pos &&
    (last.index == |c| ==> last.offset == pos) &&
    (last.index < |c| ==> pos < last.offset + NodeSize(c[last.index]) &&
                          (last.offset < pos ==> !c[last.index].Element?))
  }

  ghost predicate PathOk(path: seq<Level>, base: int, pos: int, po: int) {
    |path| >= 1 &&
    (forall d :: 0 <= d < |path| ==> LevelOk(path, base, d)) &&
    (forall d :: 0 <= d < |path| - 1 ==> LinkOk(path, d)) &&
    LastOk(path, base, pos, po)
  }

  /** A resolved position whose path is consistent with its position. */
  ghost predicate WellFormed(rp: ResolvedPos) {
    PathOk(rp.path, 0, rp.pos, rp.parentOffset)
  }

  /** Prepending the level of the enclosing element keeps a path consistent. */
  lemma PathOkCons(here: Level, rest: seq<Level>, start: int, pos: int, po: int)
    requires PathOk(rest, here.offset + 1, pos, po)
    requires here.node.Element? && here.index < |here.node.content|
    requires here.offset == start + ContentSize(here.node.content[..here.index])
    requires rest[0].node == here.node.content[here.index]
    ensures PathOk([here] + rest, start, pos, po)
  {
    var path := [here] + rest;
    forall d | 0 <= d < |path| ensures LevelOk(path, start, d) {
      if d > 0 {
        assert path[d] == rest[d - 1];
        assert StartAt(path, start, d) == StartAt(rest, here.offset + 1, d - 1);
        assert LevelOk(rest, here.offset + 1, d - 1);
      }
    }
    forall d | 0 <= d < |path| - 1 ensures LinkOk(path, d) {
      if d > 0 {
        assert path[d] == rest[d - 1] && path[d + 1] == rest[d];
        assert LinkOk(rest, d - 1);
      }
    }
    assert path[|path| - 1] == rest[|rest| - 1];
    assert StartAt(path, start, |path| - 1) == StartAt(rest, here.offset + 1, |rest| - 1);
  }

  /** A single level is consistent when the position does not enter an
      element child. */
  lemma PathOkSingle(here: Level, start: int, pos: int)
    requires here.node.Element? && start <= pos <= start + ContentSize(here.node.content)
    requires here.index <= |here.node.content|
    requires here.offset == start + ContentSize(here.node.content[..here.index]) <= pos
    requires here.index == |here.node.content| ==> here.offset == pos
    requires here.index < |here.node.content| ==>
               pos < here.offset + NodeSize(here.node.content[here.index]) &&
               (here.offset < pos ==> !here.node.content[here.index].Element?)
    ensures PathOk([here], start, pos, pos - start)
  {
    assert LevelOk([here], start, 0);
  }

  lemma {:induction false} ResolveLevelsOk(n: Node, start: int, pos: int)
    requires n.Element? && start <= pos <= start + ContentSize(n.content)
    ensures PathOk(ResolveLevels(n, start, pos).0, start, pos, ResolveLevels(n, start, pos).1)
    decreases n
  {
    var fi := FindIndex(n.content, pos - start);
    if pos == start + fi.1 || !n.content[fi.0].Element? {
      LeafLevelOk(n, start, pos);
    } else {
      ResolveLevelsOk(n.content[fi.0], start + fi.1 + 1, pos);
      EnterLevelOk(n, start, pos);
    }
  }

  /** A position that does not enter an element child resolves to one
      consistent level. */
  lemma LeafLevelOk(n: Node, start: int, pos: int)
    requires n.Element? && start <= pos <= start + ContentSize(n.content)
    requires var fi := FindIndex(n.content, pos - start);
      pos == start + fi.1 || !n.content[fi.0].Element?
    ensures PathOk(ResolveLevels(n, start, pos).0, start, pos, ResolveLevels(n, start, pos).1)
  {
    var fi := FindIndex(n.content, pos - start);
    var here := Level(n, fi.0, start + fi.1);
    assert ResolveLevels(n, start, pos) == ([here], pos - start);
    PathOkSingle(here, start, pos);
  }

  /** A position inside an element child gets a consistent path when the
      child's own resolution is consistent. */
  lemma EnterLevelOk(n: Node, start: int, pos: int)
    requires n.Element? && start <= pos <= start + ContentSize(n.content)
    requires var fi := FindIndex(n.content, pos - start);
      pos != start + fi.1 && n.content[fi.0].Element? &&
      PathOk(ResolveLevels(n.content[fi.0], start + fi.1 + 1, pos).0, start + fi.1 + 1, pos,
             ResolveLevels(n.content[fi.0], start + fi.1 + 1, pos).1)
    ensures PathOk(ResolveLevels(n, start, pos).0, start, pos, ResolveLevels(n, start, pos).1)
  {
    var fi := FindIndex(n.content, pos - start);
    var here := Level(n, fi.0, start + fi.1);
    var rest := ResolveLevels(n.content[fi.0], start + fi.1 + 1, pos);
    assert ResolveLevels(n, start, pos) == ([here] + rest.0, rest.1);
    PathOkCons(here, rest.0, start, pos, rest.1);
  }

  lemma ResolveWellFormed(doc: Node, pos: int)
    requires doc.Element? && 0 <= pos <= DocSize(doc)
    ensures WellFormed(Resolve(doc, pos))
  {
    ResolveLevelsOk(doc, 0, pos);
  }

  /** The ancestor at depth `d + 1` sits strictly inside the content of the
      ancestor at depth `d`: it starts at `path[d].offset` and has the size
      of that child. */
  lemma PathNesting(path: seq<Level>, base: int, pos: int, po: int, d: int)
    requires PathOk(path, base, pos, po) && 0 <= d < |path| - 1
    ensures StartAt(path, base, d + 1) == path[d].offset + 1
    ensures EndAt(path, base, d + 1) == path[d].offset + NodeSize(path[d + 1].node) - 1
    ensures StartAt(path, base, d) <= path[d].offset
    ensures path[d].offset + NodeSize(path[d + 1].node) <= EndAt(path, base, d)
  {
    assert LevelOk(path, base, d) && LevelOk(path, base, d + 1) && LinkOk(path, d);
    var c := path[d].node.Children();
    var i := path[d].index;
    PrefixStep(c, i);
    PrefixMono(c, i + 1, |c|);
    PrefixAll(c);
  }

  /** Ancestors' content ranges are nested. */
  lemma {:induction false} PathNested(path: seq<Level>, base: int, pos: int, po: int, d: int, e: int)
    requires PathOk(path, base, pos, po) && 0 <= d <= e < |path|
    ensures StartAt(path, base, d) <= StartAt(path, base, e)
    ensures EndAt(path, base, e) <= EndAt(path, base, d)
    ensures d < e ==> StartAt(path, base, d) < StartAt(path, base, e)
    decreases e - d
  {
    if d < e {
      PathNesting(path, base, pos, po, e - 1);
      PathNested(path, base, pos, po, d, e - 1);
    }
  }

  lemma Nesting(rp: ResolvedPos, d: int)
    requires WellFormed(rp) && 0 <= d < rp.Depth()
    ensures rp.Before(d + 1) == rp.Start(d + 1) - 1 && rp.After(d + 1) == rp.End(d + 1) + 1
    ensures rp.Start(d) <= rp.Before(d + 1) && rp.After(d + 1) <= rp.End(d)
  {
    PathNesting(rp.path, 0, rp.pos, rp.parentOffset, d);
  }

  /** A resolved position lies in the content of every ancestor, and every
      ancestor's content lies inside the document. */
  lemma Bounds(rp: ResolvedPos, d: int)
    requires WellFormed(rp) && 0 <= d <= rp.Depth()
    ensures 0 <= rp.Start(0) <= rp.Start(d) <= rp.pos <= rp.End(d) <= rp.End(0)
  {
    assert LastOk(rp.path, 0, rp.pos, rp.parentOffset);
    PathNested(rp.path, 0, rp.pos, rp.parentOffset, d, rp.Depth());
    PathNested(rp.path, 0, rp.pos, rp.parentOffset, 0, d);
  }

  /** `before(d) <= pos <= after(d)`, strictly for a real ancestor, and both
      stay inside the document. */
  lemma BeforeAfter(rp: ResolvedPos, d: int)
    requires WellFormed(rp) && 1 <= d <= rp.Depth() + 1
    ensures 0 <= rp.Before(d) <= rp.pos <= rp.After(d) <= rp.End(0)
    ensures d <= rp.Depth() ==> rp.Before(d) < rp.pos < rp.After(d)
  {
    Bounds(rp, d - 1);
    if d <= rp.Depth() {
      Bounds(rp, d);
      Nesting(rp, d - 1);
    } else {
      Bounds(rp, rp.Depth());
    }
  }

  lemma ChildrenPositive(n: Node)
    requires n.Element? && Valid(n)
    ensures forall k :: 0 <= k < |n.content| ==> NodeSize(n.content[k]) > 0
  {
    forall k | 0 <= k < |n.content| ensures NodeSize(n.content[k]) > 0 {
      ValidSizePositive(n.content[k]);
    }
  }

  /** When the path goes below `n`, it enters the element child at its
      first index and continues with that child's own path. */
  lemma ResolveTail(n: Node, start: int, p: int)
    requires n.Element? && start <= p <= start + ContentSize(n.content)
    requires |ResolveLevels(n, start, p).0| > 1
    ensures var P := ResolveLevels(n, start, p); var i := P.0[0].index; var off := P.0[0].offset;
      i < |n.content| && n.content[i].Element? &&
      off == start + ContentSize(n.content[..i]) && off < p < off + NodeSize(n.content[i]) &&
      P == ([P.0[0]] + ResolveLevels(n.content[i], off + 1, p).0, ResolveLevels(n.content[i], off + 1, p).1)
  {
  }

  /** A position strictly inside an element child is resolved through it. */
  lemma ResolveEnters(n: Node, start: int, q: int, i: nat, off: int)
    requires n.Element? && Valid(n) && i < |n.content| && n.content[i].Element?
    requires off == start + ContentSize(n.content[..i]) && off < q < off + NodeSize(n.content[i])
    ensures start <= q <= start + ContentSize(n.content)
    ensures var Q := ResolveLevels(n, start, q);
      |Q.0| > 1 && Q.0[0] == Level(n, i, off) &&
      Q == ([Q.0[0]] + ResolveLevels(n.content[i], off + 1, q).0, ResolveLevels(n.content[i], off + 1, q).1)
  {
    ChildrenPositive(n);
    FindIndexUnique(n.content, q - start, i);
  }

  /** The content ranges below the first level, seen from the tail path. */
  lemma TailRange(n: Node, start: int, p: int, d: int)
    requires n.Element? && start <= p <= start + ContentSize(n.content)
    requires 1 <= d < |ResolveLevels(n, start, p).0|
    ensures var P := ResolveLevels(n, start, p).0; var i := P[0].index; var off := P[0].offset;
      i < |n.content| &&
      var T := ResolveLevels(n.content[i], off + 1, p).0;
      d - 1 < |T| && P[d] == T[d - 1] &&
      StartAt(P, start, d) == StartAt(T, off + 1, d - 1) &&
      EndAt(P, start, d) == EndAt(T, off + 1, d - 1) &&
      off + 1 <= StartAt(P, start, d) && EndAt(P, start, d) <= off + NodeSize(n.content[i]) - 1
  {
    var rP := ResolveLevels(n, start, p);
    ResolveTail(n, start, p);
    ResolveLevelsOk(n, start, p);
    PathNested(rP.0, start, p, rP.1, 1, d);
    PathNesting(rP.0, start, p, rP.1, 0);
  }

  /** When `q` lies in the content of the ancestor at depth `d` of `p`,
      resolving `q` in the same tree passes through the same ancestors down
      to depth `d`. */
  lemma {:induction false} ResolveAgrees(n: Node, start: int, p: int, q: int, d: nat)
    requires AgreesPre(n, start, p, q, d)
    ensures AgreesAt(n, start, p, q, d)
    decreases n
  {
    if d > 0 {
      var i, off := AgreesDescend(n, start, p, q, d);
      ResolveAgrees(n.content[i], off + 1, p, q, d - 1);
    }
  }

  /** `q` lies in the content of the ancestor at depth `d` of `p`, both
      resolved in `n` from `start`. */
  ghost predicate AgreesPre(n: Node, start: int, p: int, q: int, d: nat) {
    n.Element? && Valid(n) &&
    start <= p <= start + ContentSize(n.content) &&
    start <= q <= start + ContentSize(n.content) &&
    d < |ResolveLevels(n, start, p).0| &&
    StartAt(ResolveLevels(n, start, p).0, start, d) <= q <= EndAt(ResolveLevels(n, start, p).0, start, d)
  }

  /** The paths of `p` and `q` resolved in `n` from `start` both reach depth
      `d`, through the same node there. */
  ghost predicate AgreesAt(n: Node, start: int, p: int, q: int, d: nat) {
    n.Element? &&
    start <= p <= start + ContentSize(n.content) &&
    start <= q <= start + ContentSize(n.content) &&
    d < |ResolveLevels(n, start, p).0| && d < |ResolveLevels(n, start, q).0| &&
    ResolveLevels(n, start, q).0[d].node == ResolveLevels(n, start, p).0[d].node
  }

  /** One step of `ResolveAgrees`: both positions are resolved through the
      same child, so agreement one level down there gives agreement here. */
  lemma AgreesDescend(n: Node, start: int, p: int, q: int, d: nat) returns (i: nat, off: int)
    requires AgreesPre(n, start, p, q, d) && d > 0
    ensures i < |n.content| && AgreesPre(n.content[i], off + 1, p, q, d - 1)
    ensures AgreesAt(n.content[i], off + 1, p, q, d - 1) ==> AgreesAt(n, start, p, q, d)
  {
    i, off := AgreesEnter(n, start, p, q, d);
    if AgreesAt(n.content[i], off + 1, p, q, d - 1) {
      AgreesLift(n, start, p, q, d, i, off);
    }
  }

  /** Both positions are resolved through the same child of `n`. */
  lemma AgreesEnter(n: Node, start: int, p: int, q: int, d: nat) returns (i: nat, off: int)
    requires AgreesPre(n, start, p, q, d) && d > 0
    ensures i < |n.content| && AgreesPre(n.content[i], off + 1, p, q, d - 1)
    ensures ResolveLevels(n, start, p).0 ==
            [ResolveLevels(n, start, p).0[0]] + ResolveLevels(n.content[i], off + 1, p).0
    ensures ResolveLevels(n, start, q).0 ==
            [ResolveLevels(n, start, q).0[0]] + ResolveLevels(n.content[i], off + 1, q).0
  {
    var P := ResolveLevels(n, start, p).0;
    TailRange(n, start, p, d);
    ResolveTail(n, start, p);
    i, off := P[0].index, P[0].offset;
    ResolveEnters(n, start, q, i, off);
  }

  /** Agreement in the child both paths enter lifts to agreement in `n`. */
  lemma AgreesLift(n: Node, start: int, p: int, q: int, d: nat, i: nat, off: int)
    requires n.Element? && i < |n.content| && d > 0
    requires start <= p <= start + ContentSize(n.content) && start <= q <= start + ContentSize(n.content)
    requires AgreesAt(n.content[i], off + 1, p, q, d - 1)
    requires ResolveLevels(n, start, p).0 ==
             [ResolveLevels(n, start, p).0[0]] + ResolveLevels(n.content[i], off + 1, p).0
    requires ResolveLevels(n, start, q).0 ==
             [ResolveLevels(n, start, q).0[0]] + ResolveLevels(n.content[i], off + 1, q).0
    ensures AgreesAt(n, start, p, q, d)
  {
    ConsLevels(ResolveLevels(n, start, p).0, ResolveLevels(n.content[i], off + 1, p).0,
               ResolveLevels(n, start, q).0, ResolveLevels(n.content[i], off + 1, q).0, d);
  }

  /** Two paths that each extend a tail by one level agree at depth `d` when
      their tails agree at depth `d - 1`. */
  lemma ConsLevels(P: seq<Level>, TP: seq<Level>, Q: seq<Level>, TQ: seq<Level>, d: nat)
    requires |P| >= 1 && |Q| >= 1 && P == [P[0]] + TP && Q == [Q[0]] + TQ
    requires 1 <= d && d - 1 < |TP| && d - 1 < |TQ| && TQ[d - 1].node == TP[d - 1].node
    ensures d < |Q| && Q[d].node == P[d].node
  {
  }

  /** The path below the first level is itself consistent, with the content
      of the entered child as its base. */
  lemma PathTail(path: seq<Level>, base: int, pos: int, po: int)
    requires PathOk(path, base, pos, po) && |path| > 1
    ensures PathOk(path[1..], path[0].offset + 1, pos, po)
  {
    var tail := path[1..];
    var b := path[0].offset + 1;
    forall k | 0 <= k < |tail| ensures StartAt(tail, b, k) == StartAt(path, base, k + 1) {
    }
    forall k | 0 <= k < |tail| ensures LevelOk(tail, b, k) {
      assert LevelOk(path, base, k + 1);
    }
    forall k | 0 <= k < |tail| - 1 ensures LinkOk(tail, k) {
      assert LinkOk(path, k + 1);
    }
    assert LastOk(path, base, pos, po);
  }

  /** Below the first level, the innermost parent starts inside the child
      the path enters. */
  lemma InnermostInsideChild(path: seq<Level>, base: int, pos: int, po: int)
    requires PathOk(path, base, pos, po) && |path| > 1
    ensures var c := path[0].node.Children(); var i := path[0].index;
      i < |c| && path[1].node == c[i] && path[0].offset == base + ContentSize(c[..i]) &&
      path[0].offset < StartAt(path, base, |path| - 1) < path[0].offset + NodeSize(c[i])
  {
    PathNested(path, base, pos, po, 1, |path| - 1);
    PathNesting(path, base, pos, po, 0);
    assert LevelOk(path, base, 0) && LinkOk(path, 0);
  }

  /** Positions strictly inside two different children of one node differ. */
  lemma InsideDistinctChildren(c: seq<Node>, i: nat, j: nat, base: int, x: int, y: int)
    requires i < |c| && j < |c| && i < j
    requires base + ContentSize(c[..i]) < x < base + ContentSize(c[..i]) + NodeSize(c[i])
    requires base + ContentSize(c[..j]) < y
    ensures x != y
  {
    PrefixStep(c, i);
    PrefixMono(c, i + 1, j);
  }

  /** A path deeper than one level has its innermost parent start after its base. */
  lemma DeeperStartsLater(P: seq<Level>, base: int, p: int, poP: int)
    requires PathOk(P, base, p, poP) && |P| > 1
    ensures base < StartAt(P, base, |P| - 1)
  {
    InnermostInsideChild(P, base, p, poP);
  }

  /** Two deeper paths from one node whose innermost parents start at the same
      position enter the same child. */
  lemma SameStartSameChild(P: seq<Level>, Q: seq<Level>, base: int, p: int, q: int, poP: int, poQ: int)
    requires PathOk(P, base, p, poP) && PathOk(Q, base, q, poQ) && |P| > 1 && |Q| > 1
    requires P[0].node == Q[0].node
    requires StartAt(P, base, |P| - 1) == StartAt(Q, base, |Q| - 1)
    ensures P[0].index == Q[0].index
  {
    InnermostInsideChild(P, base, p, poP);
    InnermostInsideChild(Q, base, q, poQ);
    var c := P[0].node.Children();
    if P[0].index < Q[0].index {
      InsideDistinctChildren(c, P[0].index, Q[0].index, base,
                             StartAt(P, base, |P| - 1), StartAt(Q, base, |Q| - 1));
    } else if Q[0].index < P[0].index {
      InsideDistinctChildren(c, Q[0].index, P[0].index, base,
                             StartAt(Q, base, |Q| - 1), StartAt(P, base, |P| - 1));
    }
  }

  /** Two paths that enter the same child of their common first node give
      consistent tails that again start in one node with one innermost start. */
  lemma SameChildTails(P: seq<Level>, Q: seq<Level>, base: int, p: int, q: int, poP: int, poQ: int)
    requires PathOk(P, base, p, poP) && PathOk(Q, base, q, poQ) && |P| > 1 && |Q| > 1
    requires P[0].node == Q[0].node && P[0].index == Q[0].index
    requires StartAt(P, base, |P| - 1) == StartAt(Q, base, |Q| - 1)
    ensures PathOk(P[1..], P[0].offset + 1, p, poP) && PathOk(Q[1..], P[0].offset + 1, q, poQ)
    ensures P[1..][0].node == Q[1..][0].node
    ensures StartAt(P[1..], P[0].offset + 1, |P[1..]| - 1) == StartAt(Q[1..], P[0].offset + 1, |Q[1..]| - 1)
  {
    InnermostInsideChild(P, base, p, poP);
    InnermostInsideChild(Q, base, q, poQ);
    PathTail(P, base, p, poP);
    PathTail(Q, base, q, poQ);
  }

  /** Two consistent paths from the same node whose innermost parents start
      at the same position end at the same depth in the same node: the
      arithmetic `sameParent` test is sound. */
  lemma {:induction false} SameStartSameParent(P: seq<Level>, Q: seq<Level>, base: int,
                                               p: int, q: int, poP: int, poQ: int)
    requires PathOk(P, base, p, poP) && PathOk(Q, base, q, poQ) && P[0].node == Q[0].node
    requires StartAt(P, base, |P| - 1) == StartAt(Q, base, |Q| - 1)
    ensures |P| == |Q| && P[|P| - 1].node == Q[|Q| - 1].node
    decreases |P|
  {
    if |P| > 1 && |Q| > 1 {
      SameStartSameChild(P, Q, base, p, q, poP, poQ);
      SameChildTails(P, Q, base, p, q, poP, poQ);
      SameStartSameParent(P[1..], Q[1..], P[0].offset + 1, p, q, poP, poQ);
      assert P[|P| - 1] == P[1..][|P[1..]| - 1] && Q[|Q| - 1] == Q[1..][|Q[1..]| - 1];
    } else if |P| > 1 {
      DeeperStartsLater(P, base, p, poP);
    } else if |Q| > 1 {
      DeeperStartsLater(Q, base, q, poQ);
    }
  }

  /** `sameParent` on positions resolved in one document means the same
      parent node. */
  lemma SameParentSound(doc: Node, a: int, b: int)
    requires doc.Element? && 0 <= a <= DocSize(doc) && 0 <= b <= DocSize(doc)
    requires Resolve(doc, a).SameParent(Resolve(doc, b))
    ensures Resolve(doc, a).Depth() == Resolve(doc, b).Depth()
    ensures Resolve(doc, a).Parent() == Resolve(doc, b).Parent()
  {
    ResolveWellFormed(doc, a);
    ResolveWellFormed(doc, b);
    SameParentPaths(Resolve(doc, a), Resolve(doc, b));
  }

  lemma SameParentPaths(ra: ResolvedPos, rb: ResolvedPos)
    requires WellFormed(ra) && WellFormed(rb) && ra.path[0].node == rb.path[0].node
    requires ra.SameParent(rb)
    ensures ra.Depth() == rb.Depth() && ra.Parent() == rb.Parent()
  {
    ParentStart(ra);
    ParentStart(rb);
    SameStartSameParent(ra.path, rb.path, 0, ra.pos, rb.pos, ra.parentOffset, rb.parentOffset);
  }

  /** The parent's content starts `parentOffset` before the position. */
  lemma ParentStart(rp: ResolvedPos)
    requires WellFormed(rp)
    ensures StartAt(rp.path, 0, |rp.path| - 1) == rp.pos - rp.parentOffset
  {
    assert LastOk(rp.path, 0, rp.pos, rp.parentOffset);
  }

  /** A position inside the content of an ancestor of another resolved
      position resolves through that ancestor too. */
  lemma SharedAncestor(doc: Node, a: int, b: int, d: int)
    requires ValidDoc(doc) && 0 <= a <= DocSize(doc) && 0 <= b <= DocSize(doc)
    requires 0 <= d <= Resolve(doc, a).Depth()
    requires Resolve(doc, a).Start(d) <= b <= Resolve(doc, a).End(d)
    ensures d <= Resolve(doc, b).Depth() && Resolve(doc, b).NodeAt(d) == Resolve(doc, a).NodeAt(d)
  {
    ResolveAgrees(doc, 0, a, b, d);
  }

  /** Every ancestor on the path of a position in a valid tree is valid. */
  lemma {:induction false} PathValid(path: seq<Level>, base: int, pos: int, po: int, d: int)
    requires PathOk(path, base, pos, po) && Valid(path[0].node) && 0 <= d < |path|
    ensures Valid(path[d].node)
    decreases d
  {
    if d > 0 {
      PathValid(path, base, pos, po, d - 1);
      assert LinkOk(path, d - 1) && LevelOk(path, base, d - 1);
    }
  }

  /** In a fragment of positive-size children, the prefix before `i` is
      empty only for `i == 0`, and the part after child `i` is empty only
      when `i` is the last child. */
  lemma PrefixGaps(c: seq<Node>, i: nat)
    requires forall k :: 0 <= k < |c| ==> NodeSize(c[k]) > 0
    requires i < |c|
    ensures ContentSize(c[..i]) == 0 <==> i == 0
    ensures ContentSize(c[..i + 1]) <= ContentSize(c)
    ensures ContentSize(c[..i + 1]) == ContentSize(c) <==> i + 1 == |c|
  {
    PrefixAll(c);
    PrefixStep(c, i);
    PrefixMono(c, i + 1, |c|);
    if i > 0 {
      PrefixStep(c, 0);
      PrefixMono(c, 1, i);
    }
    if i + 1 < |c| {
      PrefixStep(c, i + 1);
      PrefixMono(c, i + 2, |c|);
    }
  }

  /** How the content ranges of two consecutive ancestors relate: the inner
      one starts after the siblings before it and one opening token, and
      ends one closing token and the siblings after it before the outer end. */
  lemma LevelGaps(rp: ResolvedPos, d: int)
    requires WellFormed(rp) && Valid(rp.path[0].node) && 0 <= d < rp.Depth()
    ensures var c := rp.NodeAt(d).Children(); var i := rp.IndexAt(d);
      i < |c| && forall k :: 0 <= k < |c| ==> NodeSize(c[k]) > 0
    ensures var c := rp.NodeAt(d).Children(); var i := rp.IndexAt(d);
      rp.Start(d + 1) == rp.Start(d) + ContentSize(c[..i]) + 1 &&
      rp.End(d) == rp.End(d + 1) + 1 + (ContentSize(c) - ContentSize(c[..i + 1]))
  {
    var path := rp.path;
    assert LevelOk(path, 0, d) && LinkOk(path, d);
    PathValid(path, 0, rp.pos, rp.parentOffset, d);
    ChildrenPositive(path[d].node);
    PathNesting(path, 0, rp.pos, rp.parentOffset, d);
    PrefixStep(path[d].node.Children(), path[d].index);
  }

  /** Node.childBefore: the child that ends at or after `off` and starts
      before it (its index and start offset), or index and offset 0 for
      offset 0. */
  function ChildBefore(n: Node, off: int): (r: (nat, nat))
    requires n.Element? && Valid(n) && 0 <= off <= ContentSize(n.content)
    ensures r.0 <= |n.content| && r.1 == ContentSize(n.content[..r.0])
    ensures off == 0 ==> r == (0, 0)
    ensures off > 0 ==> r.0 < |n.content| && r.1 < off <= r.1 + NodeSize(n.content[r.0])
  {
    if off == 0 then (0, 0)
    else
      var (index, offset) := FindIndex(n.content, off);
      if offset < off then (index, offset)
      else
        ChildrenPositive(n);
        PrefixStep(n.content, index - 1);
        (index - 1, offset - NodeSize(n.content[index - 1]))
  }

  /** The two ends of a document resolve at depth 0. */
  lemma EndsResolveAtRoot(doc: Node)
    requires doc.Element?
    ensures Resolve(doc, 0).Depth() == 0
    ensures Resolve(doc, DocSize(doc)).Depth() == 0
  {
    var c := doc.content;
    var (i, o) := FindIndex(c, DocSize(doc));
    if i < |c| {
      PrefixStep(c, i);
      PrefixMono(c, i + 1, |c|);
      PrefixAll(c);
    }
  }
}
