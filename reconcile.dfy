/**
 * Reading a DOM change back into the document: parse the DOM between two
 * positions, widening the range until the parse succeeds; compare the old
 * content of that range with the parsed content; and decide what to do
 * with the difference (nothing, a synthetic Enter key, typed text, or a
 * replacement), which nodes to redraw, and how to map the edited range and
 * the parsed selection through changes made meanwhile.
 */
module Reconcile {
  import opened Wrappers
  import opened Document
  import opened InlineText
  import opened Diff
  import opened Ranges

  /** Both ends of a range are positions in the document. */
  predicate InDoc(doc: Node, r: Range)
    requires doc.Element?
  {
    0 <= r.from <= DocSize(doc) && 0 <= r.to <= DocSize(doc)
  }

  /** The range after `n` widening steps. */
  function WidenTimes(doc: Node, r: Range, n: nat): (w: Range)
    requires doc.Element? && InDoc(doc, r)
    ensures InDoc(doc, w) && w.from <= r.from && r.to <= w.to
  {
    if n == 0 then r
    else
      var prev := WidenTimes(doc, r, n - 1);
      WidenGrows(doc, prev);
      Widen(doc, prev)
  }

  /** `rs` is the sequence of ranges the retry loop tries: it starts at
      `range`, and each next range is the widening of the one before. */
  ghost predicate Trace(doc: Node, range: Range, rs: seq<Range>)
    requires doc.Element?
  {
    |rs| >= 1 && rs[0] == range &&
    (forall i :: 0 <= i < |rs| ==> InDoc(doc, rs[i])) &&
    (forall i :: 0 <= i < |rs| - 1 ==> rs[i + 1] == Widen(doc, rs[i]))
  }

  /** The parse fails on every range of `rs` but the last. */
  ghost predicate AllButLastFail<P>(rs: seq<Range>, parse: (int, int) -> Option<P>)
  {
    forall i :: 0 <= i < |rs| - 1 ==> parse(rs[i].from, rs[i].to).None?
  }

  /** The tried ranges are exactly the successive widenings of the first. */
  lemma {:induction false} TraceIsWidenTimes(doc: Node, range: Range, rs: seq<Range>, i: nat)
    requires doc.Element? && InDoc(doc, range) && Trace(doc, range, rs) && i < |rs|
    ensures rs[i] == WidenTimes(doc, range, i)
  {
    if i > 0 {
      TraceIsWidenTimes(doc, range, rs, i - 1);
    }
  }

  /** Each tried range contains every range tried before it, and all of
      them lie in the document. */
  lemma {:induction false} TraceGrows(doc: Node, range: Range, rs: seq<Range>, i: nat, j: nat)
    requires doc.Element? && Trace(doc, range, rs) && i <= j < |rs|
    ensures InDoc(doc, rs[j]) && rs[j].from <= rs[i].from && rs[i].to <= rs[j].to
  {
    if i < j {
      TraceGrows(doc, range, rs, i, j - 1);
      WidenGrows(doc, rs[j - 1]);
    }
  }

  /** The retry loop of `readDOMChange`: parse between the two ends and,
      while that fails, widen the range. Once the range is the whole
      document and the parse still fails, the source retries that same
      range forever; the model stops there and answers `None`. */
  method ParseRange<P>(doc: Node, range: Range, parse: (int, int) -> Option<P>)
    returns (r: Option<Range>, ghost tried: seq<Range>)
    requires doc.Element? && InDoc(doc, range)
    ensures Trace(doc, range, tried) && AllButLastFail(tried, parse)
    ensures r.Some? ==> r.value == tried[|tried| - 1] && parse(r.value.from, r.value.to).Some?
    ensures r.None? ==> tried[|tried| - 1] == Range(0, DocSize(doc)) && parse(0, DocSize(doc)).None?
    ensures r.Some? ==> InDoc(doc, r.value) && r.value.from <= range.from && range.to <= r.value.to
    ensures r.None? ==> parse(0, DocSize(doc)).None?
  {
    var cur := range;
    tried := [range];
    while parse(cur.from, cur.to).None?
      invariant InDoc(doc, cur) && Trace(doc, range, tried) && tried[|tried| - 1] == cur
      invariant cur.from <= range.from && range.to <= cur.to
      invariant AllButLastFail(tried, parse)
      decreases cur.from + (DocSize(doc) - cur.to)
    {
      if cur == Range(0, DocSize(doc)) {
        return None, tried;
      }
      WidenGrows(doc, cur);
      TraceStep(doc, range, tried, parse);
      cur := Widen(doc, cur);
      tried := tried + [cur];
    }
    r := Some(cur);
  }

  /** Widening the last tried range after its parse failed extends the trace. */
  lemma TraceStep<P>(doc: Node, range: Range, rs: seq<Range>, parse: (int, int) -> Option<P>)
    requires doc.Element? && Trace(doc, range, rs) && AllButLastFail(rs, parse)
    requires parse(rs[|rs| - 1].from, rs[|rs| - 1].to).None?
    ensures InDoc(doc, Widen(doc, rs[|rs| - 1]))
    ensures Trace(doc, range, rs + [Widen(doc, rs[|rs| - 1])])
    ensures AllButLastFail(rs + [Widen(doc, rs[|rs| - 1])], parse)
  {
    var last := rs[|rs| - 1];
    assert InDoc(doc, last);
    WidenGrows(doc, last);
    var next := rs + [Widen(doc, last)];
    forall i | 0 <= i < |next| ensures InDoc(doc, next[i]) {
      if i < |rs| { assert next[i] == rs[i]; }
    }
    forall i | 0 <= i < |next| - 1 ensures next[i + 1] == Widen(doc, next[i]) {
      assert next[i] == rs[i];
    }
    forall i | 0 <= i < |next| - 1 ensures parse(next[i].from, next[i].to).None? {
      assert next[i] == rs[i];
    }
  }

  // ---------------------------------------------------------------------
  // From the parsed content to an action.

  /** A selection read back from the DOM. */
  datatype Sel = Sel(anchor: int, head: int)

  /** A successful parse of the DOM between two positions: a document whose
      content stands for that range, and the selection found in it (in the
      parsed document's coordinates shifted by the range start). */
  datatype Parsed = Parsed(doc: Node, sel: Option<Sel>)

  /** What the library's `findDiffStart` and `findDiffEnd` report: the first
      differing position from the left (None for equal contents), and how
      many positions match from the right. */
  datatype DiffScan = DiffScan(start: Option<int>, common: nat)

  /** The transaction step the change becomes: typed text replacing
      `from..to`, or `from..to` replaced by the parsed slice
      `sliceFrom..sliceTo`. */
  datatype Step =
    | InsertText(text: string, from: int, to: int)
    | Replace(from: int, to: int, sliceFrom: int, sliceTo: int)

  /** What `readDOMChange` ends with: nothing, an Enter key handed to the
      host, typed text taken over by the host, or a dispatched transaction
      (its step and the selection it sets, if any). */
  datatype Effect =
    | NoEffect
    | EnterKey
    | TextInputHandled
    | Dispatch(step: Step, selection: Option<Sel>)

  /** The range marked dirty for redrawing, if any, and the effect. */
  datatype Outcome = Outcome(dirty: Option<Range>, effect: Effect)

  /** What the surrounding view and the library answer:
      the head of the first text selection at or after a position of the
      parsed document (`Selection.findFrom`), whether the host handles a
      synthetic Enter key and typed text (`handleKeyDown` and
      `handleTextInput`), the mapping of changes made meanwhile
      (`domChangeMapping`), and the visits of `nodesBetween` over the
      parsed document. */
  datatype Env = Env(
    nextSelHead: int -> Option<int>,
    handlesEnter: bool,
    handlesText: (int, int, string) -> bool,
    mapping: Option<int -> int>,
    nodesBetween: (int, int) -> seq<Visit>)

  /** What the library guarantees of a scan over contents of sizes `sizeA`
      (the old range) and `sizeB` (the parsed content), both placed at
      `pos`: the left scan stops inside both, and the right scan matches at
      most the shorter one. */
  predicate ScanOk(pos: int, sizeA: int, sizeB: int, scan: DiffScan) {
    (scan.start.Some? ==> pos <= scan.start.value <= pos + sizeA && scan.start.value <= pos + sizeB) &&
    scan.common <= sizeA && scan.common <= sizeB
  }

  /** `findDiff` as written on the old range and the parsed content, with
      the ambiguity resolved towards the old selection's start: a first
      difference at position 0 counts as none. */
  function ChangeOf(range: Range, sizeB: int, scan: DiffScan, selFrom: int): Option<Change>
  {
    var sizeA := range.to - range.from;
    FindDiff(scan.start, range.from + sizeA - scan.common, range.from + sizeB - scan.common,
             sizeA, sizeB, selFrom)
  }

  /** The same with `findDiff` as intended. */
  function ChangeOfIntended(range: Range, sizeB: int, scan: DiffScan, selFrom: int): Option<Change>
  {
    var sizeA := range.to - range.from;
    FindDiffIntended(scan.start, range.from + sizeA - scan.common, range.from + sizeB - scan.common,
                     sizeA, sizeB, selFrom)
  }

  /** Whether `c` lies in the range on the old side and in the parsed
      content on the new side, neither side running backwards. */
  predicate ChangeFits(range: Range, sizeB: int, c: Change) {
    range.from <= c.start <= c.endA <= range.to && c.start <= c.endB <= range.from + sizeB
  }

  /** Either way, a change found fits the range and the parsed content, and
      the written version finds the intended change or none. */
  lemma ChangeInRange(range: Range, sizeB: int, scan: DiffScan, selFrom: int)
    requires range.from <= range.to && 0 <= sizeB
    requires ScanOk(range.from, range.to - range.from, sizeB, scan)
    ensures var c := ChangeOfIntended(range, sizeB, scan, selFrom);
      c.Some? ==> ChangeFits(range, sizeB, c.value)
    ensures var c := ChangeOf(range, sizeB, scan, selFrom);
      c.Some? ==> ChangeFits(range, sizeB, c.value) && c == ChangeOfIntended(range, sizeB, scan, selFrom)
  {
    var sizeA := range.to - range.from;
    var endA, endB := range.from + sizeA - scan.common, range.from + sizeB - scan.common;
    if scan.start.Some? {
      var start := scan.start.value;
      var r := Correct(start, endA, endB, sizeA, sizeB, selFrom);
      if endA < start && sizeA < sizeB {
        assert r.endA == r.start && endA <= r.start <= start;
      } else if endB < start {
        assert sizeB <= sizeA;
        assert r.endB == r.start && endB <= r.start <= start;
      }
    }
  }

  /** The source's test for marking the changed range dirty: the change
      does not start strictly inside one node, or its end leaves the start's
      parent or lies at another index. */
  predicate NeedsRedraw(doc: Node, start: int, endA: int)
    requires doc.Element? && 0 <= start <= DocSize(doc) && 0 <= endA <= DocSize(doc)
  {
    var s := Resolve(doc, start);
    s.AtNodeBoundary() || s.SharedDepth(endA) != s.Depth() || s.Index() != Resolve(doc, endA).Index()
  }

  /** `mapping.map`, or the position itself when nothing changed meanwhile. */
  function MapPos(mapping: Option<int -> int>, p: int): int {
    if mapping.Some? then mapping.value(p) else p
  }

  function MapSel(mapping: Option<int -> int>, sel: Option<Sel>): Option<Sel> {
    if sel.Some? && mapping.Some? then Some(Sel(MapPos(mapping, sel.value.anchor), MapPos(mapping, sel.value.head)))
    else sel
  }

  /** The Enter heuristic: the change splits a parent, and the first
      selection after the new start lands exactly at the new end. */
  predicate LooksLikeEnter(parsed: Node, f: ResolvedPos, t: ResolvedPos, env: Env)
    requires parsed.Element?
  {
    !f.SameParent(t) && f.pos < DocSize(parsed) && env.nextSelHead(f.pos + 1) == Some(t.pos)
  }

  /** The text typed between the two new ends when they share a textblock
      parent and everything between them is text under one mark set. */
  function TypedText(f: ResolvedPos, t: ResolvedPos, env: Env): Option<string>
    requires |f.path| >= 1
  {
    if f.SameParent(t) && f.Parent().IsTextblock() then
      UniformText(env.nodesBetween(f.pos, t.pos), f.pos, t.pos)
    else None
  }

  /** The range to mark dirty for a change: its old side, unless it stays
      inside one node. */
  function Redraw(doc: Node, c: Change): (r: Option<Range>)
    requires doc.Element? && 0 <= c.start <= c.endA <= DocSize(doc)
    ensures r.Some? <==> NeedsRedraw(doc, c.start, c.endA)
    ensures r.Some? ==> r.value == Range(c.start, c.endA)
    ensures r.None? ==> InsideOneText(doc, c.start, c.endA)
  {
    if NeedsRedraw(doc, c.start, c.endA) then Some(Range(c.start, c.endA))
    else
      CleanChangeInsideText(doc, c.start, c.endA);
      None
  }

  /** What is done with a change `c` found in the old range `range`, whose
      new side is read from the parsed document. */
  function Act(range: Range, parsed: Parsed, c: Change, env: Env): (e: Effect)
    requires parsed.doc.Element?
    requires range.from <= c.start <= c.endB <= range.from + DocSize(parsed.doc)
    ensures e != NoEffect
  {
    ActBetween(Resolve(parsed.doc, c.start - range.from), Resolve(parsed.doc, c.endB - range.from),
               parsed, c.start, c.endA, env)
  }

  /** The same decision once the two new ends `f` and `t` are resolved in
      the parsed document, with `start..endA` the old side of the change. */
  function ActBetween(f: ResolvedPos, t: ResolvedPos, parsed: Parsed, start: int, endA: int, env: Env): (e: Effect)
    requires parsed.doc.Element? && |f.path| >= 1
    ensures e != NoEffect
    ensures e == EnterKey <==> LooksLikeEnter(parsed.doc, f, t, env) && env.handlesEnter
    ensures e == TextInputHandled <==>
      !(LooksLikeEnter(parsed.doc, f, t, env) && env.handlesEnter) && TypedText(f, t, env).Some? &&
      env.handlesText(MapPos(env.mapping, start), MapPos(env.mapping, endA), TypedText(f, t, env).value)
    ensures e.Dispatch? ==> (e.step.InsertText? <==> TypedText(f, t, env).Some?)
  {
    if LooksLikeEnter(parsed.doc, f, t, env) && env.handlesEnter then EnterKey
    else
      var from, to := MapPos(env.mapping, start), MapPos(env.mapping, endA);
      var sel := MapSel(env.mapping, parsed.sel);
      var text := TypedText(f, t, env);
      if text.Some? then
        if env.handlesText(from, to, text.value) then TextInputHandled
        else Dispatch(InsertText(text.value, from, to), sel)
      else Dispatch(Replace(from, to, f.pos, t.pos), sel)
  }

  /** The decision once a change `c` is found in the old range `range`. */
  function Decide(doc: Node, range: Range, parsed: Parsed, c: Change, env: Env): (o: Outcome)
    requires doc.Element? && parsed.doc.Element?
    requires 0 <= range.from <= c.start <= c.endA <= range.to <= DocSize(doc)
    requires c.start <= c.endB <= range.from + DocSize(parsed.doc)
    ensures o.effect != NoEffect
    ensures o.dirty.Some? <==> NeedsRedraw(doc, c.start, c.endA)
    ensures o.dirty.None? ==> InsideOneText(doc, c.start, c.endA)
    ensures o.dirty.Some? ==> o.dirty.value == Range(c.start, c.endA)
  {
    Outcome(Redraw(doc, c), Act(range, parsed, c, env))
  }

  /** What follows from the change found, if any: without one, nothing. */
  function Conclude(doc: Node, range: Range, parsed: Parsed, change: Option<Change>, env: Env): (o: Outcome)
    requires doc.Element? && parsed.doc.Element? && 0 <= range.from && range.to <= DocSize(doc)
    requires change.Some? ==> ChangeFits(range, DocSize(parsed.doc), change.value)
    ensures o.effect == NoEffect <==> change.None?
    ensures o.effect == NoEffect ==> o.dirty.None?
  {
    match change
    case None => Outcome(None, NoEffect)
    case Some(c) => Decide(doc, range, parsed, c, env)
  }

  /** Everything `readDOMChange` does after a successful parse of `range`:
      nothing when `findDiff` as written finds no change, which includes a
      first difference at position 0. */
  function ReadChange(doc: Node, selFrom: int, range: Range, parsed: Parsed, scan: DiffScan, env: Env): (o: Outcome)
    requires doc.Element? && parsed.doc.Element?
    requires 0 <= range.from <= range.to <= DocSize(doc)
    requires ScanOk(range.from, range.to - range.from, DocSize(parsed.doc), scan)
    ensures o.effect == NoEffect <==> scan.start.None? || scan.start == Some(0)
    ensures o.effect == NoEffect ==> o.dirty.None?
  {
    ChangeInRange(range, DocSize(parsed.doc), scan, selFrom);
    Conclude(doc, range, parsed, ChangeOf(range, DocSize(parsed.doc), scan, selFrom), env)
  }

  /** The same with `findDiff` as intended: nothing exactly when the
      contents are equal. */
  function ReadChangeIntended(doc: Node, selFrom: int, range: Range, parsed: Parsed, scan: DiffScan, env: Env): (o: Outcome)
    requires doc.Element? && parsed.doc.Element?
    requires 0 <= range.from <= range.to <= DocSize(doc)
    requires ScanOk(range.from, range.to - range.from, DocSize(parsed.doc), scan)
    ensures o.effect == NoEffect <==> scan.start.None?
    ensures o.effect == NoEffect ==> o.dirty.None?
  {
    ChangeInRange(range, DocSize(parsed.doc), scan, selFrom);
    Conclude(doc, range, parsed, ChangeOfIntended(range, DocSize(parsed.doc), scan, selFrom), env)
  }

  /** A change whose first difference is at position 0 (the range starts
      the document) is dropped as written: nothing is redrawn or
      dispatched. As intended, it is acted on, and the two agree wherever
      the first difference is elsewhere. */
  lemma ChangeAtDocStartIsDropped(doc: Node, selFrom: int, range: Range, parsed: Parsed, scan: DiffScan, env: Env)
    requires doc.Element? && parsed.doc.Element?
    requires 0 <= range.from <= range.to <= DocSize(doc)
    requires ScanOk(range.from, range.to - range.from, DocSize(parsed.doc), scan)
    ensures scan.start == Some(0) ==>
      range.from == 0 &&
      ReadChange(doc, selFrom, range, parsed, scan, env) == Outcome(None, NoEffect) &&
      ReadChangeIntended(doc, selFrom, range, parsed, scan, env).effect != NoEffect
    ensures scan.start != Some(0) ==>
      ReadChange(doc, selFrom, range, parsed, scan, env) == ReadChangeIntended(doc, selFrom, range, parsed, scan, env)
  {
    ChangeInRange(range, DocSize(parsed.doc), scan, selFrom);
  }

  /** A dispatched step replaces the old range from the change's start to
      its old end and sets the parsed selection, all four positions mapped
      through the same mapping; without a mapping they are the change's own
      positions and lie in the parsed range; with an order-preserving
      mapping the replaced range still runs forwards. */
  lemma DispatchMapsAlike(range: Range, parsed: Parsed, c: Change, env: Env)
    requires parsed.doc.Element?
    requires range.from <= c.start <= c.endB <= range.from + DocSize(parsed.doc)
    requires c.start <= c.endA <= range.to
    ensures var e := Act(range, parsed, c, env);
      e.Dispatch? ==>
        e.step.from == MapPos(env.mapping, c.start) &&
        e.step.to == MapPos(env.mapping, c.endA) &&
        e.selection == MapSel(env.mapping, parsed.sel) &&
        (env.mapping.None? ==>
           range.from <= e.step.from <= e.step.to <= range.to &&
           e.selection == parsed.sel) &&
        (env.mapping.Some? && (forall x, y :: x <= y ==> env.mapping.value(x) <= env.mapping.value(y)) ==>
           e.step.from <= e.step.to &&
           (parsed.sel.Some? ==> e.selection == Some(Sel(env.mapping.value(parsed.sel.value.anchor),
                                                                env.mapping.value(parsed.sel.value.head)))))
  {
  }

  /** A replacement takes the slice of the parsed document between the new
      ends of the change, which lies inside the parsed content and runs
      forwards. */
  lemma ReplaceSliceInParsed(range: Range, parsed: Parsed, c: Change, env: Env)
    requires parsed.doc.Element?
    requires range.from <= c.start <= c.endB <= range.from + DocSize(parsed.doc)
    ensures var e := Act(range, parsed, c, env);
      e.Dispatch? && e.step.Replace? ==>
        e.step.sliceFrom == c.start - range.from && e.step.sliceTo == c.endB - range.from &&
        0 <= e.step.sliceFrom <= e.step.sliceTo <= DocSize(parsed.doc)
  {
  }

  /** Text is inserted only where both new ends have the same parent (in
      the sense of `SameParentSound`: the same node at the same depth), that
      parent is a textblock, the host declined to take the text, and the
      text is what `uniformTextBetween` reads there. */
  lemma InsertTextOnlyInTextblock(f: ResolvedPos, t: ResolvedPos, parsed: Parsed, start: int, endA: int, env: Env)
    requires parsed.doc.Element? && |f.path| >= 1
    ensures var e := ActBetween(f, t, parsed, start, endA, env);
      e.Dispatch? && e.step.InsertText? ==>
        f.SameParent(t) && f.Parent().IsTextblock() &&
        UniformText(env.nodesBetween(f.pos, t.pos), f.pos, t.pos) == Some(e.step.text) &&
        !env.handlesText(e.step.from, e.step.to, e.step.text)
  {
  }

  /** Typing into a textblock whose content is one run of equally marked
      text: when the traversal passes only block ancestors before reaching
      that run, the dispatched step inserts exactly the parsed text between
      the two new ends, at the mapped old range. */
  lemma TypingInPlainTextblock(f: ResolvedPos, t: ResolvedPos, parsed: Parsed, start: int, endA: int,
                               env: Env, ancestors: seq<Visit>)
    requires parsed.doc.Element? && |f.path| >= 1
    requires f.SameParent(t) && f.Parent().IsTextblock()
    requires PlainRun(f.Parent().content) && f.Parent().content != []
    requires forall v :: v in ancestors ==> !v.node.IsInline() && v.pos < f.pos
    requires env.nodesBetween(f.pos, t.pos) ==
             ancestors + InlineVisits(f.Parent().content, f.pos - f.parentOffset, f.pos, t.pos)
    requires !(LooksLikeEnter(parsed.doc, f, t, env) && env.handlesEnter)
    ensures var from, to := MapPos(env.mapping, start), MapPos(env.mapping, endA);
      var text := Slice(TextOf(f.Parent().content), f.parentOffset, t.pos - (f.pos - f.parentOffset));
      ActBetween(f, t, parsed, start, endA, env) ==
        if env.handlesText(from, to, text) then TextInputHandled
        else Dispatch(InsertText(text, from, to), MapSel(env.mapping, parsed.sel))
  {
    var base := f.pos - f.parentOffset;
    UniformTextOfPlainRun(ancestors, f.Parent().content, base, f.pos, t.pos);
    assert f.pos - base == f.parentOffset;
  }

  /** Without uniform text between the new ends in one textblock, the change
      is either handed to the host as an Enter key or replaced wholesale. */
  lemma NoTypedTextReplaces(range: Range, parsed: Parsed, c: Change, env: Env)
    requires parsed.doc.Element?
    requires range.from <= c.start <= c.endB <= range.from + DocSize(parsed.doc)
    ensures var e := Act(range, parsed, c, env);
      var f := Resolve(parsed.doc, c.start - range.from);
      var t := Resolve(parsed.doc, c.endB - range.from);
      TypedText(f, t, env).None? ==> e == EnterKey || (e.Dispatch? && e.step.Replace?)
  {
  }

  /** The change from `start` to `endA` starts strictly inside a text node
      of its parent, and its old end lies in that parent's content at the
      same index. */
  ghost predicate InsideOneText(doc: Node, start: int, endA: int)
    requires doc.Element? && 0 <= start <= DocSize(doc) && 0 <= endA <= DocSize(doc)
  {
    var s := Resolve(doc, start); var c := s.Parent().Children(); var i := s.Index();
    i < |c| && c[i].Text? &&
    s.path[s.Depth()].offset < start < s.path[s.Depth()].offset + NodeSize(c[i]) &&
    s.Start(s.Depth()) <= endA <= s.End(s.Depth()) &&
    Resolve(doc, endA).Index() == i
  }

  /** A change left clean (not marked dirty) lies inside one text node in
      the sense of `InsideOneText`. */
  lemma CleanChangeInsideText(doc: Node, start: int, endA: int)
    requires doc.Element? && 0 <= start <= endA <= DocSize(doc)
    requires !NeedsRedraw(doc, start, endA)
    ensures InsideOneText(doc, start, endA)
  {
    var s := Resolve(doc, start);
    var c := s.Parent().Children();
    var i := s.Index();
    ResolveWellFormed(doc, start);
    assert LastOk(s.path, 0, start, s.parentOffset);
    var last := s.path[|s.path| - 1];
    assert last.index == i && last.node.Children() == c && last.offset < start;
    assert LevelOk(s.path, 0, |s.path| - 1);
    assert i < |c| && !c[i].Element?;
    assert c[i].Text?;
    if s.Depth() == 0 {
      assert s.Start(0) == 0 && s.End(0) == DocSize(doc);
    }
  }

  /** What the library guarantees of `findDiffStart`/`findDiffEnd` for every
      range and parsed document. */
  ghost predicate ScannerOk(scanDiff: (Range, Node) -> DiffScan) {
    forall r: Range, n: Node :: n.Element? && r.from <= r.to ==>
      ScanOk(r.from, r.to - r.from, DocSize(n), scanDiff(r, n))
  }

  /** What `parseBetween` guarantees of the document: it parses nothing
      unless both ends of the range map into one DOM parent, so that they
      lie in one parent of the document and the slice between them is
      closed. */
  ghost predicate ParseInOneParent(doc: Node, parse: (int, int) -> Option<Parsed>)
    requires doc.Element?
  {
    forall a, b :: 0 <= a <= DocSize(doc) && 0 <= b <= DocSize(doc) && parse(a, b).Some? ==>
      Resolve(doc, a).SameParent(Resolve(doc, b))
  }

  /** `o` is what `readDOMChange` ends with after trying the ranges `tried`
      from `range` on: the parse fails on all of them but the last, which
      holds `range`, has both ends in one parent, parses, and is compared
      with what was parsed. */
  ghost predicate ReadsAs(doc: Node, selFrom: int, range: Range, parse: (int, int) -> Option<Parsed>,
                          scanDiff: (Range, Node) -> DiffScan, env: Env, tried: seq<Range>, o: Outcome)
    requires doc.Element?
  {
    Trace(doc, range, tried) && AllButLastFail(tried, parse) &&
    var last := tried[|tried| - 1];
    last.from <= range.from && range.to <= last.to && 0 <= last.from <= last.to <= DocSize(doc) &&
    Resolve(doc, last.from).SameParent(Resolve(doc, last.to)) &&
    parse(last.from, last.to).Some? &&
    var parsed := parse(last.from, last.to).value;
    parsed.doc.Element? &&
    ScanOk(last.from, last.to - last.from, DocSize(parsed.doc), scanDiff(last, parsed.doc)) &&
    o == ReadChange(doc, selFrom, last, parsed, scanDiff(last, parsed.doc), env)
  }

  /** `readDOMChange`: retry the parse with ever wider ranges, then compare
      the old content of the final range with the parsed content and act on
      the difference. The answer is None only where the source would retry
      the whole document forever. */
  method ReadDOMChange(doc: Node, selFrom: int, range: Range, parse: (int, int) -> Option<Parsed>,
                       scanDiff: (Range, Node) -> DiffScan, env: Env)
    returns (o: Option<Outcome>, ghost tried: seq<Range>)
    requires doc.Element? && 0 <= range.from <= range.to <= DocSize(doc)
    requires forall a, b :: parse(a, b).Some? ==> parse(a, b).value.doc.Element?
    requires ParseInOneParent(doc, parse)
    requires ScannerOk(scanDiff)
    ensures Trace(doc, range, tried) && AllButLastFail(tried, parse)
    ensures o.None? ==> tried[|tried| - 1] == Range(0, DocSize(doc)) && parse(0, DocSize(doc)).None?
    ensures o.Some? ==> ReadsAs(doc, selFrom, range, parse, scanDiff, env, tried, o.value)
    ensures o.None? ==> parse(0, DocSize(doc)).None?
    ensures o.Some? ==> (o.value.effect == NoEffect ==> o.value.dirty.None?)
  {
    var found;
    found, tried := ParseRange(doc, range, parse);
    if found.None? {
      return None, tried;
    }
    var rg := found.value;
    TraceGrows(doc, range, tried, 0, |tried| - 1);
    var parsed := parse(rg.from, rg.to).value;
    o := Some(ReadChange(doc, selFrom, rg, parsed, scanDiff(rg, parsed.doc), env));
  }
}
