/**
 * The DOM-change session: while the browser edits the DOM directly, the
 * view holds one active session that collects the touched document range,
 * waits (on a timer, or for a composition to end), and then reads the
 * change back into the document.
 *
 * The timer is an `armed` flag, the view's `onAction` callback and the
 * redraw marks are an appended event log, and the random session id is a
 * parameter.
 */
module Session {
  import opened Wrappers
  import opened Document
  import opened Ranges
  import opened Reconcile

  // ---------------------------------------------------------------------
  // The collected range.

  /** `addRange` on the collected span: the first range is taken as it is,
      later ones widen the span to the smaller start and the larger end. */
  function AddSpan(span: Option<Range>, r: Range): Range {
    if span.None? then r
    else Range(Ranges.Min(r.from, span.value.from), Ranges.Max(r.to, span.value.to))
  }

  /** The span after adding the ranges `rs` in order, starting from none. */
  function SpanOf(rs: seq<Range>): Option<Range> {
    if rs == [] then None
    else Some(AddSpan(SpanOf(rs[..|rs| - 1]), rs[|rs| - 1]))
  }

  /** `s` is the smallest interval holding every range of `rs`: it contains
      each of them, and its two ends are the start of one and the end of
      another. */
  ghost predicate Smallest(s: Range, rs: seq<Range>) {
    (forall i :: 0 <= i < |rs| ==> s.from <= rs[i].from && rs[i].to <= s.to) &&
    (exists i :: 0 <= i < |rs| && rs[i].from == s.from) &&
    (exists j :: 0 <= j < |rs| && rs[j].to == s.to)
  }

  /** The span of a non-empty run of ranges is the smallest interval holding
      all of them, and there is a span exactly when a range was added. */
  lemma {:induction false} SpanIsSmallest(rs: seq<Range>)
    ensures SpanOf(rs).Some? <==> rs != []
    ensures rs != [] ==> Smallest(SpanOf(rs).value, rs)
  {
    if rs != [] {
      var init := rs[..|rs| - 1];
      var r := rs[|rs| - 1];
      var s := SpanOf(rs).value;
      SpanIsSmallest(init);
      if init == [] {
        assert rs == [r];
        assert rs[0].from == s.from && rs[0].to == s.to;
      } else {
        var p := SpanOf(init).value;
        assert forall i :: 0 <= i < |init| ==> init[i] == rs[i];
        var i :| 0 <= i < |init| && init[i].from == p.from;
        var j :| 0 <= j < |init| && init[j].to == p.to;
        if r.from <= p.from {
          assert rs[|rs| - 1].from == s.from;
        } else {
          assert rs[i].from == s.from;
        }
        if r.to >= p.to {
          assert rs[|rs| - 1].to == s.to;
        } else {
          assert rs[j].to == s.to;
        }
      }
    }
  }

  /** Two smallest intervals over the same ranges are the same. */
  lemma SmallestUnique(s: Range, rs: seq<Range>, t: Range, qs: seq<Range>)
    requires Smallest(s, rs) && Smallest(t, qs)
    requires forall r :: r in rs <==> r in qs
    ensures s == t
  {
    var i :| 0 <= i < |rs| && rs[i].from == s.from;
    var j :| 0 <= j < |rs| && rs[j].to == s.to;
    var k :| 0 <= k < |qs| && qs[k].from == t.from;
    var l :| 0 <= l < |qs| && qs[l].to == t.to;
    assert rs[i] in qs && rs[j] in qs && qs[k] in rs && qs[l] in rs;
  }

  /** The span does not depend on the order in which the ranges were
      added. */
  lemma SpanOrderIndependent(rs: seq<Range>, qs: seq<Range>)
    requires multiset(rs) == multiset(qs)
    ensures SpanOf(rs) == SpanOf(qs)
  {
    SpanIsSmallest(rs);
    SpanIsSmallest(qs);
    forall r ensures r in rs <==> r in qs {
      assert r in rs <==> r in multiset(rs);
      assert r in qs <==> r in multiset(qs);
    }
    if rs != [] {
      assert rs[0] in multiset(qs);
      SmallestUnique(SpanOf(rs).value, rs, SpanOf(qs).value, qs);
    } else {
      assert |multiset(qs)| == |qs|;
    }
  }

  /** Adding a range never shrinks the span, and keeps it running forwards
      when the added range does. */
  lemma AddSpanGrows(span: Option<Range>, r: Range)
    ensures var s := AddSpan(span, r);
      s.from <= r.from && r.to <= s.to &&
      (span.Some? ==> s.from <= span.value.from && span.value.to <= s.to) &&
      (r.from <= r.to && (span.Some? ==> span.value.from <= span.value.to) ==> s.from <= s.to)
  {
  }

  // ---------------------------------------------------------------------
  // The view and the session objects.

  /** The editor state a session snapshots: the document and the two ends
      of its selection. */
  datatype State = State(doc: Node, selFrom: int, selTo: int)

  /** What the view is told: `onAction` calls and redraw marks. */
  datatype Event =
    | StartDOMChange(id: int)
    | EndDOMChange
    | MarkDirty(range: Range)
    | Transaction(step: Step, selection: Option<Sel>)

  /** What the view hears of an outcome: the redraw mark, then the
      dispatched transaction. */
  function Announced(o: Outcome): seq<Event> {
    (if o.dirty.Some? then [MarkDirty(o.dirty.value)] else []) +
    (if o.effect.Dispatch? then [Transaction(o.effect.step, o.effect.selection)] else [])
  }

  /** What `changedRange` gives for the snapshot `s` and the collected
      span: with nothing collected, the range around the selection (as the
      source runs it, with `isAtStart` as written); otherwise the span
      widened to whole nodes below the ends' deepest common ancestor. */
  function ChangedRangeOf(s: State, span: Option<Range>): Option<Range>
    requires ValidDoc(s.doc) && 0 <= s.selFrom <= s.selTo <= DocSize(s.doc)
    requires span.Some? ==> 0 <= span.value.from <= span.value.to <= DocSize(s.doc)
  {
    if span.None? then AroundSelection(s.doc, s.selFrom, s.selTo, AsWritten)
    else Some(SpanRange(s.doc, span.value.from, span.value.to))
  }

  class View {
    var state: State
    var inDOMChange: DOMChange?
    var events: seq<Event>

    constructor(state: State)
      ensures this.state == state && inDOMChange == null && events == []
    {
      this.state := state;
      inDOMChange := null;
      events := [];
    }
  }

  class DOMChange {
    const view: View
    const id: int
    /** The state when the session began, which the DOM still shows. */
    const state: State
    var composing: bool
    /** The collected `from`/`to`, set together. */
    var span: Option<Range>
    /** Whether the 50 ms timer that finishes the session is pending. */
    var armed: bool
    /** The ranges added so far. */
    ghost var added: seq<Range>

    /** The span is exactly what the added ranges give. */
    ghost predicate Valid()
      reads this
    {
      span == SpanOf(added)
    }

    constructor(view: View, id: int, composing: bool)
      ensures this.view == view && this.id == id && state == view.state
      ensures this.composing == composing && span.None? && armed == !composing
      ensures added == [] && Valid()
    {
      this.view := view;
      this.id := id;
      this.state := view.state;
      this.composing := composing;
      span := None;
      added := [];
      armed := !composing;
    }

    /** `addRange`: widen the collected span to hold `from..to`. */
    method AddRange(from: int, to: int)
      requires Valid()
      modifies this
      ensures span == Some(AddSpan(old(span), Range(from, to)))
      ensures added == old(added) + [Range(from, to)] && Valid()
      ensures composing == old(composing) && armed == old(armed)
    {
      if span.None? {
        span := Some(Range(from, to));
      } else {
        span := Some(Range(Ranges.Min(from, span.value.from), Ranges.Max(to, span.value.to)));
      }
      added := added + [Range(from, to)];
      assert added[..|added| - 1] == old(added);
    }

    /** `changedRange`: with nothing collected, the range around the
      snapshot's selection (None where the source's depth scan runs off the
      shallower end); otherwise the collected span widened to whole nodes
      below their deepest common ancestor. */
    method ChangedRange() returns (r: Option<Range>)
      requires ValidDoc(state.doc) && 0 <= state.selFrom <= state.selTo <= DocSize(state.doc)
      requires span.Some? ==> 0 <= span.value.from <= span.value.to <= DocSize(state.doc)
      ensures r == ChangedRangeOf(state, span)
      ensures span.Some? ==> r.Some?
      ensures r.Some? ==> 0 <= r.value.from <= r.value.to <= DocSize(state.doc)
      ensures r.Some? && span.None? ==> r.value.from <= state.selFrom && state.selTo <= r.value.to
      ensures r.Some? && span.Some? ==> r.value.from <= span.value.from && span.value.to <= r.value.to
    {
      if span.None? {
        r := RangeAroundSelection(state.doc, state.selFrom, state.selTo, AsWritten);
      } else {
        SpanRangeContains(state.doc, span.value.from, span.value.to);
        r := Some(SpanRange(state.doc, span.value.from, span.value.to));
      }
    }

    /** `read`: read the change over the changed range back into the
        document. None where the depth scan of `changedRange` fails (the
        source throws there or reads no start) or the parse never succeeds
        (the source retries forever). Otherwise the outcome is what
        `readDOMChange` gives on the changed range, through the ranges
        `tried`. */
    method Read(parse: (int, int) -> Option<Parsed>, scanDiff: (Range, Node) -> DiffScan, env: Env)
      returns (o: Option<Outcome>, ghost tried: seq<Range>)
      requires ValidDoc(state.doc) && 0 <= state.selFrom <= state.selTo <= DocSize(state.doc)
      requires span.Some? ==> 0 <= span.value.from <= span.value.to <= DocSize(state.doc)
      requires forall a, b :: parse(a, b).Some? ==> parse(a, b).value.doc.Element?
      requires ParseInOneParent(state.doc, parse)
      requires ScannerOk(scanDiff)
      ensures ChangedRangeOf(state, span).None? ==> o.None?
      ensures ChangedRangeOf(state, span).Some? && o.None? ==> parse(0, DocSize(state.doc)).None?
      ensures o.Some? ==>
        ChangedRangeOf(state, span).Some? &&
        ReadsAs(state.doc, state.selFrom, ChangedRangeOf(state, span).value, parse, scanDiff, env, tried, o.value)
      ensures span.Some? && parse(0, DocSize(state.doc)).Some? ==> o.Some?
      ensures o.Some? ==> (o.value.effect == NoEffect ==> o.value.dirty.None?)
    {
      var range := ChangedRange();
      if range.None? {
        return None, [];
      }
      o, tried := ReadDOMChange(state.doc, state.selFrom, range.value, parse, scanDiff, env);
    }

    /** `finish`: the timer is cleared; unless composing, the change is read
        back, the session is removed from the view and its end announced.
        Where `read` has no outcome, nothing after it happens. */
    method Finish(parse: (int, int) -> Option<Parsed>, scanDiff: (Range, Node) -> DiffScan, env: Env)
      returns (ghost read: Option<Outcome>, ghost tried: seq<Range>)
      requires ValidDoc(state.doc) && 0 <= state.selFrom <= state.selTo <= DocSize(state.doc)
      requires span.Some? ==> 0 <= span.value.from <= span.value.to <= DocSize(state.doc)
      requires forall a, b :: parse(a, b).Some? ==> parse(a, b).value.doc.Element?
      requires ParseInOneParent(state.doc, parse)
      requires ScannerOk(scanDiff)
      modifies this, view
      ensures !armed && composing == old(composing) && span == old(span) && added == old(added)
      ensures view.state == old(view.state)
      ensures old(composing) ==> unchanged(view)
      ensures read.None? ==> unchanged(view)
      ensures read.Some? ==>
        !old(composing) && view.inDOMChange == null &&
        view.events == old(view.events) + Announced(read.value) + [EndDOMChange]
      ensures read.Some? ==>
        ChangedRangeOf(state, span).Some? &&
        ReadsAs(state.doc, state.selFrom, ChangedRangeOf(state, span).value, parse, scanDiff, env, tried, read.value)
      ensures !old(composing) && read.None? ==>
        ChangedRangeOf(state, span).None? || parse(0, DocSize(state.doc)).None?
    {
      armed := false;
      if composing {
        return None, [];
      }
      var o;
      o, tried := Read(parse, scanDiff, env);
      read := o;
      if o.None? {
        return;
      }
      view.inDOMChange := null;
      view.events := view.events + Announced(o.value) + [EndDOMChange];
    }

    /** `compositionEnd`: a composing session stops composing and arms the
        timer; otherwise nothing happens. */
    method CompositionEnd()
      modifies this
      ensures old(composing) ==> !composing && armed
      ensures !old(composing) ==> composing == old(composing) && armed == old(armed)
      ensures span == old(span) && added == old(added)
    {
      if composing {
        composing := false;
        armed := true;
      }
    }

    /** `DOMChange.start`: with no active session, install a new one and
        announce it; with one, a composing start cancels its timer and
        marks it composing, and any other start changes nothing. */
    static method Start(view: View, composing: bool, id: int)
      modifies view, view.inDOMChange
      ensures view.state == old(view.state)
      ensures old(view.inDOMChange) == null ==>
        view.inDOMChange != null && fresh(view.inDOMChange) &&
        view.inDOMChange.view == view && view.inDOMChange.id == id &&
        view.inDOMChange.state == old(view.state) && view.inDOMChange.span.None? &&
        view.inDOMChange.added == [] && view.inDOMChange.Valid() &&
        view.inDOMChange.composing == composing && view.inDOMChange.armed == !composing &&
        view.events == old(view.events) + [StartDOMChange(id)]
      ensures old(view.inDOMChange) != null ==>
        view.inDOMChange == old(view.inDOMChange) && view.events == old(view.events) &&
        view.inDOMChange.span == old(view.inDOMChange.span) &&
        view.inDOMChange.added == old(view.inDOMChange.added) &&
        (old(view.inDOMChange.Valid()) ==> view.inDOMChange.Valid())
      ensures old(view.inDOMChange) != null && composing ==>
        view.inDOMChange.composing && !view.inDOMChange.armed
      ensures old(view.inDOMChange) != null && !composing ==>
        view.inDOMChange.composing == old(view.inDOMChange.composing) &&
        view.inDOMChange.armed == old(view.inDOMChange.armed)
    {
      if view.inDOMChange != null {
        if composing {
          view.inDOMChange.armed := false;
          view.inDOMChange.composing := true;
        }
      } else {
        var change := new DOMChange(view, id, composing);
        view.inDOMChange := change;
        view.events := view.events + [StartDOMChange(id)];
      }
    }
  }
}
