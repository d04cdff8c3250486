/**
 * `findDiff` of the DOM-change reconciler: the raw left and right scan
 * results of the document library are corrected so that, when the edit is
 * ambiguous (inserting or deleting a token equal to its neighbour), the
 * change is placed at the user's last cursor position.
 */
module Diff {
  import opened Wrappers

  /** `start..endA` of the old content was replaced by `start..endB` of the
      new content. */
  datatype Change = Change(start: int, endA: int, endB: int)

  /** The ambiguity correction. `start` is the first difference scanning from
      the left; `endA`/`endB` the first difference scanning from the right,
      each measured in its own content; the right scan matches the same
      amount on both sides, so `endB - endA == sizeB - sizeA`. */
  function Correct(start: int, endA: int, endB: int, sizeA: int, sizeB: int, preferedStart: int): (r: Change)
    requires endB - endA == sizeB - sizeA
    ensures r.start <= start
    ensures r.start == start || r.start == preferedStart
    ensures r.endB - r.endA == endB - endA
    ensures r.start <= r.endA && r.start <= r.endB
    ensures endA < start && sizeA < sizeB ==>
              r.endA == r.start && (r.start == preferedStart <==> endA <= preferedStart <= start)
    ensures !(endA < start && sizeA < sizeB) && endB < start ==>
              r.endB == r.start && (r.start == preferedStart <==> endB <= preferedStart <= start)
    ensures start <= endA && start <= endB ==> r == Change(start, endA, endB)
  {
    if endA < start && sizeA < sizeB then
      var move := if preferedStart <= start && preferedStart >= endA then start - preferedStart else 0;
      var s := start - move;
      Change(s, s, s + (endB - endA))
    else if endB < start then
      var move := if preferedStart <= start && preferedStart >= endB then start - preferedStart else 0;
      var s := start - move;
      Change(s, s + (endA - endB), s)
    else
      Change(start, endA, endB)
  }

  /** `findDiff` as written: a left scan that reports no difference, or one
      that reports position 0 (falsy in the source's `!start` test), yields
      no change. */
  function FindDiff(scanStart: Option<int>, endA: int, endB: int, sizeA: int, sizeB: int,
                    preferedStart: int): (r: Option<Change>)
    requires endB - endA == sizeB - sizeA
    ensures r.None? <==> scanStart.None? || scanStart.value == 0
    ensures r.Some? ==> r.value.start <= scanStart.value &&
                        r.value.start <= r.value.endA && r.value.start <= r.value.endB
  {
    if scanStart.None? || scanStart.value == 0 then None
    else Some(Correct(scanStart.value, endA, endB, sizeA, sizeB, preferedStart))
  }

  /** `findDiff` as evidently intended: only a left scan that finds no
      difference means no change. */
  function FindDiffIntended(scanStart: Option<int>, endA: int, endB: int, sizeA: int, sizeB: int,
                            preferedStart: int): (r: Option<Change>)
    requires endB - endA == sizeB - sizeA
    ensures r.None? <==> scanStart.None?
    ensures r.Some? ==> r.value.start <= scanStart.value &&
                        r.value.start <= r.value.endA && r.value.start <= r.value.endB
  {
    if scanStart.None? then None
    else Some(Correct(scanStart.value, endA, endB, sizeA, sizeB, preferedStart))
  }

  // Flat token contents, each token of size one, stand in for the library's
  // `findDiffStart` and `findDiffEnd` so that the correction can be checked
  // against what it is for.

  /** The first index from `i` on where `a` and `b` differ, or the shorter
      length when one is a prefix of the other; None when they are equal. */
  function ScanStartFrom<T(==)>(a: seq<T>, b: seq<T>, i: nat): (r: Option<nat>)
    requires i <= |a| && i <= |b| && a[..i] == b[..i]
    ensures r.None? <==> a == b
    ensures r.Some? ==> i <= r.value <= |a| && r.value <= |b| && a[..r.value] == b[..r.value]
    ensures r.Some? && r.value < |a| && r.value < |b| ==> a[r.value] != b[r.value]
    decreases |a| - i
  {
    if i == |a| || i == |b| then
      assert a == a[..i] || b == b[..i];
      if |a| == |b| then None else Some(i)
    else if a[i] != b[i] then Some(i)
    else
      assert a[..i + 1] == b[..i + 1];
      ScanStartFrom(a, b, i + 1)
  }

  /** The first index where `a` and `b` differ (the shorter length when one
      is a prefix of the other); None when they are equal. */
  function ScanStart<T(==)>(a: seq<T>, b: seq<T>): (r: Option<nat>)
    ensures r.None? <==> a == b
    ensures r.Some? ==> r.value <= |a| && r.value <= |b| && a[..r.value] == b[..r.value]
  {
    ScanStartFrom(a, b, 0)
  }

  /** The number `k` of equal tokens at the ends of `a` and `b`, scanning
      back from `k` already matched. */
  function ScanEndFrom<T(==)>(a: seq<T>, b: seq<T>, k: nat): (r: nat)
    requires k <= |a| && k <= |b| && a[|a| - k..] == b[|b| - k..]
    ensures k <= r <= |a| && r <= |b| && a[|a| - r..] == b[|b| - r..]
    decreases |a| - k
  {
    if k == |a| || k == |b| || a[|a| - k - 1] != b[|b| - k - 1] then k
    else
      assert a[|a| - k - 1..] == [a[|a| - k - 1]] + a[|a| - k..];
      assert b[|b| - k - 1..] == [b[|b| - k - 1]] + b[|b| - k..];
      ScanEndFrom(a, b, k + 1)
  }

  /** The number of equal tokens at the ends of `a` and `b`. */
  function CommonSuffix<T(==)>(a: seq<T>, b: seq<T>): (r: nat)
    ensures r <= |a| && r <= |b| && a[|a| - r..] == b[|b| - r..]
  {
    ScanEndFrom(a, b, 0)
  }

  /** The token at index `j`. Agreement between two contents is stated with
      it, so that it is kept apart from the contents' own indexing. */
  function Token<T>(s: seq<T>, j: int): T
    requires 0 <= j < |s|
  {
    s[j]
  }

  lemma PrefixAgrees<T>(a: seq<T>, b: seq<T>, n: nat)
    requires n <= |a| && n <= |b| && a[..n] == b[..n]
    ensures forall j :: 0 <= j < n ==> Token(a, j) == Token(b, j)
  {
    forall j | 0 <= j < n ensures Token(a, j) == Token(b, j) {
      assert a[j] == a[..n][j] && b[j] == b[..n][j];
    }
  }

  lemma SuffixAgrees<T>(a: seq<T>, b: seq<T>, eA: nat, eB: nat)
    requires eA <= |a| && eB <= |b| && a[eA..] == b[eB..]
    ensures forall j :: eA <= j < |a| ==> Token(a, j) == Token(b, j - eA + eB)
  {
    forall j | eA <= j < |a| ensures Token(a, j) == Token(b, j - eA + eB) {
      assert a[j] == a[eA..][j - eA] && b[j - eA + eB] == b[eB..][j - eA];
    }
  }

  /** `findDiff` as written over flat contents starting at `pos`. */
  function FindDiffFlat<T(==)>(a: seq<T>, b: seq<T>, pos: int, preferedStart: int): (r: Option<Change>)
    ensures a == b ==> r.None?
  {
    var k := CommonSuffix(a, b);
    FindDiff(if ScanStart(a, b).None? then None else Some(pos + ScanStart(a, b).value),
             pos + |a| - k, pos + |b| - k, |a|, |b|, preferedStart)
  }

  /** `findDiff` as intended over flat contents starting at `pos`. */
  function FindDiffFlatIntended<T(==)>(a: seq<T>, b: seq<T>, pos: int, preferedStart: int): (r: Option<Change>)
    ensures r.None? <==> a == b
  {
    var k := CommonSuffix(a, b);
    FindDiffIntended(if ScanStart(a, b).None? then None else Some(pos + ScanStart(a, b).value),
                     pos + |a| - k, pos + |b| - k, |a|, |b|, preferedStart)
  }

  /** Replacing `start..endA` of the old content `a` (which starts at `pos`)
      by `start..endB` of the new content `b` gives `b`. */
  ghost predicate Replays<T>(a: seq<T>, b: seq<T>, pos: int, c: Change) {
    var s, eA, eB := c.start - pos, c.endA - pos, c.endB - pos;
    0 <= s <= eA <= |a| && s <= eB <= |b| && a[..s] + b[s..eB] + a[eA..] == b
  }

  /** What the two scans establish about `a` and `b`, token by token: they
      agree before `s0`, and after `endA0` and `endB0` respectively. */
  ghost predicate ScansAgree<T>(a: seq<T>, b: seq<T>, s0: nat, endA0: nat, endB0: nat) {
    s0 <= |a| && s0 <= |b| && endA0 <= |a| && endB0 <= |b| && |a| - endA0 == |b| - endB0 &&
    (forall j :: 0 <= j < s0 ==> Token(a, j) == Token(b, j)) &&
    (forall j :: endA0 <= j < |a| ==> Token(a, j) == Token(b, j - endA0 + endB0))
  }

  /** A content is its unchanged head, its changed middle and its unchanged
      tail. */
  lemma Assemble<T>(a: seq<T>, b: seq<T>, s: nat, eA: nat, eB: nat)
    requires s <= eA <= |a| && s <= eB <= |b| && |a| - eA == |b| - eB
    requires forall j :: 0 <= j < s ==> Token(a, j) == Token(b, j)
    requires forall j :: eA <= j < |a| ==> Token(a, j) == Token(b, j - eA + eB)
    ensures a[..s] + b[s..eB] + a[eA..] == b
  {
    var r := a[..s] + b[s..eB] + a[eA..];
    forall i | 0 <= i < |b| ensures r[i] == b[i] {
      if i < s {
        assert Token(a, i) == Token(b, i);
      } else if eB <= i {
        assert Token(a, i - eB + eA) == Token(b, i);
      }
    }
  }

  /** The replay identity when the old side became empty at or after the end
      `endA0` of the old side's changed part. */
  lemma ReplayEmptyOld<T>(a: seq<T>, b: seq<T>, s0: nat, endA0: nat, endB0: nat, pos: int, c: Change)
    requires ScansAgree(a, b, s0, endA0, endB0)
    requires pos + endA0 <= c.start == c.endA <= pos + s0
    requires c.start <= c.endB == c.start + endB0 - endA0
    ensures Replays(a, b, pos, c)
  {
    var s, eB := c.start - pos, c.endB - pos;
    Assemble(a, b, s, s, eB);
  }

  /** The replay identity when the new side became empty at or after the end
      `endB0` of the new side's changed part. */
  lemma ReplayEmptyNew<T>(a: seq<T>, b: seq<T>, s0: nat, endA0: nat, endB0: nat, pos: int, c: Change)
    requires ScansAgree(a, b, s0, endA0, endB0)
    requires pos + endB0 <= c.start == c.endB <= pos + s0
    requires c.start <= c.endA == c.start + endA0 - endB0
    ensures Replays(a, b, pos, c)
  {
    var s, eA := c.start - pos, c.endA - pos;
    Assemble(a, b, s, eA, s);
  }

  /** The replay identity for an uncorrected change. */
  lemma ReplayPlain<T>(a: seq<T>, b: seq<T>, s0: nat, endA0: nat, endB0: nat, pos: int)
    requires ScansAgree(a, b, s0, endA0, endB0) && s0 <= endA0 && s0 <= endB0
    ensures Replays(a, b, pos, Change(pos + s0, pos + endA0, pos + endB0))
  {
    Assemble(a, b, s0, endA0, endB0);
  }

  /** The replay identity for one corrected change, from the facts the two
      scans establish. */
  lemma Replay<T>(a: seq<T>, b: seq<T>, s0: nat, endA0: nat, endB0: nat, pos: int, c: Change)
    requires ScansAgree(a, b, s0, endA0, endB0)
    requires pos <= c.start <= pos + s0 && c.endB - c.endA == endB0 - endA0
    requires c.start <= c.endA && c.start <= c.endB
    requires || (c.endA == c.start && pos + endA0 <= c.start)
             || (c.endB == c.start && pos + endB0 <= c.start)
             || c == Change(pos + s0, pos + endA0, pos + endB0)
    ensures Replays(a, b, pos, c)
  {
    if c.endA == c.start && pos + endA0 <= c.start {
      ReplayEmptyOld(a, b, s0, endA0, endB0, pos, c);
    } else if c.endB == c.start && pos + endB0 <= c.start {
      ReplayEmptyNew(a, b, s0, endA0, endB0, pos, c);
    } else {
      ReplayPlain(a, b, s0, endA0, endB0, pos);
    }
  }

  /** What the two flat scans establish about contents that differ. */
  lemma ScansOf<T>(a: seq<T>, b: seq<T>)
    requires a != b
    ensures ScanStart(a, b).Some?
    ensures ScansAgree(a, b, ScanStart(a, b).value, |a| - CommonSuffix(a, b), |b| - CommonSuffix(a, b))
  {
    var k := CommonSuffix(a, b);
    PrefixAgrees(a, b, ScanStart(a, b).value);
    SuffixAgrees(a, b, |a| - k, |b| - k);
  }

  /** The corrected change, built from the flat scans, replays the edit. */
  lemma ReplayCorrected<T>(a: seq<T>, b: seq<T>, pos: int, preferedStart: int)
    requires a != b
    ensures ScanStart(a, b).Some?
    ensures Replays(a, b, pos, Correct(pos + ScanStart(a, b).value, pos + |a| - CommonSuffix(a, b),
                                       pos + |b| - CommonSuffix(a, b), |a|, |b|, preferedStart))
  {
    ScansOf(a, b);
    Replay(a, b, ScanStart(a, b).value, |a| - CommonSuffix(a, b), |b| - CommonSuffix(a, b), pos,
           Correct(pos + ScanStart(a, b).value, pos + |a| - CommonSuffix(a, b),
                   pos + |b| - CommonSuffix(a, b), |a|, |b|, preferedStart));
  }

  lemma FlatIntendedIsCorrected<T>(a: seq<T>, b: seq<T>, pos: int, preferedStart: int)
    requires a != b
    ensures ScanStart(a, b).Some?
    ensures FindDiffFlatIntended(a, b, pos, preferedStart) ==
      Some(Correct(pos + ScanStart(a, b).value, pos + |a| - CommonSuffix(a, b), pos + |b| - CommonSuffix(a, b),
                   |a|, |b|, preferedStart))
  {
    assert ScanStart(a, b).Some?;
    assert FindDiffFlatIntended(a, b, pos, preferedStart) ==
      FindDiffIntended(Some(pos + ScanStart(a, b).value), pos + |a| - CommonSuffix(a, b),
                       pos + |b| - CommonSuffix(a, b), |a|, |b|, preferedStart);
  }

  /** The corrected change replays the edit: replacing `start..endA` of the
      old content by `start..endB` of the new content gives the new content. */
  lemma FlatDiffReplays<T>(a: seq<T>, b: seq<T>, pos: int, preferedStart: int)
    requires a != b
    ensures FindDiffFlatIntended(a, b, pos, preferedStart).Some?
    ensures Replays(a, b, pos, FindDiffFlatIntended(a, b, pos, preferedStart).value)
  {
    FlatIntendedIsCorrected(a, b, pos, preferedStart);
    ReplayCorrected(a, b, pos, preferedStart);
  }

  /** The worked ambiguity: inserting an "a" into "aa" with the cursor after
      the first "a" is reported at offset 1, not 2. */
  lemma AmbiguousInsertFollowsCursor()
    ensures FindDiffFlat("aa", "aaa", 0, 1) == Some(Change(1, 1, 2))
    ensures FindDiffFlatIntended("aa", "aaa", 0, 1) == Some(Change(1, 1, 2))
  {
    assert ScanStart("aa", "aaa") == Some(2);
    assert CommonSuffix("aa", "aaa") == 2;
  }

  /** As written, a change whose first difference is at absolute position 0
      is reported as no change: the whole first node replaced is lost. */
  lemma ChangeAtZeroIsDropped()
    ensures "x" != "y"
    ensures FindDiffFlat("x", "y", 0, 0).None?
    ensures FindDiffFlatIntended("x", "y", 0, 0) == Some(Change(0, 1, 1))
  {
    assert ScanStart("x", "y") == Some(0);
    assert CommonSuffix("x", "y") == 0;
  }
}
