/**
 Preparing the serials of a revocation list (dedup.go), and the pipeline from an
 arbitrary serial list to a tree.
 */
module Dedup {
  import opened Wrappers
  import opened Types
  import opened LinkedLeaves
  import opened TreeSpec

  predicate Ascending(s: seq<nat>) {
    forall i, j :: 0 <= i < j < |s| ==> s[i] <= s[j]
  }

  predicate StrictlyAscending(s: seq<nat>) {
    forall i, j :: 0 <= i < j < |s| ==> s[i] < s[j]
  }

  // ----- sort.Slice: the order is total on numbers, so every sort yields this -----

  function InsertSorted(x: nat, s: seq<nat>): seq<nat> {
    if s == [] || x <= s[0] then [x] + s else [s[0]] + InsertSorted(x, s[1..])
  }

  /** The input in ascending order. */
  function Sorted(s: seq<nat>): seq<nat> {
    if s == [] then [] else InsertSorted(s[0], Sorted(s[1..]))
  }

  lemma {:induction false} InsertSortedElements(x: nat, s: seq<nat>)
    ensures multiset(InsertSorted(x, s)) == multiset(s) + multiset{x}
  {
    if s != [] && x > s[0] {
      InsertSortedElements(x, s[1..]);
      assert s == [s[0]] + s[1..];
    }
  }

  lemma {:induction false} InsertSortedAscends(x: nat, s: seq<nat>)
    requires Ascending(s)
    ensures Ascending(InsertSorted(x, s))
  {
    if s != [] && x > s[0] {
      InsertSortedAscends(x, s[1..]);
      var t := InsertSorted(x, s[1..]);
      InsertSortedElements(x, s[1..]);
      forall i | 0 <= i < |t|
        ensures s[0] <= t[i]
      {
        assert t[i] in multiset(t);
      }
    }
  }

  /** Sorting yields an ascending permutation. */
  lemma {:induction false} SortedCorrect(s: seq<nat>)
    ensures Ascending(Sorted(s)) && multiset(Sorted(s)) == multiset(s)
    ensures |Sorted(s)| == |s| && forall x :: x in Sorted(s) <==> x in s
  {
    if s != [] {
      SortedCorrect(s[1..]);
      InsertSortedAscends(s[0], Sorted(s[1..]));
      InsertSortedElements(s[0], Sorted(s[1..]));
      assert s == [s[0]] + s[1..];
    }
    SameElements(Sorted(s), s);
  }

  lemma SameElements(a: seq<nat>, b: seq<nat>)
    requires multiset(a) == multiset(b)
    ensures |a| == |b| && forall x :: x in a <==> x in b
  {
    assert |a| == |multiset(a)| && |b| == |multiset(b)|;
    forall x ensures x in a <==> x in b {
      assert x in a <==> x in multiset(a);
      assert x in b <==> x in multiset(b);
    }
  }

  // ----- DedupAndSortSerials -----

  /** x is one of the positive serials. None stands for a nil pointer. */
  ghost predicate IsPositiveSerial(serials: seq<Option<int>>, x: nat) {
    x > 0 && Some(x) in serials
  }

  /** The strictly ascending list of the positive serials, whatever order and repetition they come in. */
  ghost predicate IsPrepared(serials: seq<Option<int>>, r: seq<nat>) {
    && StrictlyAscending(r)
    && forall x :: x in r <==> IsPositiveSerial(serials, x)
  }

  method DedupAndSortSerials(serials: seq<Option<int>>) returns (r: seq<nat>)
    ensures IsPrepared(serials, r)
  {
    if |serials| == 0 {
      return [];
    }
    var out := new nat[|serials|];
    var n := 0;
    var k := 0;
    while k < |serials|
      invariant 0 <= n <= k <= |serials|
      invariant forall x :: x in out[..n] <==> IsPositiveSerial(serials[..k], x)
    {
      ghost var before := out[..n];
      var s := serials[k];
      assert serials[..k + 1] == serials[..k] + [s];
      if s.Some? && s.value > 0 {
        out[n] := s.value;
        n := n + 1;
        assert out[..n] == before + [s.value];
      }
      k := k + 1;
    }
    assert serials[..k] == serials;
    SortedCorrect(out[..n]);
    var sorted := Sorted(out[..n]);
    forall i | 0 <= i < n {
      out[i] := sorted[i];
    }
    assert out[..n] == sorted;
    if n <= 1 {
      return out[..n];
    }
    var w := Compact(out, n);
    return out[..w];
  }

  /** Of the first n elements every one that differs from the last one kept. */
  function Compacted(s: seq<nat>, n: nat): (r: seq<nat>)
    requires n <= |s|
    ensures n > 0 ==> r != []
    decreases n, s
  {
    if n == 0 then []
    else if n == 1 then [s[0]]
    else
      var kept := Compacted(s, n - 1);
      if s[n - 1] != kept[|kept| - 1] then kept + [s[n - 1]] else kept
  }

  lemma CompactedGrows(front: seq<nat>, kept: seq<nat>, last: nat)
    requires StrictlyAscending(kept) && kept != [] && kept[|kept| - 1] <= last
    requires forall x :: x in kept <==> x in front
    ensures var r := if last != kept[|kept| - 1] then kept + [last] else kept;
      StrictlyAscending(r) && r[|r| - 1] == last && forall x :: x in r <==> x in front + [last]
  {
    assert forall x :: x in front + [last] <==> x in front || x == last;
    assert kept[|kept| - 1] in kept;
  }

  /** What compaction is for: r climbs strictly, holds what s holds and ends like it. */
  ghost predicate IsCompaction(s: seq<nat>, r: seq<nat>) {
    && StrictlyAscending(r) && |r| <= |s|
    && (forall x :: x in r <==> x in s)
    && (s != [] ==> r != [] && r[|r| - 1] == s[|s| - 1])
  }

  lemma CompactionGrows(front: seq<nat>, kept: seq<nat>, last: nat)
    requires front != [] && IsCompaction(front, kept) && front[|front| - 1] <= last
    ensures IsCompaction(front + [last], if last != kept[|kept| - 1] then kept + [last] else kept)
  {
    CompactedGrows(front, kept, last);
  }

  /** On ascending input the kept elements climb strictly and lose no value. */
  lemma {:induction false} CompactedCorrect(s: seq<nat>, n: nat)
    requires Ascending(s) && n <= |s|
    ensures IsCompaction(s[..n], Compacted(s, n))
    decreases n
  {
    if n == 1 {
      assert s[..1] == [s[0]];
    } else if n > 1 {
      CompactedCorrect(s, n - 1);
      CompactionGrows(s[..n - 1], Compacted(s, n - 1), s[n - 1]);
      assert s[..n] == s[..n - 1] + [s[n - 1]];
    }
  }

  lemma TakeOneMore(out: array<nat>, w: nat, kept: seq<nat>, last: nat)
    requires w < out.Length && out[..w] == kept && out[w] == last
    ensures out[..w + 1] == kept + [last]
  {
  }

  /** The in-place compaction: the distinct elements of an ascending stretch move to its front. */
  method Compact(out: array<nat>, n: nat) returns (w: nat)
    requires 0 < n <= out.Length && Ascending(out[..n])
    modifies out
    ensures w <= n && StrictlyAscending(out[..w])
    ensures forall x :: x in out[..w] <==> x in old(out[..n])
  {
    ghost var sorted := out[..n];
    w := 1;
    var i := 1;
    assert out[..1] == [sorted[0]];
    while i < n
      invariant 1 <= w <= i <= n
      invariant forall j :: i <= j < n ==> out[j] == sorted[j]
      invariant out[..w] == Compacted(sorted, i)
    {
      ghost var kept := out[..w];
      assert kept[w - 1] == out[w - 1];
      if out[i] != out[w - 1] {
        out[w] := out[i];
        TakeOneMore(out, w, kept, sorted[i]);
        w := w + 1;
      }
      i := i + 1;
    }
    assert sorted[..n] == sorted;
    CompactedCorrect(sorted, n);
  }

  // ----- from serials to a tree -----

  lemma Inhabited(s: seq<nat>)
    ensures s == [] || exists x :: x in s
  {
    if s != [] {
      assert s[0] in s;
    }
  }

  /** A strictly ascending list is determined by its elements. */
  lemma {:induction false} AscendingIsDetermined(a: seq<nat>, b: seq<nat>)
    requires StrictlyAscending(a) && StrictlyAscending(b)
    requires forall x :: x in a <==> x in b
    ensures a == b
  {
    if a == [] {
      Inhabited(b);
    } else {
      assert a[0] in a && a[0] in b;
      assert b[0] in b && b[0] in a;
      forall x ensures x in a[1..] <==> x in b[1..] {
        assert x in a <==> x == a[0] || x in a[1..];
        assert x in b <==> x == b[0] || x in b[1..];
      }
      AscendingIsDetermined(a[1..], b[1..]);
    }
  }

  /** Prepared serials always build: a fresh tree takes any non-empty prepared list by the sorted path. */
  lemma {:induction false} PreparedBuilds(h: Hasher, serials: seq<Option<int>>, r: seq<nat>)
    requires IsPrepared(serials, r) && r != []
    ensures Apply(h, EMPTY_TREE, InsertManySorted(r)).1 == None
  {
    EmptyIsCoherent(h);
    forall i | 0 <= i < |r|
      ensures r[i] > 0
    {
      assert r[i] in r;
    }
    ApplySucceeds(h, EMPTY_TREE, InsertManySorted(r));
  }

  /** The tree built from a revocation list depends only on its set of positive serials. */
  lemma {:induction false} PipelineIsDeterministic(
    h: Hasher, a: seq<Option<int>>, b: seq<Option<int>>, ra: seq<nat>, rb: seq<nat>)
    requires IsPrepared(a, ra) && IsPrepared(b, rb) && ra != []
    requires forall x :: IsPositiveSerial(a, x) <==> IsPositiveSerial(b, x)
    ensures ra == rb
    ensures var op := InsertManySorted(ra);
      && Apply(h, EMPTY_TREE, op).1 == None
      && var t := Apply(h, EMPTY_TREE, op).0;
         Coherent(h, t) && UserValues(t.leaves) == ra
  {
    AscendingIsDetermined(ra, rb);
    PreparedBuilds(h, a, ra);
    EmptyIsCoherent(h);
    ApplyCorrect(h, EMPTY_TREE, InsertManySorted(ra));
  }
}
