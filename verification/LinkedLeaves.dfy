/**
 The sorted linked list kept out of order in the leaf array: the invariant, the
 low-leaf search, the naive insertion by search and the sorted insertion at the
 tail, both as functions on the leaf sequence.
 */
module LinkedLeaves {
  import opened Wrappers
  import opened Types

  type Leaves = seq<IndexedLeaf>

  // ----- the invariant -----

  function Values(ls: Leaves): (r: seq<nat>)
    ensures |r| == |ls|
    ensures forall i :: 0 <= i < |ls| ==> r[i] == ls[i].value
  {
    seq(|ls|, i requires 0 <= i < |ls| => ls[i].value)
  }

  /** The inserted values in insertion order: everything but the sentinel. */
  function UserValues(ls: Leaves): seq<nat> {
    if ls == [] then [] else Values(ls)[1..]
  }

  ghost predicate Distinct(vs: seq<nat>) {
    forall i, j :: 0 <= i < j < |vs| ==> vs[i] != vs[j]
  }

  /** `next` is the least member above x, or 0 when x is the largest. */
  ghost predicate IsNext(vs: seq<nat>, x: nat, next: nat) {
    if next == 0 then forall y :: y in vs ==> y <= x
    else x < next && next in vs && forall y :: y in vs ==> y <= x || next <= y
  }

  /** Leaf i points to its successor. */
  ghost predicate PointsRight(ls: Leaves, i: nat)
    requires i < |ls|
  {
    IsNext(Values(ls), ls[i].value, ls[i].nextValue)
  }

  /** The linked-list invariant of leaf.go: the sentinel first and never alone, values distinct, every pointer right. */
  ghost predicate Linked(ls: Leaves) {
    ls != [] ==>
      && |ls| > 1
      && ls[0].value == 0
      && Distinct(Values(ls))
      && forall i: nat :: i < |ls| ==> PointsRight(ls, i)
  }

  lemma UserValueAt(ls: Leaves, v: nat)
    requires ls != [] && ls[0].value == 0 && v > 0
    ensures v in UserValues(ls) <==> v in Values(ls)
    ensures v in UserValues(ls) <==> exists i :: 1 <= i < |ls| && ls[i].value == v
  {
    var vs := Values(ls);
    if v in vs {
      var i :| 0 <= i < |vs| && vs[i] == v;
      assert vs[1..][i - 1] == v;
    }
  }

  /** A linked list is determined by its values in storage order. */
  lemma LinkedIsDetermined(a: Leaves, b: Leaves)
    requires Linked(a) && Linked(b)
    requires UserValues(a) == UserValues(b)
    ensures a == b
  {
    if a != [] {
      assert Values(a) == [0] + UserValues(a);
      assert Values(b) == [0] + UserValues(b);
      forall i | 0 <= i < |a|
        ensures a[i] == b[i]
      {
        assert Values(a)[i] == Values(b)[i];
        assert PointsRight(a, i) && PointsRight(b, i);
      }
      assert |a| == |Values(a)| == |b|;
    }
  }

  // ----- the low-leaf search -----

  /** The search condition: the leaf whose gap (value, nextValue] contains v. */
  predicate IsLow(leaf: IndexedLeaf, v: nat) {
    leaf.value < v && (leaf.nextValue == 0 || leaf.nextValue >= v)
  }

  /** The first index from `from` on that meets the search condition. */
  function FindLow(ls: Leaves, v: nat, from: nat): (r: Option<nat>)
    requires from <= |ls|
    ensures r.Some? ==> from <= r.value < |ls| && IsLow(ls[r.value], v)
    ensures r.Some? ==> forall i :: from <= i < r.value ==> !IsLow(ls[i], v)
    ensures r.None? ==> forall i :: from <= i < |ls| ==> !IsLow(ls[i], v)
    decreases |ls| - from
  {
    if from == |ls| then None
    else if IsLow(ls[from], v) then Some(from)
    else FindLow(ls, v, from + 1)
  }

  /** The largest value below v, by its index. */
  lemma {:induction false} Predecessor(ls: Leaves, v: nat, n: nat) returns (p: nat)
    requires 0 < n <= |ls| && ls[0].value < v
    ensures p < n && ls[p].value < v
    ensures forall i :: 0 <= i < n ==> ls[i].value <= ls[p].value || ls[i].value >= v
  {
    p := 0;
    if n > 1 {
      p := Predecessor(ls, v, n - 1);
      if ls[p].value < ls[n - 1].value < v {
        p := n - 1;
      }
    }
  }

  /** On a linked list and v > 0 exactly one leaf meets the condition, and the search returns it. */
  lemma {:induction false} LowLeafUnique(ls: Leaves, v: nat) returns (low: nat)
    requires Linked(ls) && ls != [] && v > 0
    ensures low < |ls|
    ensures forall i :: 0 <= i < |ls| ==> (IsLow(ls[i], v) <==> i == low)
    ensures FindLow(ls, v, 0) == Some(low)
    ensures ls[low].nextValue == v <==> v in Values(ls)
  {
    var vs := Values(ls);
    low := Predecessor(ls, v, |ls|);
    assert PointsRight(ls, low);
    assert forall x :: x in vs ==> x <= ls[low].value || x >= v;
    assert IsLow(ls[low], v);
    forall i | 0 <= i < |ls| && i != low
      ensures !IsLow(ls[i], v)
    {
      assert vs[i] != vs[low];
      assert PointsRight(ls, i);
      assert vs[low] in vs;
    }
  }

  lemma LowLeafFound(ls: Leaves, v: nat)
    requires Linked(ls) && ls != [] && v > 0
    ensures exists i :: 0 <= i < |ls| && IsLow(ls[i], v)
  {
    var low := LowLeafUnique(ls, v);
    assert IsLow(ls[low], v);
  }

  // ----- naive insertion -----

  /** The two leaves the first value creates. */
  function FirstLeaves(v: nat): Leaves {
    [IndexedLeaf(0, v), IndexedLeaf(v, 0)]
  }

  /** The new leaf takes over its predecessor's pointer; the predecessor points to it. */
  function Splice(ls: Leaves, low: nat, v: nat): Leaves
    requires low < |ls|
  {
    ls[low := IndexedLeaf(ls[low].value, v)] + [IndexedLeaf(v, ls[low].nextValue)]
  }

  function InsertLeaf(ls: Leaves, v: nat): Result<Leaves, Error> {
    if v == 0 then Failure(InsertZero)
    else if ls == [] then Success(FirstLeaves(v))
    else
      match FindLow(ls, v, 0)
      case None => Failure(LowLeafNotFound)
      case Some(low) =>
        if ls[low].nextValue != 0 && ls[low].nextValue == v then Failure(Duplicate)
        else Success(Splice(ls, low, v))
  }

  /** Where the pointer of a leaf other than the predecessor stays right. */
  lemma NextUndisturbed(vs: seq<nat>, x: nat, next: nat, low: nat, v: nat)
    requires IsNext(vs, x, next) && low in vs && x != low && low < v && v !in vs
    requires x < v ==> x < low
    ensures IsNext(vs + [v], x, next)
  {
    if x < v {
      assert next != 0 && next <= low;
    }
  }

  lemma NextSpliced(vs: seq<nat>, low: nat, next: nat, v: nat)
    requires IsNext(vs, low, next) && low < v && (next == 0 || v < next)
    ensures IsNext(vs + [v], low, v) && IsNext(vs + [v], v, next)
  {
    assert v == (vs + [v])[|vs|];
  }

  lemma SpliceAt(ls: Leaves, low: nat, v: nat)
    requires low < |ls|
    ensures var r := Splice(ls, low, v);
      && Values(r) == Values(ls) + [v]
      && |r| == |ls| + 1
      && r[low] == IndexedLeaf(ls[low].value, v) && r[|ls|] == IndexedLeaf(v, ls[low].nextValue)
      && forall i :: 0 <= i < |ls| && i != low ==> r[i] == ls[i]
  {
  }

  lemma NextKept(ls: Leaves, low: nat, v: nat, i: nat)
    requires Linked(ls) && low < |ls| && IsLow(ls[low], v) && v !in Values(ls)
    requires i < |ls| && i != low
    ensures IsNext(Values(ls) + [v], ls[i].value, ls[i].nextValue)
  {
    var vs := Values(ls);
    assert vs[i] != vs[low] && vs[i] in vs && vs[low] in vs;
    assert PointsRight(ls, i);
    assert PointsRight(ls, low);
    NextUndisturbed(vs, ls[i].value, ls[i].nextValue, ls[low].value, v);
  }

  lemma {:induction false} SpliceKeepsLinked(ls: Leaves, low: nat, v: nat)
    requires Linked(ls) && low < |ls| && IsLow(ls[low], v) && v !in Values(ls)
    ensures Linked(Splice(ls, low, v))
    ensures UserValues(Splice(ls, low, v)) == UserValues(ls) + [v]
  {
    var vs, r := Values(ls), Splice(ls, low, v);
    var x, next := ls[low].value, ls[low].nextValue;
    SpliceAt(ls, low, v);
    assert PointsRight(ls, low) && vs[low] == x;
    NextSpliced(vs, x, next, v);
    assert Distinct(vs + [v]);
    assert (vs + [v])[1..] == vs[1..] + [v];
    forall i: nat | i < |r|
      ensures PointsRight(r, i)
    {
      if i < |ls| && i != low {
        NextKept(ls, low, v, i);
      }
    }
  }

  /**
   One insertion into a linked list: zero and present values are refused, with
   the right error; any other value is added and the list stays linked.
   */
  lemma {:induction false} InsertLeafCorrect(ls: Leaves, v: nat)
    requires Linked(ls)
    ensures InsertLeaf(ls, v).Success? <==> v > 0 && v !in UserValues(ls)
    ensures InsertLeaf(ls, v).Success? ==>
      var r := InsertLeaf(ls, v).value;
      Linked(r) && r != [] && UserValues(r) == UserValues(ls) + [v]
    ensures v == 0 ==> InsertLeaf(ls, v) == Failure(InsertZero)
    ensures v > 0 && v in UserValues(ls) ==> InsertLeaf(ls, v) == Failure(Duplicate)
  {
    if v > 0 {
      if ls == [] {
        var r := FirstLeaves(v);
        assert Values(r) == [0, v];
        assert UserValues(r) == [v];
      } else {
        var low := LowLeafUnique(ls, v);
        UserValueAt(ls, v);
        if v !in Values(ls) {
          SpliceKeepsLinked(ls, low, v);
        }
      }
    }
  }

  /** A batch stops at the first value it cannot insert; `done` counts those before it. */
  datatype Outcome = Outcome(leaves: Leaves, done: nat, error: Option<Error>)

  function InsertBatch(ls: Leaves, vs: seq<nat>): Outcome
    decreases |vs|, ls
  {
    if vs == [] then Outcome(ls, 0, None)
    else
      match InsertLeaf(ls, vs[0])
      case Failure(e) => Outcome(ls, 0, Some(e))
      case Success(r) =>
        var o := InsertBatch(r, vs[1..]);
        o.(done := o.done + 1)
  }

  /** vs can follow us: all positive, all distinct, none already there. */
  ghost predicate CanFollow(us: seq<nat>, vs: seq<nat>) {
    && (forall i :: 0 <= i < |vs| ==> vs[i] > 0)
    && Distinct(vs)
    && (forall i :: 0 <= i < |vs| ==> vs[i] !in us)
  }

  lemma CanFollowStep(us: seq<nat>, vs: seq<nat>)
    requires vs != []
    ensures CanFollow(us, vs) <==> vs[0] > 0 && vs[0] !in us && CanFollow(us + [vs[0]], vs[1..])
  {
    var ws := vs[1..];
    if CanFollow(us + [vs[0]], ws) && vs[0] > 0 && vs[0] !in us {
      forall i | 0 <= i < |vs| ensures vs[i] > 0 && vs[i] !in us && (i > 0 ==> vs[i] != vs[0]) {
        if i > 0 { assert ws[i - 1] == vs[i]; }
      }
      forall i, j | 0 <= i < j < |vs| ensures vs[i] != vs[j] {
        if i > 0 { assert ws[i - 1] == vs[i] && ws[j - 1] == vs[j]; }
      }
    }
  }

  /** What a batch of vs after the user values us comes to. */
  ghost predicate IsBatchOutcome(us: seq<nat>, vs: seq<nat>, o: Outcome) {
    && o.done <= |vs|
    && UserValues(o.leaves) == us + vs[..o.done]
    && (o.error.None? <==> o.done == |vs|)
    && (o.error.None? <==> CanFollow(us, vs))
    && (o.error.Some? ==>
          if vs[o.done] == 0 then o.error == Some(InsertZero)
          else o.error == Some(Duplicate) && vs[o.done] in UserValues(o.leaves))
  }

  lemma OutcomeStep(us: seq<nat>, vs: seq<nat>, o: Outcome)
    requires vs != [] && vs[0] > 0 && vs[0] !in us
    requires IsBatchOutcome(us + [vs[0]], vs[1..], o)
    ensures IsBatchOutcome(us, vs, o.(done := o.done + 1))
  {
    CanFollowStep(us, vs);
    assert us + vs[..o.done + 1] == us + [vs[0]] + vs[1..][..o.done];
  }

  /**
   What a batch does, successful or not: it inserts exactly the first `done`
   values, in order, keeps the list linked, fails at the first value that is
   zero or present, and succeeds exactly when there is no such value.
   */
  lemma {:induction false} InsertBatchCorrect(ls: Leaves, vs: seq<nat>)
    requires Linked(ls)
    ensures Linked(InsertBatch(ls, vs).leaves)
    ensures IsBatchOutcome(UserValues(ls), vs, InsertBatch(ls, vs))
    ensures InsertBatch(ls, vs).leaves == [] <==> ls == [] && InsertBatch(ls, vs).done == 0
    decreases |vs|
  {
    var us := UserValues(ls);
    if vs == [] {
      assert us + vs == us;
    } else {
      InsertLeafCorrect(ls, vs[0]);
      var s := InsertLeaf(ls, vs[0]);
      if s.Success? {
        InsertBatchCorrect(s.value, vs[1..]);
        OutcomeStep(us, vs, InsertBatch(s.value, vs[1..]));
      } else {
        assert us + vs[..0] == us;
      }
    }
  }

  /** The errors of a batch on any leaves. */
  lemma {:induction false} BatchErrors(ls: Leaves, vs: seq<nat>)
    ensures var e := InsertBatch(ls, vs).error;
      e.None? || e == Some(InsertZero) || e == Some(Duplicate) || e == Some(LowLeafNotFound)
    decreases |vs|
  {
    if vs != [] && InsertLeaf(ls, vs[0]).Success? {
      BatchErrors(InsertLeaf(ls, vs[0]).value, vs[1..]);
    }
  }

  // ----- sorted insertion -----

  /** Why the tail path would not take v next: the tail must be stored last and lie below v. */
  function TailError(ls: Leaves, v: nat): Option<Error>
    requires ls != []
  {
    var tail := ls[|ls| - 1];
    if tail.nextValue != 0 then Some(Unsorted)
    else if v == tail.value then Some(Duplicate)
    else if v < tail.value then Some(Unsorted)
    else None
  }

  function SortedBatch(ls: Leaves, vs: seq<nat>): Outcome
    decreases |vs|, ls
  {
    if vs == [] then Outcome(ls, 0, None)
    else if ls == [] then
      var o := SortedBatch(FirstLeaves(vs[0]), vs[1..]);
      o.(done := o.done + 1)
    else if TailError(ls, vs[0]).Some? then Outcome(ls, 0, TailError(ls, vs[0]))
    else
      var o := SortedBatch(Splice(ls, |ls| - 1, vs[0]), vs[1..]);
      o.(done := o.done + 1)
  }

  /** vs can be appended by the tail path: the tail is stored last and vs climbs from it. */
  ghost predicate Climbs(ls: Leaves, vs: seq<nat>) {
    && (ls != [] && vs != [] ==> ls[|ls| - 1].nextValue == 0 && ls[|ls| - 1].value < vs[0])
    && (forall i, j :: 0 <= i < j < |vs| ==> vs[i] < vs[j])
  }

  lemma ClimbsStep(ls: Leaves, vs: seq<nat>)
    requires ls != [] && vs != []
    requires ls[|ls| - 1].nextValue == 0
    ensures Climbs(ls, vs) <==> ls[|ls| - 1].value < vs[0] && Climbs(Splice(ls, |ls| - 1, vs[0]), vs[1..])
  {
    ClimbsTail(Splice(ls, |ls| - 1, vs[0]), vs);
  }

  lemma ClimbsTail(r: Leaves, vs: seq<nat>)
    requires vs != [] && r != []
    requires r[|r| - 1] == IndexedLeaf(vs[0], 0)
    ensures (forall i, j :: 0 <= i < j < |vs| ==> vs[i] < vs[j]) <==> Climbs(r, vs[1..])
  {
    var ws := vs[1..];
    if Climbs(r, ws) {
      forall i, j | 0 <= i < j < |vs| ensures vs[i] < vs[j] {
        if i > 0 {
          assert ws[i - 1] < ws[j - 1];
        } else if j > 1 {
          assert ws[0] < ws[j - 1];
        }
      }
    } else if forall i, j :: 0 <= i < j < |vs| ==> vs[i] < vs[j] {
      forall i, j | 0 <= i < j < |ws| ensures ws[i] < ws[j] {
        assert vs[i + 1] < vs[j + 1];
      }
    }
  }

  /** The tail path takes the step the search would have taken. */
  lemma TailIsLow(ls: Leaves, v: nat)
    requires Linked(ls) && ls != [] && v > 0 && TailError(ls, v).None?
    ensures InsertLeaf(ls, v) == Success(Splice(ls, |ls| - 1, v))
  {
    var low := LowLeafUnique(ls, v);
    assert IsLow(ls[|ls| - 1], v);
  }

  /** The tail path succeeds exactly on climbing input, and then agrees with the naive path. */
  lemma {:induction false} SortedRefinesNaive(ls: Leaves, vs: seq<nat>)
    requires Linked(ls)
    requires forall i :: 0 <= i < |vs| ==> vs[i] > 0
    ensures SortedBatch(ls, vs).error.None? <==> Climbs(ls, vs)
    ensures SortedBatch(ls, vs).error.None? ==> SortedBatch(ls, vs) == InsertBatch(ls, vs)
    decreases |vs|
  {
    if vs != [] {
      InsertLeafCorrect(ls, vs[0]);
      if ls == [] {
        ClimbsTail(FirstLeaves(vs[0]), vs);
        SortedRefinesNaive(FirstLeaves(vs[0]), vs[1..]);
      } else if ls[|ls| - 1].nextValue == 0 && ls[|ls| - 1].value < vs[0] {
        TailIsLow(ls, vs[0]);
        ClimbsStep(ls, vs);
        SortedRefinesNaive(Splice(ls, |ls| - 1, vs[0]), vs[1..]);
      }
    }
  }

  /** What a sorted batch comes to: the naive result on what it took, and why it stopped. */
  ghost predicate IsSortedOutcome(ls: Leaves, vs: seq<nat>, o: Outcome) {
    && o.done <= |vs|
    && InsertBatch(ls, vs[..o.done]) == Outcome(o.leaves, o.done, None)
    && (o.error.None? <==> o.done == |vs|)
    && (o.error.Some? ==> o.leaves != [] && o.error == TailError(o.leaves, vs[o.done]))
  }

  lemma SortedOutcomeStep(ls: Leaves, r: Leaves, vs: seq<nat>, o: Outcome)
    requires vs != [] && InsertLeaf(ls, vs[0]) == Success(r)
    requires IsSortedOutcome(r, vs[1..], o)
    ensures IsSortedOutcome(ls, vs, o.(done := o.done + 1))
  {
    assert vs[..o.done + 1][1..] == vs[1..][..o.done];
  }

  /** A value the tail path takes is one the naive path takes, with the same result. */
  lemma TakesTail(ls: Leaves, vs: seq<nat>) returns (r: Leaves)
    requires Linked(ls) && vs != [] && vs[0] > 0
    requires ls == [] || TailError(ls, vs[0]).None?
    ensures InsertLeaf(ls, vs[0]) == Success(r) && Linked(r)
    ensures var o := SortedBatch(r, vs[1..]); SortedBatch(ls, vs) == o.(done := o.done + 1)
  {
    InsertLeafCorrect(ls, vs[0]);
    if ls != [] {
      TailIsLow(ls, vs[0]);
    }
    r := InsertLeaf(ls, vs[0]).value;
  }

  /**
   A failing tail path has done what the naive path does on the values it took,
   and stops at the first value it cannot take next.
   */
  lemma {:induction false} SortedFailure(ls: Leaves, vs: seq<nat>)
    requires Linked(ls)
    requires forall i :: 0 <= i < |vs| ==> vs[i] > 0
    ensures IsSortedOutcome(ls, vs, SortedBatch(ls, vs))
    decreases |vs|
  {
    if vs == [] {
    } else if ls != [] && TailError(ls, vs[0]).Some? {
      assert vs[..0] == [];
    } else {
      var r := TakesTail(ls, vs);
      SortedFailure(r, vs[1..]);
      SortedOutcomeStep(ls, r, vs, SortedBatch(r, vs[1..]));
    }
  }

  /** What stops a sorted batch after k of its values, in terms of the last leaf then stored. */
  ghost predicate StoppedBy(last: IndexedLeaf, v: nat, e: Option<Error>) {
    && (e == Some(Duplicate) <==> last.nextValue == 0 && last.value == v)
    && (e == Some(Unsorted) <==> last.nextValue != 0 || v < last.value)
    && (e == Some(Duplicate) || e == Some(Unsorted))
  }

  /**
   The errors of the tail path, on any leaves: the value at which it stopped equals the
   last leaf's, or the last leaf is not the tail or lies above.  Once a value was taken the
   last leaf is the tail and holds it, so the value equals or lies below its predecessor.
   */
  lemma {:induction false} SortedErrors(ls: Leaves, vs: seq<nat>)
    ensures var o := SortedBatch(ls, vs);
      && o.done <= |vs| && (o.error == None <==> o.done == |vs|)
      && |o.leaves| == |ls| + o.done + (if ls == [] && o.done > 0 then 1 else 0)
      && (o.done > 0 ==> o.leaves[|o.leaves| - 1] == IndexedLeaf(vs[o.done - 1], 0))
      && (o.error.Some? ==> o.leaves != [] && StoppedBy(o.leaves[|o.leaves| - 1], vs[o.done], o.error))
    decreases |vs|
  {
    if vs != [] {
      if ls == [] {
        SortedErrors(FirstLeaves(vs[0]), vs[1..]);
      } else if TailError(ls, vs[0]).None? {
        SortedErrors(Splice(ls, |ls| - 1, vs[0]), vs[1..]);
      }
    }
  }

  /** Splitting a sorted batch anywhere changes nothing. */
  lemma {:induction false} SortedBatchSplits(ls: Leaves, a: seq<nat>, b: seq<nat>)
    ensures var o := SortedBatch(ls, a);
      SortedBatch(ls, a + b) ==
        if o.error.Some? then o
        else var p := SortedBatch(o.leaves, b); p.(done := o.done + p.done)
    decreases |a|
  {
    if a == [] {
      assert a + b == b;
    } else {
      assert (a + b)[0] == a[0] && (a + b)[1..] == a[1..] + b;
      if ls == [] {
        SortedBatchSplits(FirstLeaves(a[0]), a[1..], b);
      } else {
        SortedBatchSplits(Splice(ls, |ls| - 1, a[0]), a[1..], b);
      }
    }
  }

  // ----- following the pointers -----

  function IndexOfValue(ls: Leaves, v: nat): (i: nat)
    requires v in Values(ls)
    ensures i < |ls| && ls[i].value == v
  {
    if ls[0].value == v then 0
    else
      assert v in Values(ls[1..]) by {
        var i :| 0 <= i < |ls| && Values(ls)[i] == v;
        assert Values(ls[1..])[i - 1] == v;
      }
      1 + IndexOfValue(ls[1..], v)
  }

  /** The values from x on, in the order the pointers lead through them. */
  ghost function Follow(ls: Leaves, i: nat): seq<nat>
    requires Linked(ls) && i < |ls|
    decreases |ValuesAbove(ls, ls[i].value)|
  {
    var next := ls[i].nextValue;
    assert PointsRight(ls, i);
    if next == 0 then [ls[i].value]
    else
      AboveShrinks(ls, ls[i].value, next);
      [ls[i].value] + Follow(ls, IndexOfValue(ls, next))
  }

  ghost function ValuesAbove(ls: Leaves, x: nat): set<nat> {
    set y | y in Values(ls) && y > x
  }

  lemma AboveShrinks(ls: Leaves, x: nat, y: nat)
    requires x < y && y in Values(ls)
    ensures ValuesAbove(ls, y) < ValuesAbove(ls, x)
    ensures |ValuesAbove(ls, y)| < |ValuesAbove(ls, x)|
  {
    assert y in ValuesAbove(ls, x) && y !in ValuesAbove(ls, y);
    var d := ValuesAbove(ls, x) - ValuesAbove(ls, y);
    assert ValuesAbove(ls, x) == ValuesAbove(ls, y) + d;
    assert y in d;
  }

  /** f climbs and holds exactly the stored values from x on. */
  ghost predicate ClimbsFrom(vs: seq<nat>, x: nat, f: seq<nat>) {
    && (forall a, b :: 0 <= a < b < |f| ==> f[a] < f[b])
    && (forall y :: y in f <==> y in vs && y >= x)
  }

  lemma ClimbsFromStep(vs: seq<nat>, x: nat, next: nat, g: seq<nat>)
    requires IsNext(vs, x, next) && next != 0 && x in vs && ClimbsFrom(vs, next, g)
    ensures ClimbsFrom(vs, x, [x] + g)
  {
    var f := [x] + g;
    forall a, b | 0 <= a < b < |f| ensures f[a] < f[b] {
      assert g[b - 1] in g;
    }
    forall y ensures y in f <==> y in vs && y >= x {
      assert y in f <==> y == x || y in g;
    }
  }

  /** The pointers from leaf i lead through exactly the values from its own on, climbing. */
  lemma {:induction false} FollowClimbs(ls: Leaves, i: nat)
    requires Linked(ls) && i < |ls|
    ensures ClimbsFrom(Values(ls), ls[i].value, Follow(ls, i))
    decreases |ValuesAbove(ls, ls[i].value)|
  {
    var vs, x, next := Values(ls), ls[i].value, ls[i].nextValue;
    assert PointsRight(ls, i) && vs[i] == x;
    if next != 0 {
      AboveShrinks(ls, x, next);
      FollowClimbs(ls, IndexOfValue(ls, next));
      ClimbsFromStep(vs, x, next, Follow(ls, IndexOfValue(ls, next)));
    }
  }

  /** From the sentinel the pointers visit every leaf exactly once, in ascending order. */
  lemma {:induction false} FollowVisitsAll(ls: Leaves)
    requires Linked(ls) && ls != []
    ensures var f := Follow(ls, 0);
      && (forall a, b :: 0 <= a < b < |f| ==> f[a] < f[b])
      && multiset(f) == multiset(Values(ls))
  {
    FollowClimbs(ls, 0);
    SameMultiset(Follow(ls, 0), Values(ls));
  }

  lemma {:induction false} OccursOnce(s: seq<nat>, x: nat)
    requires Distinct(s)
    ensures multiset(s)[x] == if x in s then 1 else 0
  {
    if s != [] {
      var front, last := s[..|s| - 1], s[|s| - 1];
      assert s == front + [last];
      OccursOnce(front, x);
    }
  }

  lemma SameMultiset(a: seq<nat>, b: seq<nat>)
    requires Distinct(a) && Distinct(b)
    requires forall x :: x in a <==> x in b
    ensures multiset(a) == multiset(b)
  {
    forall x ensures multiset(a)[x] == multiset(b)[x] {
      OccursOnce(a, x);
      OccursOnce(b, x);
    }
  }
}
