/** The records of leaf.go and proof.go and the hasher interface of hasher.go. */
module Types {
  import opened Wrappers
  import opened Arith

  /** Any two-argument hash; the tree code never looks inside it. */
  type Hasher = (nat, nat) -> nat

  /** A value of the sorted linked list with its successor, or 0 at the tail. */
  datatype IndexedLeaf = IndexedLeaf(value: nat, nextValue: nat)

  /** A grid cell: `None` stands for Go's nil. */
  type Node = Option<nat>

  datatype Error =
    | EmptyTree
    | InsertZero
    | Duplicate
    | NoValues
    | Unsorted
    | LowLeafNotFound
    | StateLengthMismatch
    | EmptyNodes

  type uint8 = x: nat | x < 256
  type uint64 = x: nat | x < TWO_64

  const PROOF_MEMBERSHIP: uint8 := 0
  const PROOF_NON_MEMBERSHIP: uint8 := 1

  /** The pointers a hostile caller can leave nil are options; so is the proof itself, in `Verify`. */
  datatype Proof = Proof(
    proofType: uint8,
    root: Node,
    value: Node,
    leafValue: Node,
    leafNextValue: Node,
    leafIndex: uint64,
    siblings: seq<nat>)

  ghost predicate Collide(h: Hasher, a: nat, b: nat, c: nat, d: nat) {
    h(a, b) == h(c, d) && (a, b) != (c, d)
  }

  /** No two different pairs have the same hash. */
  ghost predicate Injective(h: Hasher) {
    forall a: nat, b: nat, c: nat, d: nat :: !Collide(h, a, b, c, d)
  }

  lemma NoCollision(h: Hasher, a: nat, b: nat, c: nat, d: nat)
    requires Injective(h) && h(a, b) == h(c, d)
    ensures a == c && b == d
  {
    assert !Collide(h, a, b, c, d);
  }

  /** x is the hash of some pair. */
  ghost predicate IsOutput(h: Hasher, x: nat) {
    exists a: nat, b: nat :: h(a, b) == x
  }

  /** One of the two numbers of a leaf record is a hash. */
  ghost predicate HoldsOutput(h: Hasher, leaf: IndexedLeaf) {
    IsOutput(h, leaf.value) || IsOutput(h, leaf.nextValue)
  }

  /** An ideal two-to-one hash: injective, with no output below the bound that user values stay under. */
  ghost predicate Ideal(h: Hasher, bound: nat) {
    Injective(h) && forall a: nat, b: nat :: h(a, b) >= bound
  }

  lemma SmallIsNoOutput(h: Hasher, bound: nat, x: nat)
    requires Ideal(h, bound) && x < bound
    ensures !IsOutput(h, x)
  {
  }

  // Cantor's pairing moved up by the bound is such a hash, so `Ideal` can be met for every bound.

  function Triangle(s: nat): nat {
    if s == 0 then 0 else Triangle(s - 1) + s
  }

  function CantorHash(bound: nat): Hasher {
    (a: nat, b: nat) => bound + Triangle(a + b) + b
  }

  lemma {:induction false} TriangleMonotone(s: nat, t: nat)
    requires s < t
    ensures Triangle(s) + s < Triangle(t)
    decreases t
  {
    if s < t - 1 {
      TriangleMonotone(s, t - 1);
    }
  }

  lemma {:induction false} IdealHashExists(bound: nat)
    ensures Ideal(CantorHash(bound), bound)
  {
    var h := CantorHash(bound);
    forall a: nat, b: nat, c: nat, d: nat
      ensures !Collide(h, a, b, c, d)
    {
      if a + b < c + d {
        TriangleMonotone(a + b, c + d);
      } else if c + d < a + b {
        TriangleMonotone(c + d, a + b);
      }
    }
  }
}
