/**
  keccak256 as an arbitrary function from byte strings to 32-byte strings.

  No such function is injective, so injectivity is never assumed globally. The binding theorems
  name the finite set of strings a run actually hashed and say: the claim holds, or two different
  strings of that very set have the same hash.
 */
module Hashing {
  import opened Buffers

  type Hasher = Bytes -> Hash

  ghost predicate CollisionFree(keccak: Hasher, hashed: set<Bytes>) {
    forall a, b | a in hashed && b in hashed && keccak(a) == keccak(b) :: a == b
  }

  ghost predicate Collides(keccak: Hasher, hashed: set<Bytes>, a: Bytes, b: Bytes) {
    a in hashed && b in hashed && a != b && keccak(a) == keccak(b)
  }

  lemma {:induction false} FindCollision(keccak: Hasher, hashed: set<Bytes>) returns (a: Bytes, b: Bytes)
    requires !CollisionFree(keccak, hashed)
    ensures Collides(keccak, hashed, a, b)
  {
    a, b :| a in hashed && b in hashed && keccak(a) == keccak(b) && a != b;
  }
}
