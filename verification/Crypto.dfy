/** The hash and signature layer of `pkg/crypto`, `pkg/merkle/merkle.go` and `pkg/types/leaf.go`.

    SHA-256 is an arbitrary fixed function `HashBytes`, and Ed25519 verification an arbitrary fixed
    predicate `VerifySignature`: everything proved in this project holds for every choice of the two.
    Since a hash function that maps all byte strings to 32 bytes has collisions, nothing here is
    allowed to assume the contrary.  A security claim is instead proved by a function that returns
    a `MaybeCollision`: either the claim holds, or the function has computed two different byte
    strings with the same hash. */
module Crypto {

  newtype byte = b: int | 0 <= b < 256

  type Bytes32 = b: seq<byte> | |b| == 32 witness seq(32, _ => 0)
  type Bytes64 = b: seq<byte> | |b| == 64 witness seq(64, _ => 0)

  datatype Hash = Hash(bytes: Bytes32)
  datatype PublicKey = PublicKey(bytes: Bytes32)
  datatype Signature = Signature(bytes: Bytes64)

  datatype Option<+T> = None | Some(value: T)

  /** SHA-256. */
  const HashBytes: seq<byte> -> Hash

  /** Ed25519 signature verification. */
  const VerifySignature: (PublicKey, seq<byte>, Signature) -> bool

  const PREFIX_LEAF_NODE: byte := 0
  const PREFIX_INTERIOR_NODE: byte := 1

  function FormatLeafNode(b: seq<byte>): seq<byte> {
    [PREFIX_LEAF_NODE] + b
  }

  function FormatInteriorNode(left: Hash, right: Hash): seq<byte> {
    [PREFIX_INTERIOR_NODE] + left.bytes + right.bytes
  }

  function HashLeafNode(b: seq<byte>): Hash {
    HashBytes(FormatLeafNode(b))
  }

  function HashInteriorNode(left: Hash, right: Hash): Hash {
    HashBytes(FormatInteriorNode(left, right))
  }

  function HashEmptyTree(): Hash {
    HashBytes([])
  }

  /** What is hashed for a leaf, an interior node and the empty tree is never the same; and only the same
      children are hashed alike for an interior node, and the same content for a leaf. */
  lemma {:induction false} DomainsAreSeparate(b: seq<byte>, b': seq<byte>, left: Hash, right: Hash,
                                              left': Hash, right': Hash)
    ensures FormatLeafNode(b) == [0] + b && FormatInteriorNode(left, right) == [1] + left.bytes + right.bytes
    ensures FormatLeafNode(b) != FormatInteriorNode(left, right)
    ensures FormatLeafNode(b) != [] && FormatInteriorNode(left, right) != []
    ensures FormatLeafNode(b) == FormatLeafNode(b') ==> b == b'
    ensures FormatInteriorNode(left, right) == FormatInteriorNode(left', right') ==> left == left' && right == right'
  {
    var f, g := FormatInteriorNode(left, right), FormatInteriorNode(left', right');
    assert FormatLeafNode(b)[0] == 0 && f[0] == 1;
    assert FormatLeafNode(b)[1..] == b && FormatLeafNode(b')[1..] == b';
    assert left.bytes == f[1..33] && right.bytes == f[33..65];
    assert left'.bytes == g[1..33] && right'.bytes == g[33..65];
  }

  /** Two different byte strings with the same hash. */
  datatype Collision = Collision(x: seq<byte>, y: seq<byte>) {
    predicate Valid() {
      x != y && HashBytes(x) == HashBytes(y)
    }
  }

  type MaybeCollision = c: Option<Collision> | c.Some? ==> c.value.Valid() witness None

  /** Equal interior hashes have equal children, or are a collision. */
  function InteriorCollision(a: Hash, b: Hash, x: Hash, y: Hash): (c: MaybeCollision)
    requires HashInteriorNode(a, b) == HashInteriorNode(x, y)
    ensures c.None? ==> a == x && b == y
  {
    var f, g := FormatInteriorNode(a, b), FormatInteriorNode(x, y);
    assert a.bytes == f[1..33] && b.bytes == f[33..65];
    assert x.bytes == g[1..33] && y.bytes == g[33..65];
    if f == g then None else Some(Collision(f, g))
  }
}
