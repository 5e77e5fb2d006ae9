/** The Merkle tree hash of merklehasher/merkle_hasher.go. */
module MerkleHasher {
  import opened Common
  import opened Words

  // Domain separation prefixes.
  const LEAF_HASH_PREFIX: byte := 0
  const NODE_HASH_PREFIX: byte := 1

  /** A hash function with digests of `size` bytes. Nothing else is known about `digest`: every
      statement about roots and proofs names the pair of preimages that would have to collide. */
  datatype Hasher = Hasher(digest: Bytes -> Bytes, size: nat)
  {
    ghost predicate Valid() {
      forall m: Bytes :: |digest(m)| == size
    }

    function EmptyRoot(): Bytes {
      digest([])
    }

    function HashLeaf(l: Bytes): Bytes {
      digest(LeafPreimage(l))
    }

    function HashNode(l: Bytes, r: Bytes): Bytes {
      digest(NodePreimage(l, r))
    }

    /** The Merkle tree hash of `data`. */
    function Hash(data: seq<Bytes>): Bytes
      decreases |data|
    {
      if |data| == 0 then EmptyRoot()
      else if |data| == 1 then HashLeaf(data[0])
      else
        var k := LargestPowerOfTwo(|data|);
        HashNode(Hash(data[..k]), Hash(data[k..]))
    }

    /** The byte strings handed to the hash function while computing `Hash(data)`. */
    ghost function Preimages(data: seq<Bytes>): set<Bytes>
      decreases |data|
    {
      if |data| == 0 then {[]}
      else if |data| == 1 then {LeafPreimage(data[0])}
      else
        var k := LargestPowerOfTwo(|data|);
        {NodePreimage(Hash(data[..k]), Hash(data[k..]))} + Preimages(data[..k]) + Preimages(data[k..])
    }

    /** The byte string whose digest is `Hash(data)`. */
    function RootPreimage(data: seq<Bytes>): (m: Bytes)
      ensures digest(m) == Hash(data)
      ensures m in Preimages(data)
    {
      if |data| == 0 then []
      else if |data| == 1 then LeafPreimage(data[0])
      else
        var k := LargestPowerOfTwo(|data|);
        NodePreimage(Hash(data[..k]), Hash(data[k..]))
    }

    /** `c` holds two different byte strings of `hashed` with the same digest. */
    ghost predicate Collides(c: Option<Collision>, hashed: set<Bytes>) {
      && c.Some?
      && c.value.first in hashed
      && c.value.second in hashed
      && c.value.first != c.value.second
      && digest(c.value.first) == digest(c.value.second)
    }

    /** Walks down two lists and returns the first pair of different preimages it meets. */
    function BindingCollision(a: seq<Bytes>, b: seq<Bytes>): Option<Collision>
      decreases |a|
    {
      if RootPreimage(a) != RootPreimage(b) then Some(Collision(RootPreimage(a), RootPreimage(b)))
      else if |a| < 2 || |b| < 2 then None
      else
        var j, k := LargestPowerOfTwo(|a|), LargestPowerOfTwo(|b|);
        var left := BindingCollision(a[..j], b[..k]);
        if left.Some? then left else BindingCollision(a[j..], b[k..])
    }
  }

  datatype Collision = Collision(first: Bytes, second: Bytes)

  function LeafPreimage(l: Bytes): Bytes {
    [LEAF_HASH_PREFIX] + l
  }

  function NodePreimage(l: Bytes, r: Bytes): Bytes {
    [NODE_HASH_PREFIX] + l + r
  }

  /** The largest power of two less than `x`; the source panics below 2. */
  function LargestPowerOfTwo(x: int): (k: nat)
    requires x >= 2
    ensures 1 <= k < x <= 2 * k
  {
    BitLenBounds(x - 1);
    Pow2(BitLen(x - 1) - 1)
  }

  lemma LargestPowerOfTwoIsPower(x: int)
    requires x >= 2
    ensures exists e: nat :: LargestPowerOfTwo(x) == Pow2(e)
  {
    BitLenBounds(x - 1);
    assert LargestPowerOfTwo(x) == Pow2(BitLen(x - 1) - 1);
  }

  /** The Merkle tree hash of RFC 6962, section 2.1: the empty list is hashed to the digest of nothing, a
      single element behind a 0, and longer lists, split at the largest power of two below their length,
      behind a 1, the left half first. */
  lemma HashIsMerkleTreeHash(h: Hasher, data: seq<Bytes>, e: nat)
    ensures |data| == 0 ==> h.Hash(data) == h.digest([])
    ensures |data| == 1 ==> h.Hash(data) == h.digest([0] + data[0])
    ensures Pow2(e) < |data| <= 2 * Pow2(e) ==>
      h.Hash(data) == h.digest([1] + h.Hash(data[..Pow2(e)]) + h.Hash(data[Pow2(e)..]))
  {
    hide Pow2, LargestPowerOfTwo;
    if Pow2(e) < |data| <= 2 * Pow2(e) {
      Pow2Positive(e);
      LargestPowerOfTwoIsPower(|data|);
      var f: nat :| LargestPowerOfTwo(|data|) == Pow2(f);
      NotSmaller(e, f, |data|);
      NotSmaller(f, e, |data|);
    }
  }

  lemma Pow2Positive(e: nat)
    ensures Pow2(e) >= 1
  {
  }

  lemma NotSmaller(e: nat, f: nat, n: nat)
    requires Pow2(e) < n <= 2 * Pow2(e) && Pow2(f) < n <= 2 * Pow2(f)
    ensures e >= f
  {
    if e < f {
      Pow2Monotone(e + 1, f);
    }
  }

  lemma HashLength(h: Hasher, data: seq<Bytes>)
    requires h.Valid()
    ensures |h.Hash(data)| == h.size
  {
    assert h.Hash(data) == h.digest(h.RootPreimage(data));
  }

  lemma LeafInjective(a: Bytes, b: Bytes)
    requires LeafPreimage(a) == LeafPreimage(b)
    ensures a == b
  {
    assert LeafPreimage(a)[1..] == a && LeafPreimage(b)[1..] == b;
  }

  /** The boundary between the two child digests of a node preimage can be recovered as soon as the
      length of one of the children is known. */
  lemma NodeInjective(l: Bytes, r: Bytes, l': Bytes, r': Bytes)
    requires NodePreimage(l, r) == NodePreimage(l', r')
    requires |l| == |l'| || |r| == |r'|
    ensures l == l' && r == r'
  {
    var m := NodePreimage(l, r);
    assert |m| == 1 + |l| + |r| == 1 + |l'| + |r'|;
    assert m[1..1 + |l|] == l && m[1 + |l|..] == r;
    assert NodePreimage(l', r')[1..1 + |l'|] == l' && NodePreimage(l', r')[1 + |l'|..] == r';
  }

  /** The two halves of a list are hashed on the way to its root. */
  lemma HalvesHashed(h: Hasher, data: seq<Bytes>, k: int)
    requires |data| >= 2 && k == LargestPowerOfTwo(|data|)
    ensures h.RootPreimage(data) == NodePreimage(h.Hash(data[..k]), h.Hash(data[k..]))
    ensures h.Preimages(data[..k]) <= h.Preimages(data)
    ensures h.Preimages(data[k..]) <= h.Preimages(data)
  {
  }

  /** `c` is None and the lists are equal, or `c` is a collision among the strings in `hashed`. */
  ghost predicate EqualOrCollides(h: Hasher, a: seq<Bytes>, b: seq<Bytes>, c: Option<Collision>, hashed: set<Bytes>) {
    if c.None? then a == b else h.Collides(c, hashed)
  }

  lemma HalfHashesAgree(h: Hasher, a: seq<Bytes>, b: seq<Bytes>, j: int, k: int)
    requires h.Valid()
    requires |a| >= 2 && |b| >= 2 && j == LargestPowerOfTwo(|a|) && k == LargestPowerOfTwo(|b|)
    requires h.RootPreimage(a) == h.RootPreimage(b)
    ensures h.Hash(a[..j]) == h.Hash(b[..k]) && h.Hash(a[j..]) == h.Hash(b[k..])
  {
    HalvesHashed(h, a, j);
    HalvesHashed(h, b, k);
    HashLength(h, a[..j]);
    HashLength(h, b[..k]);
    NodeInjective(h.Hash(a[..j]), h.Hash(a[j..]), h.Hash(b[..k]), h.Hash(b[k..]));
  }

  lemma HalfVerdictsLift(h: Hasher, a: seq<Bytes>, b: seq<Bytes>, j: nat, k: nat,
                         l: Option<Collision>, r: Option<Collision>, left: set<Bytes>, right: set<Bytes>, hashed: set<Bytes>)
    requires j <= |a| && k <= |b| && left <= hashed && right <= hashed
    requires EqualOrCollides(h, a[..j], b[..k], l, left) && EqualOrCollides(h, a[j..], b[k..], r, right)
    ensures EqualOrCollides(h, a, b, if l.Some? then l else r, hashed)
  {
    assert a == a[..j] + a[j..] && b == b[..k] + b[k..];
  }

  /** Two lists with the same root are the same list, or `BindingCollision` exhibits two different
      byte strings, both hashed while computing these two roots, that have the same digest. */
  lemma {:induction false} RootBindsList(h: Hasher, a: seq<Bytes>, b: seq<Bytes>)
    requires h.Valid()
    requires h.Hash(a) == h.Hash(b)
    ensures EqualOrCollides(h, a, b, h.BindingCollision(a, b), h.Preimages(a) + h.Preimages(b))
    decreases |a|
  {
    if h.RootPreimage(a) != h.RootPreimage(b) {
    } else if |a| < 2 || |b| < 2 {
      SmallRootPreimage(h, a, b);
    } else {
      var j, k := LargestPowerOfTwo(|a|), LargestPowerOfTwo(|b|);
      HalfHashesAgree(h, a, b, j, k);
      RootBindsList(h, a[..j], b[..k]);
      RootBindsList(h, a[j..], b[k..]);
      HalvesHashed(h, a, j);
      HalvesHashed(h, b, k);
      HalfVerdictsLift(h, a, b, j, k, h.BindingCollision(a[..j], b[..k]), h.BindingCollision(a[j..], b[k..]),
                       h.Preimages(a[..j]) + h.Preimages(b[..k]), h.Preimages(a[j..]) + h.Preimages(b[k..]),
                       h.Preimages(a) + h.Preimages(b));
    }
  }

  /** Leaf, node and empty preimages are told apart by their first byte. */
  lemma SmallRootPreimage(h: Hasher, a: seq<Bytes>, b: seq<Bytes>)
    requires h.RootPreimage(a) == h.RootPreimage(b)
    requires |a| < 2 || |b| < 2
    ensures a == b
  {
    var m, m' := h.RootPreimage(a), h.RootPreimage(b);
    assert |a| == 0 <==> m == [];
    assert |b| == 0 <==> m' == [];
    assert |a| == 1 <==> m != [] && m[0] == LEAF_HASH_PREFIX;
    assert |b| == 1 <==> m' != [] && m'[0] == LEAF_HASH_PREFIX;
    if |a| == 1 {
      LeafInjective(a[0], b[0]);
    }
  }

  /** What `Bytes()` of a list element returns: its serialization, or None for an error. */
  type Value = Option<Bytes>

  predicate AllSerialize(values: seq<Value>) {
    forall i :: 0 <= i < |values| ==> values[i].Some?
  }

  function Serialized(values: seq<Value>): seq<Bytes>
    requires AllSerialize(values)
  {
    seq(|values|, i requires 0 <= i < |values| => values[i].value)
  }

  /** Fills a slice with the serializations of `values`; stops at the first error. */
  method SerializeAll(values: seq<Value>) returns (r: Option<seq<Bytes>>)
    ensures r.Some? <==> AllSerialize(values)
    ensures r.Some? ==> r.value == Serialized(values)
  {
    var data := new Bytes[|values|](_ => []);
    for i := 0 to |values|
      invariant forall j :: 0 <= j < i ==> values[j].Some? && data[j] == values[j].value
    {
      if values[i].None? {
        return None;
      }
      data[i] := values[i].value;
    }
    assert data[..] == Serialized(values);
    return Some(data[..]);
  }

  method HashValues(h: Hasher, values: seq<Value>) returns (r: Option<Bytes>)
    ensures r.Some? <==> AllSerialize(values)
    ensures r.Some? ==> r.value == h.Hash(Serialized(values))
  {
    var data := SerializeAll(values);
    if data.None? {
      return None;
    }
    return Some(h.Hash(data.value));
  }
}
