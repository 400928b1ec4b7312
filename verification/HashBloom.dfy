/** The Bloom filter of uthash.h: a bit vector indexed by the low bits of the hash value. */
module HashBloom {
  import opened Bits

  /** 1U << i */
  function Bit(i: nat): bv8
    requires i < 8
  {
    match i
    case 0 => 1
    case 1 => 2
    case 2 => 4
    case 3 => 8
    case 4 => 16
    case 5 => 32
    case 6 => 64
    case 7 => 128
  }

  predicate HasBit(x: bv8, i: nat)
    requires i < 8
  {
    x & Bit(i) != 0
  }

  function WithBit(x: bv8, i: nat): bv8
    requires i < 8
  {
    x | Bit(i)
  }

  lemma BitSetTest(x: bv8, i: nat, j: nat)
    requires i < 8 && j < 8
    ensures HasBit(WithBit(x, i), j) <==> i == j || HasBit(x, j)
  {
  }

  predicate TestBit(bv: seq<bv8>, idx: nat)
    requires idx / 8 < |bv|
  {
    HasBit(bv[idx / 8], idx % 8)
  }

  /** HASH_BLOOM_BITSET */
  function SetBit(bv: seq<bv8>, idx: nat): (r: seq<bv8>)
    requires idx / 8 < |bv|
    ensures |r| == |bv|
  {
    bv[idx / 8 := WithBit(bv[idx / 8], idx % 8)]
  }

  /** Setting a bit sets that bit and no other. */
  lemma SetTest(bv: seq<bv8>, idx: nat, j: nat)
    requires idx / 8 < |bv| && j / 8 < |bv|
    ensures TestBit(SetBit(bv, idx), j) <==> j == idx || TestBit(bv, j)
  {
    hide HasBit, WithBit;
    BitSetTest(bv[idx / 8], idx % 8, j % 8);
    SameIndex(idx, j);
  }

  lemma SameIndex(i: nat, j: nat)
    ensures i == j <==> i / 8 == j / 8 && i % 8 == j % 8
  {
  }

  /** HASH_BLOOM_BYTELEN */
  function ByteLength(nbits: nat): nat {
    Pow2(nbits) / 8 + if Pow2(nbits) % 8 != 0 then 1 else 0
  }

  /** The bit a hash value selects, and that the vector has it. */
  function Index(hashv: nat, nbits: nat): (r: nat)
    ensures r / 8 < ByteLength(nbits)
  {
    AndMask(hashv, nbits);
    IndexInRange(hashv % Pow2(nbits), Pow2(nbits));
    And(hashv, Pow2(nbits) - 1)
  }

  /** The low nbits bits of the hash value; and the vector has just enough bytes for 2^nbits bits. */
  lemma IndexIs(hashv: nat, nbits: nat)
    ensures Index(hashv, nbits) == hashv % Pow2(nbits)
    ensures Pow2(nbits) <= 8 * ByteLength(nbits) < Pow2(nbits) + 8
  {
    hide And, Pow2;
    AndMask(hashv, nbits);
  }

  /** Bit i of a byte is its i-th binary digit. */
  lemma BitIsDigit(x: bv8, i: nat)
    requires i < 8
    ensures HasBit(x, i) <==> (x >> i) & 1 == 1
  {
  }

  lemma IndexInRange(r: nat, n: nat)
    requires r < n
    ensures r / 8 < n / 8 + if n % 8 != 0 then 1 else 0
  {
  }

  method Add(bv: array<bv8>, nbits: nat, hashv: nat)
    requires bv.Length == ByteLength(nbits)
    modifies bv
    ensures bv[..] == SetBit(old(bv[..]), Index(hashv, nbits))
  {
    hide WithBit, ByteLength;
    var idx := Index(hashv, nbits);
    bv[idx / 8] := WithBit(bv[idx / 8], idx % 8);
  }

  /** Once added, a hash value tests positive for good: later additions never clear a bit. */
  lemma AddKeeps(bv: seq<bv8>, nbits: nat, hashv: nat, h: nat)
    requires |bv| == ByteLength(nbits)
    ensures TestBit(SetBit(bv, Index(hashv, nbits)), Index(hashv, nbits))
    ensures TestBit(bv, Index(h, nbits)) ==> TestBit(SetBit(bv, Index(hashv, nbits)), Index(h, nbits))
  {
    SetTest(bv, Index(hashv, nbits), Index(hashv, nbits));
    SetTest(bv, Index(hashv, nbits), Index(h, nbits));
  }
}
