/** Block options (block.h) and the byte encoding they travel in. */
module Block {
  import opened Bits

  /** An unsigned option value in as few big-endian bytes as possible; zero takes none. */
  function EncodeVarBytes(v: nat): (buf: seq<Byte>) {
    if v == 0 then [] else EncodeVarBytes(v / 256) + [(v % 256) as Byte]
  }

  function DecodeVarBytes(buf: seq<Byte>): nat {
    if |buf| == 0 then 0 else 256 * DecodeVarBytes(buf[..|buf| - 1]) + buf[|buf| - 1] as nat
  }

  lemma {:induction false} VarBytesRoundTrip(v: nat)
    ensures DecodeVarBytes(EncodeVarBytes(v)) == v
  {
    if v > 0 {
      VarBytesRoundTrip(v / 256);
      var buf := EncodeVarBytes(v);
      assert buf[..|buf| - 1] == EncodeVarBytes(v / 256);
    }
  }

  /** k bytes are enough exactly below 256^k. */
  lemma {:induction false} VarBytesLength(v: nat, k: nat)
    ensures |EncodeVarBytes(v)| <= k <==> v < Pow2(8 * k)
  {
    if v > 0 && k > 0 {
      VarBytesLength(v / 256, k - 1);
      Pow2Add(8 * (k - 1), 8);
      SmallPowers();
      assert Pow2(8 * k) == Pow2(8 * (k - 1)) * 256;
    }
  }

  /** num, the more flag and szx as one option value. */
  function BlockValue(num: nat, more: bool, szx: nat): nat
    requires szx < 8
  {
    16 * num + (if more then 8 else 0) + szx
  }

  /** COAP_OPT_BLOCK_LAST, COAP_OPT_BLOCK_MORE and COAP_OPT_BLOCK_SZX: the last byte, if there is one. */
  function OptBlockLast(opt: seq<Byte>): nat {
    if |opt| > 0 then opt[|opt| - 1] as nat else 0
  }

  predicate OptBlockMore(opt: seq<Byte>) {
    And(OptBlockLast(opt), 8) != 0
  }

  function OptBlockSzx(opt: seq<Byte>): (r: nat)
    ensures r < 8
  {
    LowBits(OptBlockLast(opt));
    And(OptBlockLast(opt), 7)
  }

  /** coap_opt_block_num, whose body is not shown: the value without its low four bits. */
  function OptBlockNum(opt: seq<Byte>): nat {
    DecodeVarBytes(opt) / 16
  }

  lemma LowBits(v: nat)
    ensures And(v, 7) == v % 8 && (And(v, 8) != 0 <==> v / 8 % 2 == 1)
  {
    SmallPowers();
    AndMask(v, 3);
    assert And(v, 8) == 2 * And(v / 2, 4) && And(v / 2, 4) == 2 * And(v / 2 / 2, 2)
        && And(v / 2 / 2, 2) == 2 * And(v / 2 / 2 / 2, 1);
    assert And(v / 8, 1) == v / 8 % 2;
  }

  /** b with bit 3 set or cleared. */
  function WithBit3(b: Byte, m: bool): Byte {
    if b / 8 % 2 == 1 then (if m then b else b - 8) else (if m then b + 8 else b)
  }

  lemma WithBit3Keeps(b: Byte, m: bool)
    ensures var r := WithBit3(b, m); r / 16 == b / 16 && r % 8 == b % 8 && (r / 8 % 2 == 1 <==> m)
  {
  }

  lemma LastByte(opt: seq<Byte>)
    requires |opt| > 0
    ensures var b := opt[|opt| - 1] as nat;
            && OptBlockMore(opt) == (b / 8 % 2 == 1) && OptBlockSzx(opt) == b % 8
            && OptBlockNum(opt) == 16 * DecodeVarBytes(opt[..|opt| - 1]) + b / 16
  {
    LowBits(opt[|opt| - 1] as nat);
  }

  /** The accessors read back what was encoded, the zero-length option included. */
  lemma OptionRoundTrip(num: nat, more: bool, szx: nat)
    requires szx < 8
    ensures var opt := EncodeVarBytes(BlockValue(num, more, szx));
            OptBlockNum(opt) == num && OptBlockMore(opt) == more && OptBlockSzx(opt) == szx
  {
    var v := BlockValue(num, more, szx);
    var opt := EncodeVarBytes(v);
    if v > 0 {
      hide OptBlockNum, OptBlockMore, OptBlockSzx, DecodeVarBytes;
      VarBytesRoundTrip(v / 256);
      LastByte(opt);
      assert opt[..|opt| - 1] == EncodeVarBytes(v / 256);
      Nibbles(num, more, szx);
    }
  }

  lemma Nibbles(num: nat, more: bool, szx: nat)
    requires szx < 8
    ensures var v := BlockValue(num, more, szx);
            16 * (v / 256) + v % 256 / 16 == num && (v % 256 / 8 % 2 == 1 <==> more) && v % 256 % 8 == szx
  {
  }

  /** The macro writes the last byte of the option. Only the option of block 0 without the more flag at the smallest
      size has none; every other has one. */
  lemma LastByteExists(num: nat, more: bool, szx: nat)
    requires szx < 8
    ensures |EncodeVarBytes(BlockValue(num, more, szx))| > 0 <==> num > 0 || more || szx > 0
  {
    assert BlockValue(num, more, szx) > 0 <==> num > 0 || more || szx > 0;
  }

  /** coap_opt_block_set_m, in place on the option's last byte: only the more flag changes. */
  method SetM(opt: array<Byte>, m: bool)
    requires opt.Length > 0
    modifies opt
    ensures forall i :: 0 <= i < opt.Length - 1 ==> opt[i] == old(opt[i])
    ensures OptBlockMore(opt[..]) == m && OptBlockSzx(opt[..]) == old(OptBlockSzx(opt[..]))
    ensures OptBlockNum(opt[..]) == old(OptBlockNum(opt[..]))
  {
    hide OptBlockMore, OptBlockSzx, OptBlockNum, DecodeVarBytes, WithBit3;
    var last := opt.Length - 1;
    ghost var was := opt[..];
    LastByte(was);
    WithBit3Keeps(opt[last], m);
    opt[last] := WithBit3(opt[last], m);
    LastByte(opt[..]);
    assert opt[..][..last] == was[..last];
  }

  /** coap_more_blocks */
  predicate MoreBlocks(dataLen: nat, num: nat, szx: nat) {
    (num + 1) * Pow2(szx + 4) < dataLen
  }

  /** For every block number of 20 bits and size exponent of 3 bits the shift fits in 32 bits. */
  lemma MoreBlocksFits(num: nat, szx: nat)
    requires num < Pow2(20) && szx < 8
    ensures (num + 1) * Pow2(szx + 4) < Pow2(32)
  {
    hide Pow2;
    Pow2Monotone(szx + 4, 11);
    Pow2Add(20, 11);
    Pow2Add(31, 1);
    Product(num + 1, Pow2(20), Pow2(szx + 4), Pow2(11));
    SmallPowers();
  }

  lemma Product(a: nat, b: nat, c: nat, d: nat)
    requires a <= b && c <= d
    ensures a * c <= b * d
  {
    assert (b - a) * c >= 0 && b * (d - c) >= 0;
    assert (b - a) * c == b * c - a * c && b * (d - c) == b * d - b * c;
  }
}
