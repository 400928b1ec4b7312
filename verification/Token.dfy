/** The request tokens of creatTheToken (sections 3 and 5.3.1 of RFC 7252). */
module Token {
  import opened Bits

  /** The token counter is a uint64_t. */
  const WRAP := 0x1_0000_0000_0000_0000

  function Pow256(n: nat): (r: nat)
    ensures r >= 1
  {
    if n == 0 then 1 else 256 * Pow256(n - 1)
  }

  /** The number a little-endian byte string stands for. */
  function Value(ds: seq<Byte>): nat {
    if ds == [] then 0 else ds[0] + 256 * Value(ds[1..])
  }

  /** No byte could be dropped from the top. */
  predicate Minimal(ds: seq<Byte>) {
    ds != [] ==> ds[|ds| - 1] != 0
  }

  /** The token of a counter value. */
  function TokenOf(k: nat): seq<Byte> {
    if k == 0 then [] else [k % 256] + TokenOf(k / 256)
  }

  /** The token of k is its minimal form: it decodes to k and has no zero on top. */
  lemma {:induction false} TokenDecodes(k: nat)
    ensures Value(TokenOf(k)) == k && Minimal(TokenOf(k))
  {
    if k > 0 {
      TokenDecodes(k / 256);
      assert TokenOf(k)[1..] == TokenOf(k / 256);
    }
  }

  /** The minimal form of a number is unique. */
  lemma {:induction false} TokenUnique(ds: seq<Byte>)
    requires Minimal(ds)
    ensures TokenOf(Value(ds)) == ds
  {
    if ds != [] {
      var rest := ds[1..];
      TokenUnique(rest);
      if rest != [] {
        assert rest[|rest| - 1] == ds[|ds| - 1];
        assert TokenOf(Value(rest)) != [];
      }
      assert Value(ds) % 256 == ds[0] && Value(ds) / 256 == Value(rest);
      assert ds == [ds[0]] + rest;
    }
  }

  /** Little-endian: what follows k bytes counts 256^k times. */
  lemma {:induction false} ValueConcat(a: seq<Byte>, b: seq<Byte>)
    ensures Value(a + b) == Value(a) + Pow256(|a|) * Value(b)
    ensures |b| == 1 ==> Value(b) == b[0]
  {
    if a == [] {
      assert a + b == b;
    } else {
      var p, v := Pow256(|a| - 1), Value(b);
      ValueConcat(a[1..], b);
      assert (a + b)[1..] == a[1..] + b;
      assert Value(a + b) == a[0] + 256 * Value(a[1..] + b);
      hide Value, Pow256;
      Times256(p, v);
    }
  }

  lemma Times256(p: nat, v: nat)
    ensures 256 * (p * v) == (256 * p) * v
  {
  }

  /** n bytes are enough exactly for the numbers below 256^n. */
  lemma {:induction false} TokenLength(k: nat, n: nat)
    ensures |TokenOf(k)| <= n <==> k < Pow256(n)
  {
    if k > 0 && n > 0 {
      TokenLength(k / 256, n - 1);
    }
  }

  lemma EightBytes()
    ensures Pow256(8) == WRAP
  {
    assert Pow256(1) == 0x100 && Pow256(2) == 0x1_0000 && Pow256(3) == 0x100_0000 && Pow256(4) == 0x1_0000_0000;
    assert Pow256(5) == 0x100_0000_0000 && Pow256(6) == 0x1_0000_0000_0000 && Pow256(7) == 0x100_0000_0000_0000;
  }

  /** One turn of the loop moves one byte from the number left to the bytes written. */
  lemma NextByte(done: seq<Byte>, me: nat)
    requires me > 0
    ensures done + TokenOf(me) == (done + [me % 256]) + TokenOf(me / 256) && TokenOf(me) != []
  {
    var low, rest := me % 256, TokenOf(me / 256);
    assert TokenOf(me) == [low] + rest;
    hide TokenOf;
    assert done + ([low] + rest) == (done + [low]) + rest;
  }

  lemma NoByteLeft()
    ensures TokenOf(0) == []
  {
  }

  /** The static counter with the token buffer it is written to. */
  class Source {
    var token: nat
    const data: array<Byte>
    var length: nat

    ghost predicate Valid()
      reads this, data
    {
      token < WRAP && data.Length == 8 && length <= 8
    }

    /** The bytes handed to the request. */
    function Token(): seq<Byte>
      requires Valid()
      reads this, data
    {
      data[..length]
    }

    constructor ()
      ensures Valid() && fresh(data) && token == 0 && Token() == []
    {
      data := new Byte[8](_ => 0);
      token := 0;
      length := 0;
    }

    /** creatTheToken */
    method Create()
      requires Valid()
      modifies this, data
      ensures Valid() && token == (old(token) + 1) % WRAP
      ensures Token() == TokenOf(token)
      ensures forall i :: length <= i < 8 ==> data[i] == 0
    {
      hide TokenOf, Pow256;
      forall i | 0 <= i < 8 {
        data[i] := 0;
      }
      token := (token + 1) % WRAP;
      var me := token;
      var i := 0;
      EightBytes();
      TokenLength(token, 8);
      ghost var whole := TokenOf(token);
      assert data[..0] + TokenOf(me) == whole;
      while me != 0
        invariant i <= 8 && data[..i] + TokenOf(me) == whole
        invariant forall j :: i <= j < 8 ==> data[j] == 0
        invariant token == (old(token) + 1) % WRAP
      {
        NextByte(data[..i], me);
        ghost var done := data[..i];
        data[i] := me % 256;
        i := i + 1;
        assert data[..i] == done + [me % 256];
        me := me / 256;
      }
      NoByteLeft();
      length := i;
    }
  }

  /** Two calls of one run, the a-th and the b-th from the start, write the same token exactly when the counter has
      gone round a whole number of times in between: no two of 2^64 consecutive requests share a token. */
  lemma SharedTokens(a: nat, b: nat)
    ensures TokenOf(a % WRAP) == TokenOf(b % WRAP) <==> a % 0x1_0000_0000_0000_0000 == b % 0x1_0000_0000_0000_0000
    ensures a < b < a + 0x1_0000_0000_0000_0000 ==> TokenOf(a % WRAP) != TokenOf(b % WRAP)
  {
    TokenDecodes(a % WRAP);
    TokenDecodes(b % WRAP);
  }

  lemma RunOf(tokens: seq<seq<Byte>>)
    requires forall k :: 0 <= k < |tokens| ==> tokens[k] == TokenOf((k + 1) % WRAP)
    ensures forall k :: 0 <= k < |tokens| && k < WRAP - 1 ==>
              1 <= |tokens[k]| <= 8 && Value(tokens[k]) == k + 1 && tokens[k][|tokens[k]| - 1] != 0
    ensures forall j, k :: 0 <= j < k < |tokens| && k < j + WRAP ==> tokens[j] != tokens[k]
  {
    hide TokenOf, Value, Pow256;
    forall k | 0 <= k < |tokens| && k < WRAP - 1
      ensures 1 <= |tokens[k]| <= 8 && Value(tokens[k]) == k + 1 && tokens[k][|tokens[k]| - 1] != 0
    {
      EightBytes();
      TokenLength(k + 1, 8);
      NextByte([], k + 1);
      TokenDecodes(k + 1);
    }
    forall j, k | 0 <= j < k < |tokens| && k < j + WRAP
      ensures tokens[j] != tokens[k]
    {
      SharedTokens(j + 1, k + 1);
    }
  }

  /** A run of n requests: the tokens they carry, in order. */
  method Run(n: nat) returns (tokens: seq<seq<Byte>>)
    ensures |tokens| == n
    ensures forall k :: 0 <= k < n ==> tokens[k] == TokenOf((k + 1) % 0x1_0000_0000_0000_0000)
    ensures forall k :: 0 <= k < n && k + 1 < 0x1_0000_0000_0000_0000 ==>
              1 <= |tokens[k]| <= 8 && Value(tokens[k]) == k + 1 && tokens[k][|tokens[k]| - 1] != 0
    ensures forall j, k :: 0 <= j < k < n && k < j + 0x1_0000_0000_0000_0000 ==> tokens[j] != tokens[k]
  {
    hide TokenOf, Value;
    var source := new Source();
    tokens := [];
    while |tokens| < n
      invariant |tokens| <= n && source.Valid() && fresh(source) && fresh(source.data)
      invariant source.token == |tokens| % WRAP
      invariant forall k :: 0 <= k < |tokens| ==> tokens[k] == TokenOf((k + 1) % WRAP)
    {
      source.Create();
      tokens := tokens + [source.Token()];
    }
    RunOf(tokens);
  }
}
