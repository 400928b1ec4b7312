/** Block-wise download: the response handler against a server that answers each request with the block it names. */
module BlockWise {
  import opened Bits
  import opened Seqs
  import opened Links
  import opened Block
  import opened Requests
  import opened Pending
  import opened Wrappers

  /** Bytes in a block. */
  function Size(szx: nat): (r: nat)
    ensures r > 0 && r == Pow2(szx + 4)
  {
    Pow2(szx + 4)
  }

  /** The part of the representation in block num. */
  function Served(rep: seq<Byte>, num: nat, szx: nat): seq<Byte> {
    rep[Min(num * Size(szx), |rep|)..Min((num + 1) * Size(szx), |rep|)]
  }

  /** The server's answer to a request that carries the Block option opt. */
  function ServerResponse(rep: seq<Byte>, addr: string, respath: string, opt: seq<Byte>): Response {
    var num, szx := OptBlockNum(opt), OptBlockSzx(opt);
    Response(false, Option.Some(addr), Option.Some(respath), CODE_205,
             EncodeVarBytes(BlockValue(num, MoreBlocks(|rep|, num, szx), szx)), Option.Some(Served(rep, num, szx)))
  }

  /** The Block option of a request. */
  function RequestOption(num: nat, szx: nat): seq<Byte>
    requires szx < 8
  {
    EncodeVarBytes(BlockValue(num, false, szx))
  }

  /** The payloads of the answers from block num on, up to the first without the more flag. */
  function Assembled(rep: seq<Byte>, num: nat, szx: nat): seq<Byte>
    decreases |rep| - num
  {
    Served(rep, num, szx)
    + if MoreBlocks(|rep|, num, szx) then MoreMeansInside(rep, num, szx); Assembled(rep, num + 1, szx) else []
  }

  /** The number of those answers. */
  function Rounds(rep: seq<Byte>, num: nat, szx: nat): nat
    decreases |rep| - num
  {
    1 + if MoreBlocks(|rep|, num, szx) then MoreMeansInside(rep, num, szx); Rounds(rep, num + 1, szx) else 0
  }

  lemma MoreMeansInside(rep: seq<Byte>, num: nat, szx: nat)
    requires MoreBlocks(|rep|, num, szx)
    ensures num + 1 < |rep|
  {
    MulLess(0, Size(szx), num + 1);
    assert (num + 1) * Size(szx) >= num + 1;
  }

  /** The answers put together are the representation from the starting block on. */
  lemma {:induction false} AssembledIsRest(rep: seq<Byte>, num: nat, szx: nat)
    ensures Assembled(rep, num, szx) == rep[Min(num * Pow2(szx + 4), |rep|)..]
    decreases |rep| - num
  {
    hide Size, MoreBlocks, Served;
    var n := Size(szx);
    var at, to := num * n, (num + 1) * n;
    var a, b := Min(at, |rep|), Min(to, |rep|);
    Distribute(num, 1, n);
    NoMore(rep, num, szx);
    ServedIs(rep, num, szx);
    if MoreBlocks(|rep|, num, szx) {
      MoreMeansInside(rep, num, szx);
      AssembledIsRest(rep, num + 1, szx);
      CutTwice(rep, a, b);
    }
  }

  lemma ServedIs(rep: seq<Byte>, num: nat, szx: nat)
    ensures Served(rep, num, szx) == rep[Min(num * Size(szx), |rep|)..Min((num + 1) * Size(szx), |rep|)]
  {
  }

  lemma CutTwice<T>(s: seq<T>, a: nat, b: nat)
    requires a <= b <= |s|
    ensures s[a..] == s[a..b] + s[b..]
  {
  }

  lemma NoMore(rep: seq<Byte>, num: nat, szx: nat)
    ensures MoreBlocks(|rep|, num, szx) <==> (num + 1) * Size(szx) < |rep|
  {
  }

  /** From a block inside the representation: as many requests as blocks remain, the last one perhaps short. */
  lemma {:induction false} RoundsAreCeiling(rep: seq<Byte>, num: nat, szx: nat)
    ensures Rounds(rep, num, szx)
            == if num * Pow2(szx + 4) < |rep| then CeilDiv(|rep| - num * Pow2(szx + 4), Pow2(szx + 4)) else 1
    decreases |rep| - num
  {
    hide Size;
    var n, at := Size(szx), num * Size(szx);
    Distribute(num, 1, n);
    NoMore(rep, num, szx);
    if MoreBlocks(|rep|, num, szx) {
      MoreMeansInside(rep, num, szx);
      RoundsAreCeiling(rep, num + 1, szx);
      CeilDivStep(|rep| - at, n);
    } else if at < |rep| {
      CeilDivOne(|rep| - at, n);
    }
  }

  lemma CeilDivStep(a: nat, m: nat)
    requires 0 < m < a
    ensures CeilDiv(a, m) == 1 + CeilDiv(a - m, m)
  {
    var q, r := DivideInto(a - m, m);
    QuotientUnique(a - m, m, q, r);
    Distribute(q, 1, m);
    QuotientUnique(a, m, q + 1, r);
  }

  lemma CeilDivOne(a: nat, m: nat)
    requires 0 < a <= m
    ensures CeilDiv(a, m) == 1
  {
    if a < m {
      QuotientUnique(a, m, 0, a);
    } else {
      QuotientUnique(a, m, 1, 0);
    }
  }

  /** The client receives the whole representation exactly if it starts at block 0 or there is nothing to receive. */
  lemma WholeIffFromStart(rep: seq<Byte>, start: nat, szx: nat)
    ensures rep[Min(start * Size(szx), |rep|)..] == rep <==> start == 0 || |rep| == 0
  {
    var at := Min(start * Size(szx), |rep|);
    assert |rep[at..]| == |rep| - at;
    if start > 0 {
      MulLess(0, start, Size(szx));
    }
  }

  /** The first request of the CoAP thread: the byte 0x12 names block 1 of 64 bytes, so the first 64 bytes are
      never asked for, and a representation that is not empty never arrives whole. */
  lemma FirstRequestSkipsBlockZero(rep: seq<Byte>)
    ensures RequestOption(1, 2) == [0x12]
    ensures Assembled(rep, 1, 2) == rep[Min(64, |rep|)..]
    ensures Assembled(rep, 1, 2) == rep <==> |rep| == 0
  {
    hide *;
    TheFirstByte();
    SizeOfTwo();
    AssembledIsRest(rep, 1, 2);
    WholeIffFromStart(rep, 1, 2);
  }

  lemma TheFirstByte()
    ensures RequestOption(1, 2) == [0x12]
  {
    assert EncodeVarBytes(18) == EncodeVarBytes(0) + [18];
  }

  lemma SizeOfTwo()
    ensures Size(2) == 64
  {
    hide Pow2;
    SmallPowers();
  }

  /** The option for the next block fits the three bytes a Block option may have exactly below block 2^20. */
  lemma NextOptionFits(num: nat, szx: nat)
    requires szx < 8
    ensures |RequestOption(num + 1, szx)| <= 3 <==> num + 1 < Pow2(20)
  {
    VarBytesLength(BlockValue(num + 1, false, szx), 3);
    Pow2Add(20, 4);
    SmallPowers();
    assert Pow2(24) == 16 * Pow2(20);
  }

  /** One request for block num and the handling of its answer. */
  method Exchange(t: RequestTable, el: El, rep: seq<Byte>, ghost num: nat, ghost szx: nat, at: int, option: seq<Byte>)
    returns (next: Option<seq<Byte>>)
    requires t.Valid() && szx < 8 && el.data.req == LtuTxBlock && option == RequestOption(num, szx)
    requires At(t.state.pending, FirstMatch(t.state.pending, el.data.addr, el.data.respath)) == el
    requires el.data.pthpara.megleg + |Served(rep, num, szx)| <= el.data.pthpara.msg.Length
    modifies t, t.list, t.list.nodes`next, el.data.pthpara, el.data.pthpara.msg
    ensures t.Valid() && BlockStored(el.data.pthpara, Served(rep, num, szx))
    ensures if MoreBlocks(|rep|, num, szx)
            then next == Some(RequestOption(num + 1, szx)) && t.state == old(t.state)
                 && el.data.pthpara.signals == old(el.data.pthpara.signals)
            else next == None && t.state == Step(old(t.state), LastBlock(el.data.addr, el.data.respath, at))
                 && !el.data.pthpara.timeout && el.data.pthpara.signals == old(el.data.pthpara.signals) + 1
  {
    hide FirstMatch, Size, Served, MoreBlocks, EncodeVarBytes, RequestTable.Valid;
    var r := ServerResponse(rep, el.data.addr, el.data.respath, option);
    ResponseIs(rep, el.data.addr, el.data.respath, num, szx);
    next := t.Receive(r, at);
  }

  /** A whole download through the response handler, for the request el that a lookup of its address and path finds:
      the buffer grows by the representation from the starting block on, one request per block, and the request ends
      as completed. */
  method Download(t: RequestTable, el: El, rep: seq<Byte>, start: nat, szx: nat, at: int) returns (rounds: nat)
    requires t.Valid() && szx < 8 && el.data.req == LtuTxBlock
    requires At(t.state.pending, FirstMatch(t.state.pending, el.data.addr, el.data.respath)) == el
    requires el.data.pthpara.megleg + |rep[Min(start * Size(szx), |rep|)..]| <= el.data.pthpara.msg.Length
    modifies t, t.list, t.list.nodes`next, el.data.pthpara, el.data.pthpara.msg
    ensures t.Valid() && t.state == Step(old(t.state), LastBlock(el.data.addr, el.data.respath, at))
    ensures var p := el.data.pthpara;
            && p.megleg <= p.msg.Length
            && p.msg[..p.megleg] == old(p.msg[..p.megleg]) + rep[Min(start * Pow2(szx + 4), |rep|)..]
            && !p.timeout && p.signals == old(p.signals) + 1
    ensures rounds == if start * Pow2(szx + 4) < |rep|
                      then CeilDiv(|rep| - start * Pow2(szx + 4), Pow2(szx + 4)) else 1
  {
    hide FirstMatch, Consistent, Size, Assembled, Rounds, Served, MoreBlocks, EncodeVarBytes, OwnParas;
    var p := el.data.pthpara;
    ghost var num, goal, total := start, p.msg[..p.megleg] + Assembled(rep, start, szx), Rounds(rep, start, szx);
    var next := Option.Some(RequestOption(start, szx));
    AssembledIsRest(rep, start, szx);
    RoundsAreCeiling(rep, start, szx);
    rounds := 0;
    while next.Some?
      invariant t.Valid() && p.megleg <= p.msg.Length && t.list.nodes == t.state.pending
      invariant next.Some? ==> next.value == RequestOption(num, szx) && t.state == old(t.state) && p.signals == old(p.signals)
      invariant next.Some? ==> p.megleg + |Assembled(rep, num, szx)| <= p.msg.Length
      invariant next.Some? ==> p.msg[..p.megleg] + Assembled(rep, num, szx) == goal && rounds + Rounds(rep, num, szx) == total
      invariant next.None? ==> p.msg[..p.megleg] == goal && rounds == total && !p.timeout && p.signals == old(p.signals) + 1
      invariant next.None? ==> t.state == Step(old(t.state), LastBlock(el.data.addr, el.data.respath, at))
      decreases if next.Some? then Rounds(rep, num, szx) else 0
    {
      OneRound(rep, num, szx);
      next := Exchange(t, el, rep, num, szx, at, next.value);
      rounds, num := rounds + 1, num + 1;
    }
  }

  /** What the server makes of a request for block num, as the handler's accessors read it. */
  lemma ResponseIs(rep: seq<Byte>, addr: string, respath: string, num: nat, szx: nat)
    requires szx < 8
    ensures var r := ServerResponse(rep, addr, respath, RequestOption(num, szx));
            && Payload(r) == Served(rep, num, szx) && OptBlockMore(r.block) == MoreBlocks(|rep|, num, szx)
            && OptBlockNum(r.block) == num && OptBlockSzx(r.block) == szx
  {
    OptionRoundTrip(num, false, szx);
    OptionRoundTrip(num, MoreBlocks(|rep|, num, szx), szx);
  }

  lemma OneRound(rep: seq<Byte>, num: nat, szx: nat)
    ensures if MoreBlocks(|rep|, num, szx)
            then Assembled(rep, num, szx) == Served(rep, num, szx) + Assembled(rep, num + 1, szx)
                 && Rounds(rep, num, szx) == 1 + Rounds(rep, num + 1, szx)
            else Assembled(rep, num, szx) == Served(rep, num, szx) && Rounds(rep, num, szx) == 1
  {
  }
}
