/** PthreadRequestList and the parts of the CoAP thread that work on it: accept, response handler, timeout sweep. */
module Pending {
  import opened Seqs
  import opened Links
  import opened Walk
  import opened Wrappers
  import opened UtList
  import opened Bits
  import opened Block
  import opened Requests

  /** COAP_RESPONSE_CODE(205) */
  const CODE_205 := 69

  /** What the handler looks at in a received PDU. */
  datatype Response = Response(rst: bool, host: Option<string>, path: Option<string>, code: nat,
                               block: seq<Byte>, data: Option<seq<Byte>>)

  /** The pending element a response is for, if the handler gets that far. */
  ghost function Target(s: State, r: Response): Node?<Request> {
    if r.rst || r.host.None? || r.path.None? || r.code != CODE_205 then null
    else
      var i := FirstMatch(s.pending, r.host.value, r.path.value);
      if i < |s.pending| && s.pending[i].data.req.LtuTxBlock? then s.pending[i] else null
  }

  /** The target is the oldest pending request with the response's address and path, if that is a block request and
      the response is a 2.05 (code 69) and no reset; and there is none otherwise. */
  lemma TargetIs(s: State, r: Response, i: nat)
    requires i <= |s.pending|
    requires forall j :: 0 <= j < i ==>
               !(r.host == Some(s.pending[j].data.addr) && r.path == Some(s.pending[j].data.respath))
    ensures i == |s.pending| || r.rst || r.code != 69 ==> Target(s, r) == null
    ensures i < |s.pending| && r.host == Some(s.pending[i].data.addr) && r.path == Some(s.pending[i].data.respath)
            && !r.rst && r.code == 69 ==>
              Target(s, r) == if s.pending[i].data.req == LtuTxBlock then s.pending[i] else null
  {
    if r.host.Some? && r.path.Some? {
      var m := FirstMatch(s.pending, r.host.value, r.path.value);
      hide FirstMatch;
      assert m >= i;
    }
  }

  ghost function EventOf(r: Response, at: int): Event {
    if r.rst || r.host.None? || r.path.None? || r.code != CODE_205 then OtherBlock("", "", at)
    else if OptBlockMore(r.block) then OtherBlock(r.host.value, r.path.value, at)
    else LastBlock(r.host.value, r.path.value, at)
  }

  /** The Block option of the request that follows a block, if any follows. */
  function NextRequest(block: seq<Byte>): Option<seq<Byte>> {
    if OptBlockMore(block) then Some(EncodeVarBytes(BlockValue(OptBlockNum(block) + 1, false, OptBlockSzx(block)))) else None
  }

  function Payload(r: Response): seq<Byte> {
    if r.data.Some? then r.data.value else []
  }

  /** idCmp(out, el) == 0 */
  predicate SameId(out: Request, addr: string, respath: string) {
    out.addr == addr && out.respath == respath
  }

  /** What a waiting thread looks at. */
  datatype Sign = Sign(timeout: bool, signals: nat)

  ghost function SignOf(x: El): Sign
    reads x.data.pthpara`timeout, x.data.pthpara`signals
  {
    Sign(x.data.pthpara.timeout, x.data.pthpara.signals)
  }

  ghost function Signs(s: seq<El>): (r: seq<Sign>)
    reads Blocks(s)
    ensures |r| == |s| && forall k :: 0 <= k < |s| ==> r[k] == SignOf(s[k])
  {
    seq(|s|, k requires 0 <= k < |s| reads Blocks(s) => SignOf(s[k]))
  }

  /** Every waiting thread has its own struct sPthreadPara. */
  ghost predicate OwnParas(s: seq<El>) {
    forall i, j :: 0 <= i < j < |s| ==> s[i].data.pthpara != s[j].data.pthpara
  }

  /** The blocks of the threads whose requests these are. */
  ghost function Blocks(s: seq<El>): set<PthreadPara> {
    set x | x in s :: x.data.pthpara
  }

  /** What the waiting threads have been told, by the books: a thread whose request is pending nothing, any other was
      woken once, with timeout set exactly if its request expired. */
  ghost predicate Told(s: State)
    reads Blocks(s.pending)`signals
    reads (set k | 0 <= k < |s.log| :: s.log[k].el.data.pthpara)`signals
    reads (set k | 0 <= k < |s.log| :: s.log[k].el.data.pthpara)`timeout
  {
    && (forall i {:trigger s.pending[i]} :: 0 <= i < |s.pending| ==> s.pending[i].data.pthpara.signals == 0)
    && (forall k {:trigger s.log[k]} :: 0 <= k < |s.log| ==>
          s.log[k].el.data.pthpara.signals == 1 && s.log[k].el.data.pthpara.timeout == s.log[k].expired)
  }

  class RequestTable {
    const list: SinglyLinked<Request>
    ghost var state: State

    ghost predicate Valid()
      reads this, list, list.nodes
      reads Blocks(state.pending)`signals
      reads (set k | 0 <= k < |state.log| :: state.log[k].el.data.pthpara)`signals
      reads (set k | 0 <= k < |state.log| :: state.log[k].el.data.pthpara)`timeout
    {
      && list.Valid() && list.nodes == state.pending && Consistent(state)
      && OwnParas(state.accepted) && Told(state)
    }

    constructor ()
      ensures Valid() && state == INITIAL && fresh(list)
    {
      list := new SinglyLinked();
      state := INITIAL;
    }

    /** A request from the message queue: NOACK requests are not queued, the others are copied and time-stamped. */
    method Accept(msg: Request, now: int) returns (ghost el: El)
      requires Valid() && (msg.req != LtuNoAck ==> Unused(state, msg.pthpara))
      modifies this, list, list.nodes`next
      ensures Valid() && fresh(el) && el.data == msg.(time := now) && state == Step(old(state), Event.Accept(el))
      ensures list.nodes == if msg.req == LtuNoAck then old(list.nodes) else old(list.nodes) + [el]
    {
      hide Consistent, OwnParas;
      var node := new Node(msg.(time := now));
      el := node;
      NotAccepted(state, el);
      StepConsistent(state, Event.Accept(el));
      if msg.req != LtuNoAck {
        OwnParasAppend(state.accepted, el);
        list.Append(node);
      }
      state := Step(state, Event.Accept(el));
    }

    /** findPthreadRequestfromListbyid: the oldest pending request for this address and path. */
    method FindById(addr: string, respath: string) returns (out: Node?<Request>)
      requires Valid()
      ensures out == At(state.pending, FirstMatch(state.pending, addr, respath))
    {
      hide Consistent, FirstMatch;
      var matches := (x: El) => SameId(x.data, addr, respath);
      out := list.Search(matches);
      FirstIsFirst(state.pending, matches, addr, respath, out);
    }

    /** The block branch of the response handler: store the data, then ask for the next block or finish. */
    method HandleBlock(cnr: El, block: seq<Byte>, data: Option<seq<Byte>>) returns (next: Option<seq<Byte>>)
      requires list.Valid() && cnr in list.nodes
      requires data.Some? ==> cnr.data.pthpara.megleg + |data.value| <= cnr.data.pthpara.msg.Length
      requires cnr.data.pthpara.megleg <= cnr.data.pthpara.msg.Length
      modifies list, list.nodes`next, cnr.data.pthpara, cnr.data.pthpara.msg
      ensures list.Valid() && list.nodes == if OptBlockMore(block) then old(list.nodes) else Without(old(list.nodes), cnr)
      ensures BlockStored(cnr.data.pthpara, if data.Some? then data.value else [])
      ensures Answered(cnr.data.pthpara, block, next)
    {
      hide EncodeVarBytes, BlockValue, OptBlockMore, OptBlockNum, Without, Linked;
      var p := cnr.data.pthpara;
      if data.Some? {
        StoreBlock(p, data.value);
      }
      if OptBlockMore(block) {
        next := Some(EncodeVarBytes(BlockValue(OptBlockNum(block) + 1, false, OptBlockSzx(block))));
      } else {
        next := None;
        p.timeout := false;
        p.signals := p.signals + 1;
        list.Delete(cnr);
      }
    }

    /** The handler, once it has found the request a block belongs to. */
    method Respond(cnr: El, r: Response, at: int) returns (next: Option<seq<Byte>>)
      requires Valid() && Target(state, r) == cnr
      requires cnr.data.pthpara.megleg + |Payload(r)| <= cnr.data.pthpara.msg.Length
      modifies this, list, list.nodes`next, cnr.data.pthpara, cnr.data.pthpara.msg
      ensures Valid() && state == Step(old(state), EventOf(r, at))
      ensures list.nodes == if OptBlockMore(r.block) then old(list.nodes) else Without(old(list.nodes), cnr)
      ensures BlockStored(cnr.data.pthpara, Payload(r)) && Answered(cnr.data.pthpara, r.block, next)
    {
      hide Consistent, FirstMatch, OptBlockMore, OwnParas, Without, EncodeVarBytes, BlockValue, OptBlockNum;
      StepConsistent(state, EventOf(r, at));
      OthersApart(state, cnr);
      next := HandleBlock(cnr, r.block, r.data);
      if !OptBlockMore(r.block) {
        ToldAfterLast(state, cnr, at);
      }
      state := Step(state, EventOf(r, at));
    }

    /** The response handler. */
    method Receive(r: Response, at: int) returns (next: Option<seq<Byte>>)
      requires Valid()
      requires var el := Target(state, r);
               el != null ==> el.data.pthpara.megleg + |Payload(r)| <= el.data.pthpara.msg.Length
      modifies this, list, list.nodes`next
      modifies (var el := Target(state, r); if el == null then {} else {el.data.pthpara, el.data.pthpara.msg})
      ensures Valid() && state == Step(old(state), EventOf(r, at))
      ensures var el := Target(old(state), r);
              if el == null then next == None && state == old(state)
              else BlockStored(el.data.pthpara, Payload(r)) && Answered(el.data.pthpara, r.block, next)
      ensures var el := Target(old(state), r);
              list.nodes == if el == null || OptBlockMore(r.block) then old(list.nodes)
                            else var gone: El := el; Without(old(list.nodes), gone)
      ensures var el := Target(old(state), r);
              el != null ==>
                var p, data := el.data.pthpara, if r.data.Some? then r.data.value else [];
                && p.megleg == old(p.megleg) + |data| <= p.msg.Length
                && p.msg[..p.megleg] == old(if p.megleg <= p.msg.Length then p.msg[..p.megleg] else []) + data
                && if OptBlockMore(r.block) then p.timeout == old(p.timeout) && p.signals == old(p.signals)
                   else !p.timeout && p.signals == old(p.signals) + 1
    {
      hide Consistent, FirstMatch, OptBlockMore, OwnParas, Without, EncodeVarBytes, BlockValue, OptBlockNum;
      next := None;
      if r.rst || r.host == None || r.path == None {
        return;
      }
      var cnr := FindById(r.host.value, r.path.value);
      if cnr == null {
        return;
      }
      if r.code == CODE_205 && cnr.data.req == LtuTxBlock {
        next := Respond(cnr, r, at);
      }
    }

    /** Tell the waiting thread and take the request off the list. */
    method Expire(pt: El)
      requires list.Valid() && pt in list.nodes
      modifies list, list.nodes`next, pt.data.pthpara`timeout, pt.data.pthpara`signals
      ensures list.Valid() && list.nodes == Without(old(list.nodes), pt) && pt.next == old(pt.next)
      ensures Woken(pt.data.pthpara)
    {
      pt.data.pthpara.timeout := true;
      pt.data.pthpara.signals := pt.data.pthpara.signals + 1;
      list.Delete(pt);
    }

    /** The body of the sweep's loop at s[i], and the step to the next element. It reads pt->next after deleting pt,
        which LL_DELETE leaves as it was. */
    method SweepAt(pt: El, now: int, ghost s: seq<El>, ghost i: nat) returns (next: Node?<Request>)
      requires list.Valid() && Distinct(s) && i < |s| && pt == s[i] && list.nodes == Swept(Due(now), s, i)
      modifies list, s`next, pt.data.pthpara`timeout, pt.data.pthpara`signals
      ensures list.Valid() && list.nodes == Swept(Due(now), s, i + 1) && next == At(s, i + 1)
      ensures if Due(now)(pt) then Woken(pt.data.pthpara) else Asleep(pt.data.pthpara)
    {
      hide Linked, Distinct, Swept, Without, Filter;
      SweptMembers(Due(now), s, i);
      WalkOn(Single, Due(now), s, i);
      SweptStep(Due(now), s, i);
      if now - pt.data.time >= pt.data.pthpara.timing {
        Expire(pt);
      }
      next := pt.next;
    }

    /** The timeout sweep. */
    method SweepList(now: int) returns (ghost visited: seq<El>)
      requires list.Valid() && OwnParas(list.nodes)
      modifies list, list.nodes`next
      modifies Blocks(list.nodes)`timeout, Blocks(list.nodes)`signals
      ensures list.Valid() && visited == old(list.nodes)
      ensures list.nodes == Filter(Not(Due(now)), old(list.nodes))
      ensures forall k :: 0 <= k < |visited| ==>
                if Due(now)(visited[k]) then Woken(visited[k].data.pthpara) else Asleep(visited[k].data.pthpara)
      ensures forall x :: x in old(list.nodes) ==>
                var p := x.data.pthpara;
                if now - x.data.time >= p.timing
                then p.timeout && p.signals == old(p.signals) + 1 && x !in list.nodes
                else p.timeout == old(p.timeout) && p.signals == old(p.signals) && x in list.nodes
    {
      hide Linked, Distinct, Swept, Filter, OwnParas, Due;
      ghost var s, i := list.nodes, 0;
      LinkedDistinct(Single, s);
      SweptEnds(Due(now), s);
      visited := [];
      var pt := list.head;
      ghost var was := Signs(s);
      while pt != null
        invariant list.Valid() && i <= |s| && pt == At(s, i) && list.nodes == Swept(Due(now), s, i)
        invariant visited == s[..i]
        invariant forall k :: 0 <= k < |s| ==>
                    SignOf(s[k]) == if k < i && Due(now)(s[k]) then Sign(true, was[k].signals + 1) else was[k]
        decreases |s| - i
      {
        OthersOwn(s, i);
        visited := visited + [pt];
        pt := SweepAt(pt, now, s, i);
        i := i + 1;
      }
      SurvivorsAre(s, now);
    }

    /** The sweep and the books: exactly the due requests expire, each waiting thread is told once. */
    method Sweep(now: int) returns (ghost visited: seq<El>)
      requires Valid()
      modifies this, list, list.nodes`next
      modifies Blocks(list.nodes)`timeout, Blocks(list.nodes)`signals
      ensures Valid() && state == Step(old(state), Event.Sweep(now)) && visited == old(state.pending)
      ensures forall k :: 0 <= k < |visited| ==>
                if Due(now)(visited[k]) then Woken(visited[k].data.pthpara) else Asleep(visited[k].data.pthpara)
      ensures forall x :: x in old(list.nodes) ==>
                var p := x.data.pthpara;
                if now - x.data.time >= p.timing
                then p.timeout && p.signals == old(p.signals) + 1 && x !in list.nodes
                else p.timeout == old(p.timeout) && p.signals == old(p.signals) && x in list.nodes
    {
      hide Consistent, Linked, Filter, OwnParas;
      StepConsistent(state, Event.Sweep(now));
      LinkedDistinct(Single, list.nodes);
      PendingApart(state);
      visited := SweepList(now);
      ToldAfterSweep(state, now);
      state := Step(state, Event.Sweep(now));
    }
  }

  /** data is now behind what had been received before. */
  twostate predicate BlockStored(p: PthreadPara, data: seq<Byte>)
    reads p, p.msg
  {
    && p.megleg == old(p.megleg) + |data| <= p.msg.Length
    && p.msg[..p.megleg] == (if old(p.megleg) <= p.msg.Length then old(p.msg[..p.megleg]) else []) + data
  }

  /** More blocks: ask for the next one at the same size. No more: wake the waiting thread without a timeout. */
  twostate predicate Answered(p: PthreadPara, block: seq<Byte>, new next: Option<seq<Byte>>)
    reads p
  {
    && next == NextRequest(block)
    && if OptBlockMore(block) then p.timeout == old(p.timeout) && p.signals == old(p.signals)
       else !p.timeout && p.signals == old(p.signals) + 1
  }

  /** The waiting thread was told that its request expired. */
  twostate predicate Woken(p: PthreadPara)
    reads p
  {
    p.timeout && p.signals == old(p.signals) + 1
  }

  twostate predicate Asleep(p: PthreadPara)
    reads p
  {
    p.timeout == old(p.timeout) && p.signals == old(p.signals)
  }

  /** A block that no accepted request has brought yet, and on which nobody was woken. */
  ghost predicate Unused(s: State, p: PthreadPara)
    reads p`signals
  {
    p.signals == 0 && forall i :: 0 <= i < |s.accepted| ==> s.accepted[i].data.pthpara != p
  }

  lemma OwnParasAppend(s: seq<El>, el: El)
    requires OwnParas(s) && forall i :: 0 <= i < |s| ==> s[i].data.pthpara != el.data.pthpara
    ensures OwnParas(s + [el])
  {
  }

  /** Waiting threads share no block with each other, nor with a thread that was woken before. */
  lemma PendingApart(s: State)
    requires Consistent(s) && OwnParas(s.accepted)
    ensures OwnParas(s.pending)
    ensures forall i, k :: 0 <= i < |s.pending| && 0 <= k < |s.log| ==>
              s.pending[i].data.pthpara != s.log[k].el.data.pthpara
  {
    PendingMembers(s);
    OwnParasFilter(Open(s.log), s.accepted);
    forall i, k | 0 <= i < |s.pending| && 0 <= k < |s.log|
      ensures s.pending[i].data.pthpara != s.log[k].el.data.pthpara
    {
      var x, y: El := s.pending[i], s.log[k].el;
      assert x in s.pending && x in s.accepted && y in s.accepted && x != y;
      var m :| 0 <= m < |s.accepted| && s.accepted[m] == x;
      var n :| 0 <= n < |s.accepted| && s.accepted[n] == y;
    }
  }

  lemma OthersApart(s: State, x: El)
    requires Consistent(s) && OwnParas(s.accepted) && x in s.pending
    ensures forall i :: 0 <= i < |s.pending| && s.pending[i] != x ==> s.pending[i].data.pthpara != x.data.pthpara
    ensures forall k :: 0 <= k < |s.log| ==> s.log[k].el.data.pthpara != x.data.pthpara
  {
    hide Consistent;
    PendingApart(s);
    var j :| 0 <= j < |s.pending| && s.pending[j] == x;
  }

  /** The books are right about a thread that has just been told its request is complete. */
  lemma ToldAfterLast(s: State, x: El, at: int)
    requires x.data.pthpara.signals == 1 && !x.data.pthpara.timeout
    requires forall i :: 0 <= i < |s.pending| && s.pending[i] != x ==> s.pending[i].data.pthpara.signals == 0
    requires forall k :: 0 <= k < |s.log| ==>
               s.log[k].el.data.pthpara.signals == 1 && s.log[k].el.data.pthpara.timeout == s.log[k].expired
    ensures Told(State(s.accepted, Without(s.pending, x), s.log + [Ending(x, false, at)]))
  {
    hide Without;
    var w := Without(s.pending, x);
    WithoutMembers(s.pending, x);
    forall i | 0 <= i < |w|
      ensures w[i].data.pthpara.signals == 0
    {
      assert w[i] in w;
    }
  }

  /** The books are right about the threads a sweep has just told that their requests expired. */
  lemma ToldAfterSweep(s: State, now: int)
    requires forall i :: 0 <= i < |s.pending| ==>
               if Due(now)(s.pending[i]) then s.pending[i].data.pthpara.signals == 1 && s.pending[i].data.pthpara.timeout
               else s.pending[i].data.pthpara.signals == 0
    requires forall k :: 0 <= k < |s.log| ==>
               s.log[k].el.data.pthpara.signals == 1 && s.log[k].el.data.pthpara.timeout == s.log[k].expired
    ensures Told(Step(s, Event.Sweep(now)))
  {
    hide Filter;
    var keep, gone := Filter(Not(Due(now)), s.pending), Filter(Due(now), s.pending);
    FilterMembers(Not(Due(now)), s.pending);
    FilterMembers(Due(now), s.pending);
    forall i | 0 <= i < |keep|
      ensures keep[i].data.pthpara.signals == 0
    {
      assert keep[i] in keep && keep[i] in s.pending;
    }
    forall i | 0 <= i < |gone|
      ensures gone[i].data.pthpara.signals == 1 && gone[i].data.pthpara.timeout
    {
      assert gone[i] in gone && gone[i] in s.pending;
    }
  }

  lemma SurvivorsAre(s: seq<El>, now: int)
    ensures forall x :: x in s ==> (x in Filter(Not(Due(now)), s) <==> now - x.data.time < x.data.pthpara.timing)
    ensures forall x :: x in s ==> (Due(now)(x) <==> now - x.data.time >= x.data.pthpara.timing)
  {
    FilterMembers(Not(Due(now)), s);
  }

  lemma OthersOwn(s: seq<El>, i: nat)
    requires OwnParas(s) && i < |s|
    ensures forall k :: 0 <= k < |s| && k != i ==> s[k].data.pthpara != s[i].data.pthpara
  {
  }

  /** memcpy to the end of what was received so far. */
  method StoreBlock(p: PthreadPara, data: seq<Byte>)
    requires p.megleg + |data| <= p.msg.Length
    modifies p`megleg, p.msg
    ensures p.megleg == old(p.megleg) + |data| && p.msg[..p.megleg] == old(p.msg[..p.megleg]) + data
  {
    forall i | 0 <= i < |data| {
      p.msg[p.megleg + i] := data[i];
    }
    p.megleg := p.megleg + |data|;
  }

  lemma FirstIsFirst(s: seq<El>, matches: El -> bool, addr: string, respath: string, out: Node?<Request>)
    requires forall x: El :: matches(x) == SameId(x.data, addr, respath)
    requires out == null ==> forall x :: x in s ==> !matches(x)
    requires out != null ==> exists i :: 0 <= i < |s| && s[i] == out && matches(out) && forall j :: 0 <= j < i ==> !matches(s[j])
    ensures out == At(s, FirstMatch(s, addr, respath))
  {
    hide FirstMatch;
    var m := FirstMatch(s, addr, respath);
    if out == null {
      forall j | 0 <= j < |s|
        ensures !SameId(s[j].data, addr, respath)
      {
        assert s[j] in s;
      }
    } else {
      var i :| 0 <= i < |s| && s[i] == out && matches(out) && forall j :: 0 <= j < i ==> !matches(s[j]);
      assert m <= i && matches(s[m]);
    }
  }

  lemma OwnParasFilter(f: El -> bool, s: seq<El>)
    requires OwnParas(s) && Distinct(s)
    ensures OwnParas(Filter(f, s))
  {
    var r := Filter(f, s);
    FilterMembers(f, s);
    FilterDistinct(f, s);
    forall i, j | 0 <= i < j < |r|
      ensures r[i].data.pthpara != r[j].data.pthpara
    {
      assert r[i] in r && r[j] in r;
      var k :| 0 <= k < |s| && s[k] == r[i];
      var l :| 0 <= l < |s| && s[l] == r[j];
    }
  }

  lemma NotAccepted(s: State, el: El)
    requires forall x :: x in s.accepted ==> x != el
    ensures el !in s.accepted
  {
  }
}
