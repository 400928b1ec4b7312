/** The loop of the CoAP thread: accept what the message queue holds, handle what the socket holds, sweep. */
module CoapThread {
  import opened Seqs
  import opened Links
  import opened Bits
  import opened Block
  import opened Requests
  import opened Pending
  import opened Wrappers

  /** The table is where this history leads, each queued element is new, and time did not run backwards. */
  ghost predicate History(s: State, events: seq<Event>, now: int) {
    s == Run(events) && FreshElements(events) && Timely(events) && forall i :: 0 <= i < |events| ==> TimeOf(events[i]) <= now
  }

  lemma Extend(s: State, events: seq<Event>, now: int, e: Event)
    requires History(s, events, now) && now <= TimeOf(e) && (e.Accept? ==> e.el !in s.accepted)
    ensures History(Step(s, e), events + [e], TimeOf(e))
  {
    hide Step;
    assert (events + [e])[..|events|] == events;
  }

  /** What is pending after a sweep at the end of a history. */
  lemma AfterSweep(s: State, events: seq<Event>, now: int, at: int)
    requires History(s, events, now) && now <= at
    ensures var r := Step(s, Sweep(at));
            && History(r, events + [Sweep(at)], at) && r.pending == Filter(Live(r.log, at), r.accepted)
            && forall x :: x in r.accepted ==>
                 (x in r.pending <==>
                   && at - x.data.time < x.data.pthpara.timing
                   && forall k :: 0 <= k < |r.log| && r.log[k].el == x ==> r.log[k].expired)
  {
    hide Step;
    Extend(s, events, now, Sweep(at));
    SweepIsExact(events, at);
  }

  /** After every history, in the fields the waiting threads read: nobody is woken twice; a thread has not been woken
      exactly while its request is pending; timeout says which way the request ended, and it is set only at or after
      the deadline, clear only for a block request. */
  lemma ThreadsAreTold(t: RequestTable, events: seq<Event>, now: int)
    requires t.Valid() && History(t.state, events, now)
    ensures forall x :: x in t.state.accepted ==>
              var p := x.data.pthpara;
              && (p.signals == 0 || p.signals == 1) && (p.signals == 0 <==> x in t.state.pending)
              && (p.signals == 1 ==> if p.timeout then now - x.data.time >= p.timing else x.data.req == LtuTxBlock)
  {
    hide Run, FreshElements, Timely;
    RunSound(events, now);
    PendingMembers(t.state);
    var s := t.state;
    forall x | x in s.accepted
      ensures x in s.pending ==> x.data.pthpara.signals == 0
      ensures x !in s.pending ==> x.data.pthpara.signals == 1
                                  && if x.data.pthpara.timeout then now - x.data.time >= x.data.pthpara.timing
                                     else x.data.req == LtuTxBlock
    {
      if x in s.pending {
        var i :| 0 <= i < |s.pending| && s.pending[i] == x;
      } else {
        assert Ended(s.log, x);
        var k :| 0 <= k < |s.log| && s.log[k].el == x;
      }
    }
  }

  /** What the first part of a round makes of the table: el is the queued copy of the request that arrived, if any. */
  ghost function Received(s: State, el: Node?<Request>): State {
    if el == null then s else Step(s, Event.Accept(el))
  }

  /** What the second part makes of it. */
  ghost function Handled(s: State, r: Option<Response>, at: int): State {
    if r.None? then s else Step(s, EventOf(r.value, at))
  }

  ghost function TargetOf(s: State, r: Option<Response>): Node?<Request> {
    if r.None? then null else Target(s, r.value)
  }

  ghost function RoundEvents(el: Node?<Request>, r: Option<Response>, t1: int, t2: int): seq<Event> {
    (if el == null then [] else [Event.Accept(el)]) + ((if r.None? then [] else [EventOf(r.value, t1)]) + [Event.Sweep(t2)])
  }

  lemma EventsOfRound(events: seq<Event>, el: Node?<Request>, r: Option<Response>, t1: int, t2: int)
    ensures (events + if el == null then [] else [Event.Accept(el)])
            + (if r.None? then [] else [EventOf(r.value, t1)]) + [Event.Sweep(t2)]
            == events + RoundEvents(el, r, t1, t2)
  {
    hide EventOf;
  }

  lemma EventNow(r: Response, at: int)
    ensures TimeOf(EventOf(r, at)) == at && !EventOf(r, at).Accept?
  {
  }

  ghost function PayloadOf(r: Option<Response>): seq<Byte> {
    if r.None? then [] else Payload(r.value)
  }

  ghost function BlockOf(x: Node?<Request>): PthreadPara? {
    if x == null then null else x.data.pthpara
  }

  /** p and its buffer, if there is a p. */
  ghost function Footprint(p: PthreadPara?): set<object> {
    if p == null then {} else {p, p.msg}
  }

  ghost predicate Fits(p: PthreadPara?, data: seq<Byte>)
    reads Footprint(p)
  {
    p != null ==> p.megleg + |data| <= p.msg.Length
  }

  twostate predicate Delivered(p: PthreadPara?, data: seq<Byte>)
    reads Footprint(p)
  {
    p != null ==> BlockStored(p, data)
  }

  /** The first part of the loop body: a request from the message queue, if one arrived. */
  method Take(t: RequestTable, msg: Option<Request>, at: int, ghost events: seq<Event>, ghost now: int)
    returns (ghost el: Node?<Request>, ghost after: seq<Event>)
    requires t.Valid() && History(t.state, events, now) && now <= at
    requires msg.Some? && msg.value.req != LtuNoAck ==> Unused(t.state, msg.value.pthpara)
    modifies t, t.list, t.list.nodes`next
    ensures t.Valid() && t.state == Received(old(t.state), el) && History(t.state, after, at)
    ensures after == events + if el == null then [] else [Event.Accept(el)]
    ensures if msg.None? then el == null else el != null && fresh(el) && el.data == msg.value.(time := at)
  {
    hide Step, FreshElements, Run, Timely, Consistent, OwnParas, Told;
    el, after := null, events;
    if msg.Some? {
      ghost var s := t.state;
      ghost var new_ := t.Accept(msg.value, at);
      Extend(s, events, now, Event.Accept(new_));
      el, after := new_, events + [Event.Accept(new_)];
    }
  }

  /** The second part: a response from the socket, if one arrived. */
  method Dispatch(t: RequestTable, r: Option<Response>, at: int, ghost events: seq<Event>, ghost now: int)
    returns (next: Option<seq<Byte>>, ghost after: seq<Event>)
    requires t.Valid() && History(t.state, events, now) && now <= at
    requires Fits(BlockOf(TargetOf(t.state, r)), PayloadOf(r))
    modifies t, t.list, t.list.nodes`next, Footprint(BlockOf(TargetOf(t.state, r)))
    ensures t.Valid() && t.state == Handled(old(t.state), r, at) && History(t.state, after, at)
    ensures after == events + if r.None? then [] else [EventOf(r.value, at)]
    ensures next == if TargetOf(old(t.state), r) == null then None else NextRequest(r.value.block)
    ensures Delivered(BlockOf(TargetOf(old(t.state), r)), PayloadOf(r))
  {
    hide Step, FreshElements, Run, Timely, Consistent, EventOf, TimeOf, OwnParas, Target;
    next, after := None, events;
    if r.Some? {
      ghost var s, e := t.state, EventOf(r.value, at);
      EventNow(r.value, at);
      Extend(s, events, now, e);
      next := t.Receive(r.value, at);
      after := events + [e];
    }
  }

  /** Whether a response answers this request. */
  ghost predicate IsFor(q: Request, r: Response) {
    !r.rst && r.host == Option.Some(q.addr) && r.path == Option.Some(q.respath) && r.code == CODE_205 && q.req.LtuTxBlock?
  }

  /** The request that has just arrived is a response's target exactly if no older one has its address and path. */
  lemma ReceivedTarget(s: State, el: Node?<Request>, r: Option<Response>)
    ensures var x := TargetOf(Received(s, el), r);
            && (x != null ==> r.Some? && IsFor(x.data, r.value))
            && if el != null && r.Some? && IsFor(el.data, r.value)
                  && FirstMatch(s.pending, el.data.addr, el.data.respath) == |s.pending|
               then x == el && TargetOf(s, r) == null else x == TargetOf(s, r)
  {
    if el != null && !el.data.req.LtuNoAck? && r.Some? && r.value.host.Some? && r.value.path.Some? {
      MatchAppend(s.pending, el, r.value.host.value, r.value.path.value);
    }
  }

  lemma MatchAppend(s: seq<El>, el: El, addr: string, respath: string)
    ensures var i := FirstMatch(s, addr, respath);
            FirstMatch(s + [el], addr, respath)
            == if i == |s| && !(el.data.addr == addr && el.data.respath == respath) then |s| + 1 else i
  {
    var p := s + [el];
    var i, j := FirstMatch(s, addr, respath), FirstMatch(p, addr, respath);
    assert forall k :: 0 <= k < |s| ==> p[k] == s[k];
    assert p[|s|] == el;
    hide FirstMatch;
  }

  lemma Outcomes(s: State, r: Option<Response>, t1: int, t2: int)
    requires Told(Step(Handled(s, r, t1), Sweep(t2)))
    ensures forall i :: 0 <= i < |s.pending| ==>
              var x, p := s.pending[i], s.pending[i].data.pthpara;
              if x == TargetOf(s, r) && !OptBlockMore(r.value.block) then p.signals == 1 && !p.timeout
              else if t2 - x.data.time >= p.timing then p.signals == 1 && p.timeout
              else p.signals == 0
  {
    hide OptBlockMore, FirstMatch;
    var m := Handled(s, r, t1);
    var f := Step(m, Sweep(t2));
    FilterMembers(Due(t2), m.pending);
    FilterMembers(Not(Due(t2)), m.pending);
    hide Filter, Without;
    forall i | 0 <= i < |s.pending|
      ensures var x, p := s.pending[i], s.pending[i].data.pthpara;
              if x == TargetOf(s, r) && !OptBlockMore(r.value.block) then p.signals == 1 && !p.timeout
              else if t2 - x.data.time >= p.timing then p.signals == 1 && p.timeout
              else p.signals == 0
    {
      var x := s.pending[i];
      if x == TargetOf(s, r) && !OptBlockMore(r.value.block) {
        assert m.log == s.log + [Ending(x, false, t1)];
        assert f.log[|s.log|] == Ending(x, false, t1);
      } else {
        StillPending(s, r, t1, x);
        if Due(t2)(x) {
          var gone := Filter(Due(t2), m.pending);
          var j :| 0 <= j < |gone| && gone[j] == x;
          assert f.log[|m.log| + j] == Ending(x, true, t2);
        } else {
          var j :| 0 <= j < |f.pending| && f.pending[j] == x;
        }
      }
    }
  }

  lemma StillPending(s: State, r: Option<Response>, at: int, x: El)
    requires x in s.pending && !(x == TargetOf(s, r) && !OptBlockMore(r.value.block))
    ensures x in Handled(s, r, at).pending
  {
    hide Without, OptBlockMore, FirstMatch;
    if r.Some? && Target(s, r.value) != null {
      var y: El := Target(s, r.value);
      WithoutMembers<El>(s.pending, y);
    }
  }

  lemma HandledWithin(s: State, r: Option<Response>, at: int)
    ensures forall i :: 0 <= i < |Handled(s, r, at).pending| ==> Handled(s, r, at).pending[i] in s.pending
    ensures Blocks(Handled(s, r, at).pending) <= Blocks(s.pending)
    ensures TargetOf(s, r) != null ==> TargetOf(s, r) in s.pending
  {
    hide FirstMatch, Without, OptBlockMore;
    if r.Some? && Target(s, r.value) != null {
      var y: El := Target(s, r.value);
      WithoutMembers<El>(s.pending, y);
    }
    var h := Handled(s, r, at).pending;
    forall i | 0 <= i < |h|
      ensures h[i] in s.pending
    {
      assert h[i] in h;
    }
  }

  /** The rest of a round: what the socket holds, then the sweep. */
  method Finish(t: RequestTable, r: Option<Response>, t1: int, t2: int, ghost events: seq<Event>, ghost now: int)
    returns (next: Option<seq<Byte>>, ghost after: seq<Event>)
    requires t.Valid() && History(t.state, events, now) && now <= t1 <= t2
    requires Fits(BlockOf(TargetOf(t.state, r)), PayloadOf(r))
    modifies t, t.list, t.list.nodes`next, Blocks(t.list.nodes)`timeout, Blocks(t.list.nodes)`signals
    modifies Footprint(BlockOf(TargetOf(t.state, r)))
    ensures t.Valid() && t.state == Step(Handled(old(t.state), r, t1), Event.Sweep(t2)) && History(t.state, after, t2)
    ensures after == events + (if r.None? then [] else [EventOf(r.value, t1)]) + [Event.Sweep(t2)]
    ensures t.list.nodes == Filter(Live(t.state.log, t2), t.state.accepted)
    ensures forall x :: x in t.state.accepted ==>
              (x in t.list.nodes <==>
                && t2 - x.data.time < x.data.pthpara.timing
                && forall k :: 0 <= k < |t.state.log| && t.state.log[k].el == x ==> t.state.log[k].expired)
    ensures next == if TargetOf(old(t.state), r) == null then None else NextRequest(r.value.block)
    ensures Delivered(BlockOf(TargetOf(old(t.state), r)), PayloadOf(r))
  {
    hide Step, FreshElements, Run, Timely, Consistent, History, Filter, OwnParas, Told, Target, Due, NextRequest, EventOf;
    HandledWithin(t.state, r, t1);
    next, after := Dispatch(t, r, t1, events, now);
    AfterSweep(t.state, after, t1, t2);
    ghost var visited := t.Sweep(t2);
    after := after + [Event.Sweep(t2)];
  }

  /** Whether a response reaches a request that arrives in the same round: it is for it, and no older request has its
      address and path. */
  ghost predicate Reaches(s: State, q: Request, r: Option<Response>) {
    r.Some? && IsFor(q, r.value) && FirstMatch(s.pending, q.addr, q.respath) == |s.pending|
  }

  /** The block of the thread whose request is queued in this round, if any is. */
  ghost function MsgBlock(msg: Option<Request>): set<PthreadPara> {
    if msg.Some? && msg.value.req != LtuNoAck then {msg.value.pthpara} else {}
  }

  /** The block that will receive the payload, if any will. */
  ghost function Reader(s: State, msg: Option<Request>, r: Option<Response>): PthreadPara? {
    if msg.Some? && Reaches(s, msg.value, r) then msg.value.pthpara else BlockOf(TargetOf(s, r))
  }

  lemma ReceivedBlocks(s: State, el: Node?<Request>, msg: Option<Request>, r: Option<Response>, at: int)
    requires if msg.None? then el == null else el != null && el.data == msg.value.(time := at)
    ensures Blocks(Received(s, el).pending) == Blocks(s.pending) + MsgBlock(msg)
    ensures forall i :: 0 <= i < |Received(s, el).pending| ==>
              Received(s, el).pending[i] in s.pending || Received(s, el).pending[i] == el
    ensures BlockOf(TargetOf(Received(s, el), r)) == Reader(s, msg, r)
  {
    hide FirstMatch;
    var p := Received(s, el).pending;
    assert forall x :: x in p <==> x in s.pending || (x == el && msg.Some? && msg.value.req != LtuNoAck);
    ReceivedTarget(s, el, r);
  }

  /** One round of the loop, after any history: el is the queued copy of the request that arrived, if any. At the end
      the linked list holds exactly the requests that were accepted and neither completed nor overdue, in order of
      acceptance; each waiting thread has been told what became of its request; the response's target, if it has one,
      got the payload behind what it had, and the next block is asked for if more follow. */
  method Round(t: RequestTable, msg: Option<Request>, r: Option<Response>, t0: int, t1: int, t2: int,
               ghost events: seq<Event>, ghost now: int)
    returns (next: Option<seq<Byte>>, ghost el: Node?<Request>, ghost after: seq<Event>)
    requires t.Valid() && History(t.state, events, now) && now <= t0 <= t1 <= t2
    requires msg.Some? && msg.value.req != LtuNoAck ==> Unused(t.state, msg.value.pthpara)
    requires Fits(Reader(t.state, msg, r), PayloadOf(r))
    modifies t, t.list, t.list.nodes`next, Blocks(t.list.nodes)`timeout, Blocks(t.list.nodes)`signals
    modifies MsgBlock(msg)`timeout, MsgBlock(msg)`signals, Footprint(Reader(t.state, msg, r))
    ensures if msg.None? then el == null else el != null && fresh(el) && el.data == msg.value.(time := t0)
    ensures t.Valid() && History(t.state, after, t2) && after == events + RoundEvents(el, r, t1, t2)
    ensures t.state == Step(Handled(Received(old(t.state), el), r, t1), Event.Sweep(t2))
    ensures t.list.nodes == Filter(Live(t.state.log, t2), t.state.accepted)
    ensures forall x :: x in t.state.accepted ==>
              (x in t.list.nodes <==>
                && t2 - x.data.time < x.data.pthpara.timing
                && forall k :: 0 <= k < |t.state.log| && t.state.log[k].el == x ==> t.state.log[k].expired)
    ensures t.state.accepted == old(t.state.accepted) + if el == null || el.data.req == LtuNoAck then [] else [el]
    ensures var s := Received(old(t.state), el);
            forall i :: 0 <= i < |s.pending| ==>
              var x, p := s.pending[i], s.pending[i].data.pthpara;
              if x == TargetOf(s, r) && !OptBlockMore(r.value.block) then p.signals == 1 && !p.timeout
              else if t2 - x.data.time >= p.timing then p.signals == 1 && p.timeout
              else p.signals == 0
    ensures next == if TargetOf(Received(old(t.state), el), r) == null || !OptBlockMore(r.value.block) then None
                    else var b := r.value.block;
                         Option.Some(EncodeVarBytes(BlockValue(OptBlockNum(b) + 1, false, OptBlockSzx(b))))
    ensures var p, data := Reader(old(t.state), msg, r), PayloadOf(r);
            p != null ==>
              && p.megleg == old(p.megleg) + |data| <= p.msg.Length
              && p.msg[..p.megleg] == old(if p.megleg <= p.msg.Length then p.msg[..p.megleg] else []) + data
  {
    hide Step, FreshElements, Run, Timely, Consistent, History, Filter, OwnParas, Told, Target, Due, EventOf,
         FirstMatch, Handled, RoundEvents, Received, EncodeVarBytes, BlockValue, OptBlockMore, OptBlockNum, OptBlockSzx,
         NextRequest, TargetOf;
    ghost var s0, reader := t.state, Reader(t.state, msg, r);
    assert reader != null ==> allocated(reader) && allocated(reader.msg);
    el, after := Take(t, msg, t0, events, now);
    ghost var s := t.state;
    ReceivedBlocks(s0, el, msg, r, t0);
    EventsOfRound(events, el, r, t1, t2);
    assert reader == BlockOf(TargetOf(t.state, r)) && (reader != null ==> reader.megleg == old(reader.megleg));
    next, after := Finish(t, r, t1, t2, after, t0);
    Outcomes(s, r, t1, t2);
    NextIs(s, r);
    AcceptedBy(s0, el, r, t1, t2);
  }

  lemma NextIs(s: State, r: Option<Response>)
    ensures TargetOf(s, r) != null ==>
              r.Some?
              && NextRequest(r.value.block)
                 == if !OptBlockMore(r.value.block) then None
                    else var b := r.value.block;
                         Option.Some(EncodeVarBytes(BlockValue(OptBlockNum(b) + 1, false, OptBlockSzx(b))))
  {
  }

  lemma AcceptedBy(s: State, el: Node?<Request>, r: Option<Response>, t1: int, t2: int)
    ensures Step(Handled(Received(s, el), r, t1), Event.Sweep(t2)).accepted
            == s.accepted + if el == null || el.data.req == LtuNoAck then [] else [el]
  {
  }
}
