/** The life of block-wise requests in the CoAP thread, as a step machine over values. */
module Requests {
  import opened Seqs
  import opened Links
  import opened Bits

  datatype LtuRequest = LtuYc | LtuYk | LtuRxBlock | LtuTxBlock | LtuNoAck

  /** struct sPthreadPara: what the requesting thread waits on. signals counts pthread_cond_signal calls. */
  class PthreadPara {
    const timing: int
    const msg: array<Byte>
    var megleg: nat
    var timeout: bool
    var signals: nat

    constructor (timing: int, msg: array<Byte>)
      ensures this.timing == timing && this.msg == msg && megleg == 0 && !timeout && signals == 0
    {
      this.timing, this.msg := timing, msg;
      megleg, timeout, signals := 0, false, 0;
    }
  }

  /** struct sCoAPNewRequest without its link field. */
  datatype Request = Request(addr: string, respath: string, req: LtuRequest, msgtype: nat, time: int,
                             pthpara: PthreadPara)

  type El = Node<Request>

  datatype Ending = Ending(el: El, expired: bool, at: int)

  /** accepted: every request ever queued; pending: PthreadRequestList; log: every wake-up of a waiting thread. */
  datatype State = State(accepted: seq<El>, pending: seq<El>, log: seq<Ending>)

  datatype Event =
    | Accept(el: El)
    | LastBlock(addr: string, respath: string, at: int)
    | OtherBlock(addr: string, respath: string, at: int)
    | Sweep(at: int)

  const INITIAL := State([], [], [])

  /** idCmp over the elements, as LL_SEARCH uses it: position of the first match, or the length. */
  function FirstMatch(s: seq<El>, addr: string, respath: string): (i: nat)
    ensures i <= |s| && (i < |s| ==> s[i].data.addr == addr && s[i].data.respath == respath)
    ensures forall j :: 0 <= j < i ==> !(s[j].data.addr == addr && s[j].data.respath == respath)
  {
    if |s| == 0 || (s[0].data.addr == addr && s[0].data.respath == respath) then 0
    else 1 + FirstMatch(s[1..], addr, respath)
  }

  function Due(now: int): El -> bool {
    (el: El) => now - el.data.time >= el.data.pthpara.timing
  }

  /** The deadline of a request has come: its timing has passed since it was stamped. */
  lemma DueIs(el: El, now: int)
    ensures Due(now)(el) <==> now - el.data.time >= el.data.pthpara.timing
  {
  }

  ghost function Expired(s: seq<El>, now: int): seq<Ending> {
    seq(|s|, i requires 0 <= i < |s| => Ending(s[i], true, now))
  }

  ghost function Step(s: State, e: Event): State {
    match e
    case Accept(el) =>
      if el.data.req.LtuNoAck? then s else State(s.accepted + [el], s.pending + [el], s.log)
    case LastBlock(addr, respath, at) =>
      var i := FirstMatch(s.pending, addr, respath);
      if i < |s.pending| && s.pending[i].data.req.LtuTxBlock?
      then State(s.accepted, Without(s.pending, s.pending[i]), s.log + [Ending(s.pending[i], false, at)])
      else s
    case OtherBlock(_, _, _) => s
    case Sweep(now) =>
      State(s.accepted, Filter(Not(Due(now)), s.pending), s.log + Expired(Filter(Due(now), s.pending), now))
  }

  ghost function Run(events: seq<Event>): State {
    if |events| == 0 then INITIAL else Step(Run(events[..|events| - 1]), events[|events| - 1])
  }

  /** Each queued copy is a new element: addPthreadRequesttoList allocates it. */
  ghost predicate FreshElements(events: seq<Event>) {
    |events| > 0 ==>
      && FreshElements(events[..|events| - 1])
      && (events[|events| - 1].Accept? ==> events[|events| - 1].el !in Run(events[..|events| - 1]).accepted)
  }

  ghost predicate Ended(log: seq<Ending>, el: El) {
    exists k :: 0 <= k < |log| && log[k].el == el
  }

  ghost function Open(log: seq<Ending>): El -> bool {
    (el: El) => !Ended(log, el)
  }

  /** Pending is exactly what was accepted and has not ended, in order of acceptance; nothing ends twice. */
  ghost predicate Consistent(s: State) {
    && Distinct(s.accepted)
    && (forall k, l :: 0 <= k < l < |s.log| ==> s.log[k].el != s.log[l].el)
    && (forall k :: 0 <= k < |s.log| ==> s.log[k].el in s.accepted)
    && s.pending == Filter(Open(s.log), s.accepted)
  }

  lemma EndedAppend(log: seq<Ending>, ends: seq<Ending>, el: El)
    ensures Ended(log + ends, el) <==> Ended(log, el) || Ended(ends, el)
  {
    if Ended(log, el) {
      var k :| 0 <= k < |log| && log[k].el == el;
      assert (log + ends)[k].el == el;
    }
    if Ended(ends, el) {
      var k :| 0 <= k < |ends| && ends[k].el == el;
      assert (log + ends)[|log| + k].el == el;
    }
  }

  ghost predicate EndsOf(ends: seq<Ending>, g: seq<El>) {
    |ends| == |g| && forall k :: 0 <= k < |ends| ==> ends[k].el == g[k]
  }

  lemma EndedOf(ends: seq<Ending>, g: seq<El>, el: El)
    requires EndsOf(ends, g)
    ensures Ended(ends, el) <==> el in g
  {
  }

  /** Closing any selection of the pending requests keeps the books. */
  lemma CloseSome(s: State, gone: El -> bool, ends: seq<Ending>)
    requires Consistent(s) && EndsOf(ends, Filter(gone, s.pending))
    ensures Consistent(State(s.accepted, Filter(Not(gone), s.pending), s.log + ends))
  {
    var g, log := Filter(gone, s.pending), s.log + ends;
    PendingMembers(s);
    FilterMembers(gone, s.pending);
    FilterDistinct(Open(s.log), s.accepted);
    FilterDistinct(gone, s.pending);
    forall k | 0 <= k < |ends|
      ensures ends[k].el in s.accepted && !Ended(s.log, ends[k].el)
    {
      assert g[k] in g;
    }
    FilterTwice(Not(gone), Open(s.log), s.accepted);
    forall x | x in s.accepted
      ensures Both(Not(gone), Open(s.log))(x) == Open(log)(x)
    {
      EndedAppend(s.log, ends, x);
      EndedOf(ends, g, x);
    }
    FilterAgree(Both(Not(gone), Open(s.log)), Open(log), s.accepted);
  }

  lemma PendingMembers(s: State)
    requires Consistent(s)
    ensures Distinct(s.pending)
    ensures forall x :: x in s.pending ==> x in s.accepted && !Ended(s.log, x)
    ensures forall x :: x in s.accepted && !Ended(s.log, x) ==> x in s.pending
  {
    FilterMembers(Open(s.log), s.accepted);
    FilterDistinct(Open(s.log), s.accepted);
  }

  /** What one step keeps. */
  lemma StepConsistent(s: State, e: Event)
    requires Consistent(s) && (e.Accept? ==> e.el !in s.accepted)
    ensures Consistent(Step(s, e))
  {
    PendingMembers(s);
    match e
    case Accept(el) =>
      if !el.data.req.LtuNoAck? {
        FilterConcat(Open(s.log), s.accepted, [el]);
        assert !Ended(s.log, el);
      }
    case LastBlock(addr, respath, at) =>
      var i := FirstMatch(s.pending, addr, respath);
      if i < |s.pending| && s.pending[i].data.req.LtuTxBlock? {
        var x: El := s.pending[i];
        var gone: El -> bool := Not<El>(OtherThan<El>(x));
        FilterOnly<El>(s.pending, x);
        CloseSome(s, gone, [Ending(x, false, at)]);
        FilterAgree<El>(Not<El>(gone), OtherThan<El>(x), s.pending);
      }
    case OtherBlock(_, _, _) =>
    case Sweep(now) =>
      CloseSome(s, Due(now), Expired(Filter(Due(now), s.pending), now));
  }

  /** The books are right after every run of accepts, blocks and sweeps, whatever the times. */
  lemma {:induction false} RunConsistent(events: seq<Event>)
    requires FreshElements(events)
    ensures Consistent(Run(events))
  {
    if |events| > 0 {
      RunConsistent(events[..|events| - 1]);
      StepConsistent(Run(events[..|events| - 1]), events[|events| - 1]);
    }
  }

  /** The books, spelled out: no request is accepted or ended twice, only accepted ones end, and pending are exactly the
      accepted ones that have not ended (in the order of acceptance, see PendingInOrder). */
  lemma BooksAreRight(events: seq<Event>)
    requires FreshElements(events)
    ensures var s := Run(events);
            && (forall i, j :: 0 <= i < j < |s.accepted| ==> s.accepted[i] != s.accepted[j])
            && (forall k, l :: 0 <= k < l < |s.log| ==> s.log[k].el != s.log[l].el)
            && (forall k :: 0 <= k < |s.log| ==> s.log[k].el in s.accepted)
            && (forall x :: x in s.pending <==> x in s.accepted && forall k :: 0 <= k < |s.log| ==> s.log[k].el != x)
  {
    RunConsistent(events);
    hide Run;
    PendingMembers(Run(events));
  }

  lemma PendingInOrder(events: seq<Event>, i: nat, j: nat) returns (a: nat, b: nat)
    requires FreshElements(events) && i < j < |Run(events).pending|
    ensures var s := Run(events);
            a < b < |s.accepted| && s.accepted[a] == s.pending[i] && s.accepted[b] == s.pending[j]
  {
    RunConsistent(events);
    hide Run;
    a, b := FilterInOrder(Open(Run(events).log), Run(events).accepted, i, j);
  }

  lemma {:induction false} AcceptedOnce(events: seq<Event>, i: nat) returns (a: nat)
    requires i < |events| && events[i].Accept? && events[i].el.data.req != LtuNoAck
    ensures a < |Run(events).accepted| && Run(events).accepted[a] == events[i].el
  {
    var front := events[..|events| - 1];
    if i == |front| {
      a := |Run(front).accepted|;
    } else {
      a := AcceptedOnce(front, i);
    }
  }

  /** accepted lists the requests in the order in which they came from the queue. */
  lemma {:induction false} AcceptedInOrder(events: seq<Event>, i: nat, j: nat) returns (a: nat, b: nat)
    requires i < j < |events| && events[i].Accept? && events[i].el.data.req != LtuNoAck
    requires events[j].Accept? && events[j].el.data.req != LtuNoAck
    ensures a < b < |Run(events).accepted|
    ensures Run(events).accepted[a] == events[i].el && Run(events).accepted[b] == events[j].el
  {
    var front := events[..|events| - 1];
    if j == |front| {
      a := AcceptedOnce(front, i);
      b := |Run(front).accepted|;
    } else {
      a, b := AcceptedInOrder(front, i, j);
    }
  }

  /** Nothing else is ever accepted. */
  lemma {:induction false} OnlyQueued(events: seq<Event>, a: nat) returns (i: nat)
    requires a < |Run(events).accepted|
    ensures i < |events| && events[i] == Accept(Run(events).accepted[a]) && events[i].el.data.req != LtuNoAck
  {
    var front := events[..|events| - 1];
    if a < |Run(front).accepted| {
      i := OnlyQueued(front, a);
    } else {
      i := |front|;
    }
  }

  function TimeOf(e: Event): int {
    match e
    case Accept(el) => el.data.time
    case LastBlock(_, _, at) => at
    case OtherBlock(_, _, at) => at
    case Sweep(at) => at
  }

  ghost predicate Timely(events: seq<Event>) {
    forall i, j :: 0 <= i < j < |events| ==> TimeOf(events[i]) <= TimeOf(events[j])
  }

  /** Every ending happened by now; expiry only at or after the deadline, completion only of a block request. */
  ghost predicate Sound(log: seq<Ending>, now: int) {
    forall k :: 0 <= k < |log| ==>
      && log[k].at <= now
      && (if log[k].expired then Due(log[k].at)(log[k].el) else log[k].el.data.req.LtuTxBlock?)
  }

  lemma {:induction false} RunSound(events: seq<Event>, now: int)
    requires Timely(events) && (|events| > 0 ==> TimeOf(events[|events| - 1]) <= now)
    ensures Sound(Run(events).log, now)
    ensures forall k :: 0 <= k < |Run(events).log| ==>
              var end := Run(events).log[k];
              end.at <= now && if end.expired then end.at - end.el.data.time >= end.el.data.pthpara.timing
                               else end.el.data.req == LtuTxBlock
  {
    if |events| > 0 {
      var front, e := events[..|events| - 1], events[|events| - 1];
      RunSound(front, now);
      var s := Run(front);
      if e.Sweep? {
        var g := Filter(Due(e.at), s.pending);
        FilterMembers(Due(e.at), s.pending);
        forall k | 0 <= k < |g|
          ensures Due(e.at)(g[k])
        {
          assert g[k] in g;
        }
      }
    }
  }

  ghost predicate Completed(log: seq<Ending>, el: El) {
    exists k :: 0 <= k < |log| && log[k].el == el && !log[k].expired
  }

  /** Neither completed nor past its deadline. */
  ghost function Live(log: seq<Ending>, now: int): El -> bool {
    (el: El) => !Completed(log, el) && !Due(now)(el)
  }

  /** Right after a sweep the pending list depends on the history only through what was accepted and what was
      completed: it is every accepted request that is neither completed nor due, in order. */
  lemma SweepIsExact(events: seq<Event>, now: int)
    requires FreshElements(events + [Sweep(now)]) && Timely(events + [Sweep(now)])
    ensures var s := Run(events + [Sweep(now)]);
            && s.pending == Filter(Live(s.log, now), s.accepted)
            && forall x :: x in s.accepted ==>
                 (x in s.pending <==>
                   && now - x.data.time < x.data.pthpara.timing
                   && forall k :: 0 <= k < |s.log| && s.log[k].el == x ==> s.log[k].expired)
  {
    var all := events + [Sweep(now)];
    var s, t := Run(all), Run(events);
    assert all[..|events|] == events;
    RunConsistent(all);
    RunConsistent(events);
    assert all[|events|] == Sweep(now);
    RunSound(all, now);
    PendingMembers(t);
    PendingMembers(s);
    FilterMembers(Not(Due(now)), t.pending);
    forall x | x in s.accepted
      ensures Open(s.log)(x) == Live(s.log, now)(x)
    {
      if Ended(s.log, x) {
        var k :| 0 <= k < |s.log| && s.log[k].el == x;
        assert Completed(s.log, x) || Due(now)(x);
      } else {
        assert x in s.pending;
      }
    }
    FilterAgree(Open(s.log), Live(s.log, now), s.accepted);
    FilterMembers(Live(s.log, now), s.accepted);
  }
}
