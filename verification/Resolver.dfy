/** The asynchronous resolver: one query, its retries, and the one callback it owes its caller. */
module Resolver {
  import opened Bytes
  import opened DnsCodec

  datatype Error = Fine | NoAnswers | Timeout

  datatype Event = Connect(now: int) | Poll(now: int) | Recv(packet: seq<byte>) | Sent | Timer | Close

  /** What the callback is told: the message, or none and the recorded error. */
  datatype Result = Resolved(message: Message) | Failure(error: Error)

  predicate HasAnswer(packet: seq<byte>) {
    ParseMessage(packet).Some? && ParseMessage(packet).value.answers != []
  }

  /** The first packet with answers before the connection closes. */
  function FirstAnswer(events: seq<Event>): Option<Message> {
    if events == [] || events[0].Close? then None
    else if events[0].Recv? && HasAnswer(events[0].packet) then ParseMessage(events[0].packet)
    else FirstAnswer(events[1..])
  }

  class Request {
    const maxRetries: int
    const timeout: int
    var pending: bool  // the request is still there
    var err: Error
    var lastTime: int
    var retries: int
    var closing: bool  // the connection is to be closed at once
    ghost var told: seq<Result>
    ghost var queries: seq<int>  // when a query was sent

    ghost predicate Valid()
      reads this
    {
      && (pending <==> told == []) && |told| <= 1
      && |queries| == retries && (retries > 0 ==> retries <= maxRetries + 1 && lastTime == queries[|queries| - 1])
      && (retries == 0 ==> lastTime == 0)
    }

    /** Nothing has happened yet. */
    ghost predicate Fresh()
      reads this
    {
      pending && err == Fine && lastTime == retries == 0
    }

    /** Zeros stand for the defaults: two retries, five seconds. */
    constructor (maxRetries: int, timeout: int)
      ensures Valid() && Fresh()
      ensures this.maxRetries == (if maxRetries != 0 then maxRetries else 2)
      ensures this.timeout == (if timeout != 0 then timeout else 5)
    {
      this.maxRetries := if maxRetries != 0 then maxRetries else 2;
      this.timeout := if timeout != 0 then timeout else 5;
      pending, err, lastTime, retries, closing := true, Fine, 0, 0, false;
      told, queries := [], [];
    }

    /** A query would be looked at, and the retries are used up. */
    predicate GivesUp(e: Event)
      reads this
    {
      (e.Connect? || e.Poll?) && retries > maxRetries
    }

    /** A query is due: at once when connecting, else not before the timeout. */
    predicate Due(e: Event)
      reads this
    {
      (e.Connect? || (e.Poll? && e.now - lastTime >= timeout)) && retries <= maxRetries
    }

    method Handle(e: Event)
      requires Valid()
      modifies this
      ensures Valid()
      // a request that is done with handles nothing
      ensures !old(pending) ==> told == old(told) && queries == old(queries) && closing == old(closing)
                                && err == old(err)
      // the callback: with the message of an answering packet, or with what was recorded when the connection closes
      ensures old(pending) ==>
                told == if e.Recv? && HasAnswer(e.packet) then [Resolved(ParseMessage(e.packet).value)]
                        else if e.Close? then [Failure(old(err))] else []
      ensures old(pending) ==> queries == old(queries) + if old(Due(e)) then [e.now] else []
      // what a failure will be told as
      ensures old(pending) ==>
                err == if e.Timer? || old(GivesUp(e)) then Timeout
                       else if e.Recv? && !HasAnswer(e.packet) then NoAnswers else old(err)
      // the connection is kept after a send, and given up after any packet, a timeout, and the last retry
      ensures old(pending) ==>
                closing == if e.Sent? then false else old(closing) || e.Recv? || e.Timer? || old(GivesUp(e))
    {
      hide ParseMessage;
      if !pending {
        return;
      }
      match e {
        case Connect(now) => Attempt(now, true);
        case Poll(now) => Attempt(now, false);
        case Recv(packet) =>
          if ParseMessage(packet).Some? && |ParseMessage(packet).value.answers| > 0 {
            told := told + [Resolved(ParseMessage(packet).value)];
            pending := false;
          } else {
            err := NoAnswers;
          }
          closing := true;
        case Sent => closing := false;
        case Timer =>
          err := Timeout;
          closing := true;
        case Close =>
          told := told + [Failure(err)];
          pending := false;
      }
    }

    /** Sends the query again when it is due, or gives up. */
    method Attempt(now: int, first: bool)
      requires Valid() && pending
      modifies this`err, this`closing, this`queries, this`lastTime, this`retries
      ensures Valid()
      ensures var over, due := old(retries) > maxRetries, first || now - old(lastTime) >= timeout;
              && closing == (old(closing) || over)
              && err == (if over then Timeout else old(err))
              && queries == old(queries) + (if !over && due then [now] else [])
              && lastTime == if !over && due then now else old(lastTime)
    {
      if retries > maxRetries {
        err := Timeout;
        closing := true;
      } else if first || now - lastTime >= timeout {
        queries := queries + [now];
        lastTime := now;
        retries := retries + 1;
      }
    }
  }

  // ----- what a run of events comes to, told from the events alone -----

  /** Whether a query is looked at: only these events do that. */
  predicate Asks(e: Event) {
    e.Connect? || e.Poll?
  }

  /** The number of queries sent by the end of events, and when the last one was. */
  function Asked(events: seq<Event>, maxRetries: int, timeout: int): (r: (nat, int))
    decreases |events|
  {
    if events == [] then (0, 0) else
    var (n, last), e := Asked(events[..|events| - 1], maxRetries, timeout), events[|events| - 1];
    if Asks(e) && n <= maxRetries && (e.Connect? || e.now - last >= timeout) then (n + 1, e.now) else (n, last)
  }

  /** The retries are used up when event i comes. */
  predicate UsedUp(events: seq<Event>, i: nat, maxRetries: int, timeout: int)
    requires i < |events|
  {
    Asks(events[i]) && Asked(events[..i], maxRetries, timeout).0 > maxRetries
  }

  /** The error recorded by the end of events, if none of them was an answer. */
  function Recorded(events: seq<Event>, maxRetries: int, timeout: int): Error
    decreases |events|
  {
    if events == [] then Fine else
    var n := |events| - 1;
    if events[n].Recv? then NoAnswers
    else if events[n].Timer? || UsedUp(events, n, maxRetries, timeout) then Timeout
    else Recorded(events[..n], maxRetries, timeout)
  }

  /** Where the connection closes, or the number of events. */
  function ClosedAt(events: seq<Event>): (k: nat)
    ensures k <= |events| && (k < |events| ==> events[k].Close?)
    ensures forall i :: 0 <= i < k ==> !events[i].Close?
  {
    if events == [] || events[0].Close? then 0 else 1 + ClosedAt(events[1..])
  }

  /** What the callback is told over a run from a fresh request. */
  function Told(events: seq<Event>, maxRetries: int, timeout: int): seq<Result> {
    var answer, k := FirstAnswer(events), ClosedAt(events);
    if answer.Some? then [Resolved(answer.value)]
    else if k < |events| then [Failure(Recorded(events[..k], maxRetries, timeout))]
    else []
  }

  /** Something goes wrong with event i: a packet that is no answer, the timer, or no retry left. */
  predicate Fails(events: seq<Event>, i: nat, maxRetries: int, timeout: int)
    requires i < |events|
  {
    events[i].Recv? || events[i].Timer? || UsedUp(events, i, maxRetries, timeout)
  }

  lemma {:induction false} NothingRecorded(events: seq<Event>, maxRetries: int, timeout: int)
    ensures Recorded(events, maxRetries, timeout) == Fine
            <==> forall i: nat :: i < |events| ==> !Fails(events, i, maxRetries, timeout)
    decreases |events|
  {
    hide Asked;
    if events != [] {
      var n := |events| - 1;
      NothingRecorded(events[..n], maxRetries, timeout);
      forall i: nat | i < n
        ensures Fails(events[..n], i, maxRetries, timeout) <==> Fails(events, i, maxRetries, timeout)
      {
        assert events[..n][..i] == events[..i];
      }
      assert Recorded(events, maxRetries, timeout) == Fine
             <==> !Fails(events, n, maxRetries, timeout) && Recorded(events[..n], maxRetries, timeout) == Fine;
      hide Recorded, Fails;
      if forall i: nat :: i < |events| ==> !Fails(events, i, maxRetries, timeout) {
        assert forall i: nat :: i < n ==> !Fails(events[..n], i, maxRetries, timeout);
      }
      if !Fails(events, n, maxRetries, timeout) && Recorded(events[..n], maxRetries, timeout) == Fine {
        forall i: nat | i < |events|
          ensures !Fails(events, i, maxRetries, timeout)
        {
          assert i < n ==> !Fails(events[..n], i, maxRetries, timeout);
        }
      }
    }
  }

  /** A lookup that fails is told as fine, without a message, if and only if it gets no answer, the connection closes, and
      before that there is no packet, no timer, and no query looked at with the retries used up. */
  lemma FalseSuccess(events: seq<Event>, maxRetries: int, timeout: int)
    ensures Told(events, maxRetries, timeout) == [Failure(Fine)]
            <==> && FirstAnswer(events).None? && ClosedAt(events) < |events|
                 && forall i: nat :: i < ClosedAt(events) ==> !Fails(events, i, maxRetries, timeout)
  {
    hide Asked, Recorded, FirstAnswer;
    var k := ClosedAt(events);
    NothingRecorded(events[..k], maxRetries, timeout);
    forall i: nat | i < k
      ensures Fails(events[..k], i, maxRetries, timeout) <==> Fails(events, i, maxRetries, timeout)
    {
      assert events[..k][..i] == events[..i];
    }
  }

  /** A connect that fails: the handler is told of it and sends its query, and then the connection closes. */
  lemma FailedConnectToldFine(now: int, maxRetries: int, timeout: int)
    requires maxRetries >= 0
    ensures Told([Connect(now), Close], maxRetries, timeout) == [Failure(Fine)]
  {
    var events := [Connect(now), Close];
    assert events[..1] == [Connect(now)] && events[..0] == [] && events[1..] == [Close];
    FirstIs(events);
    FirstIs(events[1..]);
    assert ClosedAt(events) == 1;
    FalseSuccess(events, maxRetries, timeout);
  }

  /** Over any run of events the callback is called at most once: with the first answer that comes before the connection
      closes, or else, when it closes, with the recorded error; at most one query more than the retries is sent. */
  method Run(r: Request, events: seq<Event>)
    requires r.Valid() && r.Fresh()
    modifies r
    ensures r.Valid() && r.told == Told(events, r.maxRetries, r.timeout)
    ensures |r.queries| <= if r.maxRetries < 0 then 0 else r.maxRetries + 1
  {
    hide ParseMessage, HasAnswer, Asked, Recorded;
    var i := 0;
    ghost var k := ClosedAt(events);
    assert events[0..] == events && events[..0] == [];
    NothingAsked(r.maxRetries, r.timeout);
    while i < |events|
      invariant i <= |events| && r.Valid()
      invariant r.pending ==> i <= k && FirstAnswer(events) == FirstAnswer(events[i..])
      invariant r.pending ==> Asked(events[..i], r.maxRetries, r.timeout) == (r.retries, r.lastTime)
      invariant r.pending ==> Recorded(events[..i], r.maxRetries, r.timeout) == r.err
      invariant !r.pending ==> r.told == Told(events, r.maxRetries, r.timeout)
    {
      SplitAt(events, i);
      FirstIs(events[i..]);
      OneMore(events[..i], events[i], r.maxRetries, r.timeout);
      r.Handle(events[i]);
      i := i + 1;
    }
    if r.pending {
      assert events[|events|..] == [];
    }
  }

  lemma NothingAsked(maxRetries: int, timeout: int)
    ensures Asked([], maxRetries, timeout) == (0, 0) && Recorded([], maxRetries, timeout) == Fine
  {
  }

  lemma OneMore(events: seq<Event>, e: Event, maxRetries: int, timeout: int)
    ensures var (n, last) := Asked(events, maxRetries, timeout);
            && Asked(events + [e], maxRetries, timeout)
               == (if Asks(e) && n <= maxRetries && (e.Connect? || e.now - last >= timeout) then (n + 1, e.now)
                   else (n, last))
            && Recorded(events + [e], maxRetries, timeout)
               == (if e.Recv? then NoAnswers else if e.Timer? || (Asks(e) && n > maxRetries) then Timeout
                   else Recorded(events, maxRetries, timeout))
  {
    var t := events + [e];
    assert t[..|t| - 1] == events && t[..|events|] == events;
  }

  lemma FirstIs(events: seq<Event>)
    requires events != []
    ensures FirstAnswer(events) == if events[0].Close? then None
                                   else if events[0].Recv? && HasAnswer(events[0].packet) then
                                     ParseMessage(events[0].packet)
                                   else FirstAnswer(events[1..])
    ensures events[0].Recv? && HasAnswer(events[0].packet) ==> ParseMessage(events[0].packet).Some?
  {
    hide ParseMessage;
  }

  // ----- which packets are answers -----

  /** A packet that can be parsed and has an answer is told; with any other the lookup fails for having none. */
  lemma PacketTold(packet: seq<byte>, maxRetries: int, timeout: int)
    ensures Told([Recv(packet), Close], maxRetries, timeout)
            == if ParseMessage(packet).Some? && |ParseMessage(packet).value.answers| >= 1
               then [Resolved(ParseMessage(packet).value)] else [Failure(NoAnswers)]
  {
    hide ParseMessage, Asked;
    var events := [Recv(packet), Close];
    assert events[1..] == [Close] && events[..1] == [Recv(packet)] && ClosedAt([Close]) == 0;
    assert FirstAnswer([Close]) == None;
  }

  // ----- which error is told -----

  /** Event j of the first k is the last of them that goes wrong. */
  ghost predicate LastFailure(events: seq<Event>, j: nat, k: nat, maxRetries: int, timeout: int)
  {
    && j < k <= |events| && Fails(events, j, maxRetries, timeout)
    && forall i :: j < i < k ==> !Fails(events, i, maxRetries, timeout)
  }

  lemma {:induction false} RecordedIs(events: seq<Event>, j: nat, maxRetries: int, timeout: int)
    requires LastFailure(events, j, |events|, maxRetries, timeout)
    ensures Recorded(events, maxRetries, timeout) == if events[j].Recv? then NoAnswers else Timeout
    decreases |events|
  {
    hide Asked;
    var n := |events| - 1;
    if j < n {
      var front := events[..n];
      assert !Fails(events, n, maxRetries, timeout);
      forall i: nat | i < n
        ensures Fails(front, i, maxRetries, timeout) <==> Fails(events, i, maxRetries, timeout)
      {
        assert front[..i] == events[..i];
      }
      RecordedIs(front, j, maxRetries, timeout);
    }
  }

  /** The last thing that goes wrong before the connection closes is what is told: a packet that is no answer as such,
      anything else as a timeout. */
  lemma ErrorTold(events: seq<Event>, j: nat, maxRetries: int, timeout: int)
    requires FirstAnswer(events).None? && ClosedAt(events) < |events|
    requires LastFailure(events, j, ClosedAt(events), maxRetries, timeout)
    ensures Told(events, maxRetries, timeout) == [Failure(if events[j].Recv? then NoAnswers else Timeout)]
  {
    hide Asked, Recorded, FirstAnswer;
    var k := ClosedAt(events);
    var front := events[..k];
    forall i: nat | i < k
      ensures Fails(front, i, maxRetries, timeout) <==> Fails(events, i, maxRetries, timeout)
    {
      assert front[..i] == events[..i];
    }
    RecordedIs(front, j, maxRetries, timeout);
  }

  lemma AskedNext(events: seq<Event>, e: Event, maxRetries: int, timeout: int)
    ensures var (n, last) := Asked(events, maxRetries, timeout);
            Asked(events + [e], maxRetries, timeout)
            == if Asks(e) && n <= maxRetries && (e.Connect? || e.now - last >= timeout) then (n + 1, e.now) else (n, last)
  {
    assert (events + [e])[..|events|] == events;
  }

  /** With two retries and five seconds: asked at once, not after four seconds, again after five and after ten; and
      eleven seconds are too many. */
  lemma RetryExample()
    ensures Asked([Connect(0), Poll(4)], 2, 5) == (1, 0)
    ensures Asked([Connect(0), Poll(4), Poll(5), Poll(10)], 2, 5) == (3, 10)
    ensures UsedUp([Connect(0), Poll(4), Poll(5), Poll(10), Poll(11)], 4, 2, 5)
    ensures !UsedUp([Connect(0), Poll(4), Poll(5), Poll(10), Poll(11)], 3, 2, 5)
  {
    var a, b := [Connect(0)], [Connect(0), Poll(4)];
    var c, d, all := b + [Poll(5)], b + [Poll(5), Poll(10)], b + [Poll(5), Poll(10), Poll(11)];
    NotAsked();
    hide Asked;
    assert [] + a == a && a + [Poll(4)] == b && c + [Poll(10)] == d && all[..3] == c && all[..4] == d;
    AskedNext([], Connect(0), 2, 5);
    AskedNext(a, Poll(4), 2, 5);
    AskedNext(b, Poll(5), 2, 5);
    AskedNext(c, Poll(10), 2, 5);
    assert d == [Connect(0), Poll(4), Poll(5), Poll(10)];
    assert all == [Connect(0), Poll(4), Poll(5), Poll(10), Poll(11)];
  }

  lemma NotAsked()
    ensures Asked([], 2, 5) == (0, 0)
  {
  }
}
