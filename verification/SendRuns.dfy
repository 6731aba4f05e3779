/**
 Runs of a connection, told from what its callbacks meet: who asks for closing, what that does to the queue, and which
 events the handlers are told of. Flags are named by their bits: 3 connecting, 10 send and close, 11 close immediately.
 */
module SendRuns {
  import opened Bytes
  import opened SendPipeline

  // ----- what handlers ask for -----

  /** Somewhere in these steps bit is set. */
  predicate Asks(steps: seq<Do>, bit: nat)
    decreases steps
  {
    steps != [] && (AsksOne(steps[0], bit) || Asks(steps[1..], bit))
  }

  predicate AsksOne(step: Do, bit: nat)
    decreases step
  {
    match step
    case SetBits(bits) => bit in bits
    case CallUser(body) => Asks(body, bit)
    case CallDirect(body) => Asks(body, bit)
    case _ => false
  }

  /** Somewhere in these steps bit is cleared. */
  predicate Drops(steps: seq<Do>, bit: nat)
    decreases steps
  {
    steps != [] && (DropsOne(steps[0], bit) || Drops(steps[1..], bit))
  }

  predicate DropsOne(step: Do, bit: nat)
    decreases step
  {
    match step
    case ClearBits(bits) => bit in bits
    case CallUser(body) => Drops(body, bit)
    case CallDirect(body) => Drops(body, bit)
    case _ => false
  }

  lemma {:induction false} Unasked(steps: seq<Do>, flags: set<nat>, bit: nat)
    requires !Asks(steps, bit) && bit !in flags
    ensures bit !in After(steps, flags)
    decreases steps
  {
    if steps != [] {
      UnaskedOne(steps[0], flags, bit);
      Unasked(steps[1..], AfterOne(steps[0], flags), bit);
    }
  }

  lemma {:induction false} UnaskedOne(step: Do, flags: set<nat>, bit: nat)
    requires !AsksOne(step, bit) && bit !in flags
    ensures bit !in AfterOne(step, flags)
    decreases step
  {
    hide After;
    match step {
      case CallUser(body) => Unasked(body, flags, bit);
      case CallDirect(body) => Unasked(body, flags, bit);
      case _ =>
    }
  }

  lemma {:induction false} Undropped(steps: seq<Do>, flags: set<nat>, bit: nat)
    requires !Drops(steps, bit) && bit in flags
    ensures bit in After(steps, flags)
    decreases steps
  {
    if steps != [] {
      UndroppedOne(steps[0], flags, bit);
      Undropped(steps[1..], AfterOne(steps[0], flags), bit);
    }
  }

  lemma {:induction false} UndroppedOne(step: Do, flags: set<nat>, bit: nat)
    requires !DropsOne(step, bit) && bit in flags
    ensures bit in AfterOne(step, flags)
    decreases step
  {
    hide After;
    match step {
      case CallUser(body) => Undropped(body, flags, bit);
      case CallDirect(body) => Undropped(body, flags, bit);
      case _ =>
    }
  }

  /** The steps in the order they are taken, without the calls they are taken in. */
  function Flat(steps: seq<Do>): seq<Do>
    decreases steps
  {
    if steps == [] then [] else
    (match steps[0]
     case CallUser(body) => Flat(body)
     case CallDirect(body) => Flat(body)
     case step => [step])
    + Flat(steps[1..])
  }

  /** The data of sends, one behind the other. */
  function Payload(flat: seq<Do>): seq<byte>
  {
    if flat == [] then [] else (if flat[0].SendData? then flat[0].data else []) + Payload(flat[1..])
  }

  predicate SomeSend(flat: seq<Do>) {
    exists i :: 0 <= i < |flat| && flat[i].SendData?
  }

  lemma SomeSendJoin(a: seq<Do>, b: seq<Do>)
    ensures SomeSend(a + b) <==> SomeSend(a) || SomeSend(b)
  {
    if SomeSend(a) {
      var i :| 0 <= i < |a| && a[i].SendData?;
      assert (a + b)[i] == a[i];
    }
    if SomeSend(b) {
      var i :| 0 <= i < |b| && b[i].SendData?;
      assert (a + b)[|a| + i] == b[i];
    }
  }

  lemma {:induction false} SentJoin(a: seq<Do>, b: seq<Do>)
    ensures Payload(a + b) == Payload(a) + Payload(b)
    decreases |a|
  {
    if a == [] {
      assert a + b == b;
    } else {
      SentJoin(a[1..], b);
      assert (a + b)[0] == a[0] && (a + b)[1..] == a[1..] + b;
      Regroup(if a[0].SendData? then a[0].data else [], Payload(a[1..]), Payload(b));
    }
  }

  /** What handlers send is what their sends hold, in order, however deep these are; and the write watcher is started
      exactly if one of them sends, be it nothing. */
  lemma {:induction false} SendsAre(steps: seq<Do>)
    ensures Data(steps) == Payload(Flat(steps))
    ensures Sends(steps) <==> SomeSend(Flat(steps))
    decreases steps
  {
    if steps != [] {
      SendsAre(steps[1..]);
      SendsOneIs(steps[0]);
      var here := match steps[0] case CallUser(body) => Flat(body) case CallDirect(body) => Flat(body) case step => [step];
      assert Flat(steps) == here + Flat(steps[1..]);
      SentJoin(here, Flat(steps[1..]));
      SomeSendJoin(here, Flat(steps[1..]));
    }
  }

  lemma {:induction false} SendsOneIs(step: Do)
    ensures var here := match step case CallUser(body) => Flat(body) case CallDirect(body) => Flat(body) case s => [s];
            && DataOne(step) == Payload(here) && (SendsOne(step) <==> SomeSend(here))
    decreases step
  {
    match step {
      case CallUser(body) => SendsAre(body);
      case CallDirect(body) => SendsAre(body);
      case _ =>
        assert [step][0] == step && [step][1..] == [];
    }
  }

  /** An event arms the watcher exactly if its handlers send and the connection is open. */
  lemma WatcherIs(s: State, e: Event, steps: seq<Do>)
    ensures Called(s, e, steps).armed
            <==> s.armed || (s.closing.None? && SomeSend(Flat(steps)))
    ensures Called(s, e, steps).sent == s.sent + Payload(Flat(steps))
  {
    SendsAre(steps);
    hide After, Data, Sends, Flat, Payload;
  }

  // ----- why a connection is to close -----

  predicate AnyAsks(env: Env, bit: nat) {
    || Asks(env.onConnect, bit) || Asks(env.onRecv, bit) || Asks(env.onSent, bit) || Asks(env.onPoll, bit)
    || Asks(env.onClose, bit)
  }

  /** A handler asks for closing at once, a connect fails or takes more than five seconds, or the socket fails. */
  predicate Immediate(s: State, callback: Callback) {
    match callback
    case Readable(env) => AnyAsks(env, 11) || (3 in s.flags && env.err != 0) || (env.received < 0 && env.fatal)
    case Writable(env) => AnyAsks(env, 11) || (3 in s.flags && env.err != 0) || (env.taken < 0 && env.fatal)
    case Timer(env) => AnyAsks(env, 11) || ((3 in s.flags || Asks(env.onPoll, 3)) && env.idle > 5)
    case Application(_) => false
  }

  /** A handler asks for closing once everything is sent, or the peer has closed its side. */
  predicate Eventual(callback: Callback) {
    match callback
    case Readable(env) => AnyAsks(env, 10) || env.received == 0
    case Writable(env) => AnyAsks(env, 10)
    case Timer(env) => AnyAsks(env, 10)
    case Application(_) => false
  }

  /** A state that has not got the bit, and was not closed with it. */
  predicate Without(s: State, bit: nat) {
    bit !in s.flags && (s.closing.Some? ==> bit !in s.closing.value)
  }

  lemma CalledWithout(s: State, e: Event, steps: seq<Do>, bit: nat)
    requires Without(s, bit) && !Asks(steps, bit)
    ensures Without(Called(s, e, steps), bit)
  {
    Unasked(steps, s.flags, bit);
    hide After, Data, Sends, Asks;
  }

  lemma ConnectedWithout(s: State, err: int, steps: seq<Do>, bit: nat)
    requires Without(s, bit) && !Asks(steps, bit) && bit in {10, 11} && (bit == 11 ==> err == 0)
    ensures Without(Connected(s, err, steps), bit)
  {
    hide Called;
    CalledWithout(s.(flags := s.flags - {3}), Connect, steps, bit);
    if err != 0 {
      CalledWithout(s.(flags := s.flags - {3} + {11}), Connect, steps, bit);
    } else {
      assert s.flags - {3} + {} == s.flags - {3};
    }
  }

  lemma ReceivedWithout(s: State, received: int, fatal: bool, steps: seq<Do>, bit: nat)
    requires Without(s, bit) && !Asks(steps, bit) && bit in {10, 11}
    requires (bit == 10 ==> received != 0) && (bit == 11 ==> !(received < 0 && fatal))
    ensures Without(Received(s, received, fatal, steps), bit)
  {
    hide Called;
    CalledWithout(s, Recv, steps, bit);
  }

  lemma WrittenWithout(s: State, taken: int, fatal: bool, steps: seq<Do>, bit: nat)
    requires Without(s, bit) && !Asks(steps, bit) && bit in {10, 11} && taken <= Queued(s)
    requires 0 <= |s.wire| <= |s.sent| && (bit == 11 ==> !(taken < 0 && fatal))
    ensures Without(Written(s, taken, fatal, steps), bit)
  {
    hide Called;
    if taken > 0 {
      CalledWithout(s.(wire := s.sent[..|s.wire| + taken]), Sent, steps, bit);
    }
  }

  lemma CheckedWithout(s: State, onClose: seq<Do>, bit: nat)
    requires Without(s, bit) && !Asks(onClose, bit)
    ensures Without(Checked(s, onClose), bit)
  {
    hide Called;
    CalledWithout(s.(closing := Some(s.flags), armed := false), Close, onClose, bit);
  }

  lemma HandledWithout(s: State, canRead: bool, canWrite: bool, env: Env, bit: nat)
    requires Sound(s) && s.closing.None? && Without(s, bit) && !AnyAsks(env, bit) && bit in {10, 11}
    requires bit == 11 ==> !(3 in s.flags && (canRead || canWrite) && env.err != 0)
    requires bit == 11 ==> !(canRead && env.received < 0 && env.fatal) && !(canWrite && env.taken < 0 && env.fatal)
    requires bit == 10 && canRead ==> env.received != 0
    ensures Without(Handled(s, canRead, canWrite, env), bit)
  {
    hide Asks, Connected, Received, Written;
    var c := if 3 in s.flags && (canRead || canWrite) then Connected(s, env.err, env.onConnect) else s;
    if 3 in s.flags && (canRead || canWrite) {
      ConnectedWithout(s, env.err, env.onConnect, bit);
      ConnectedSound(s, env.err, env.onConnect);
    }
    var r := if canRead then Received(c, env.received, env.fatal, env.onRecv) else c;
    if canRead {
      ReceivedWithout(c, env.received, env.fatal, env.onRecv, bit);
      ReceivedSound(c, env.received, env.fatal, env.onRecv);
    }
    if 11 !in r.flags && canWrite && Queued(r) > 0 {
      WrittenWithout(r, Min(env.taken, Queued(r)), env.fatal, env.onSent, bit);
    }
  }

  lemma TickedWithout(s: State, env: Env, bit: nat)
    requires Without(s, bit) && !AnyAsks(env, bit) && bit in {10, 11}
    requires bit == 11 ==> !((3 in s.flags || Asks(env.onPoll, 3)) && env.idle > 5)
    ensures Without(Ticked(s, env), bit)
  {
    CalledWithout(s, Poll, env.onPoll, bit);
    if 3 !in s.flags && !Asks(env.onPoll, 3) {
      Unasked(env.onPoll, s.flags, 3);
    }
    hide Asks, After, Data, Sends;
    var p := Called(s, Poll, env.onPoll);
    assert p.flags == After(env.onPoll, s.flags);
    hide Called, Connected;
    if 3 in p.flags && env.idle > 5 && bit == 10 {
      ConnectedWithout(p, 110, env.onConnect, bit);
    }
  }

  /** Closing at once has one of these reasons, whatever else happens. */
  lemma ImmediateWhy(s: State, callback: Callback)
    requires Sound(s) && Without(s, 11) && !Immediate(s, callback)
    ensures Without(Performed(s, callback), 11)
  {
    PerformedWithout(s, callback, 11);
  }

  /** And so has closing once everything is sent. */
  lemma EventualWhy(s: State, callback: Callback)
    requires Sound(s) && Without(s, 10) && !Eventual(callback)
    ensures Without(Performed(s, callback), 10)
  {
    PerformedWithout(s, callback, 10);
  }

  lemma PerformedWithout(s: State, callback: Callback, bit: nat)
    requires Sound(s) && Without(s, bit) && bit in {10, 11}
    requires if bit == 11 then !Immediate(s, callback) else !Eventual(callback)
    ensures Without(Performed(s, callback), bit)
  {
    hide Asks, Handled, Ticked, Checked, Sound;
    if s.closing.None? {
      match callback {
        case Readable(env) =>
          HandledWithout(s, true, false, env, bit);
          CheckedWithout(Handled(s, true, false, env), env.onClose, bit);
        case Writable(env) =>
          HandledWithout(s, false, true, env, bit);
          CheckedWithout(Handled(s, false, true, env), env.onClose, bit);
        case Timer(env) =>
          TickedWithout(s, env, bit);
          CheckedWithout(Ticked(s, env), env.onClose, bit);
        case Application(_) =>
      }
    }
  }

  /** Over any run, a connection that is to close at once was asked to by a handler, or failed: some callback of the run
      had a reason. */
  lemma {:induction false} ImmediateOverRun(s: State, callbacks: seq<Callback>)
    requires Sound(s) && Without(s, 11)
    requires forall i :: 0 <= i < |callbacks| ==> !Immediate(Outcome(s, callbacks[..i]), callbacks[i])
    ensures Without(Outcome(s, callbacks), 11)
    decreases |callbacks|
  {
    hide Performed, Immediate, Without, Sound;
    if callbacks != [] {
      var n := |callbacks| - 1;
      var front := callbacks[..n];
      forall i | 0 <= i < n
        ensures !Immediate(Outcome(s, front[..i]), front[i])
      {
        assert front[..i] == callbacks[..i];
      }
      ImmediateOverRun(s, front);
      OutcomeSound(s, front);
      OutcomeSnoc(s, front, callbacks[n]);
      assert front + [callbacks[n]] == callbacks;
      ImmediateWhy(Outcome(s, front), callbacks[n]);
    }
  }

  /** Likewise for one that is to close once everything is sent. */
  lemma {:induction false} EventualOverRun(s: State, callbacks: seq<Callback>)
    requires Sound(s) && Without(s, 10) && forall i :: 0 <= i < |callbacks| ==> !Eventual(callbacks[i])
    ensures Without(Outcome(s, callbacks), 10)
    decreases |callbacks|
  {
    hide Performed, Eventual, Without, Sound;
    if callbacks != [] {
      PerformedSound(s, callbacks[0]);
      EventualWhy(s, callbacks[0]);
      EventualOverRun(Performed(s, callbacks[0]), callbacks[1..]);
    }
  }

  // ----- the end of input -----

  /** A peer that closes its side takes nothing away: with data queued the connection stays as it is, but for bit 10, and
      without any it closes. */
  lemma EndOfInput(s: State, env: Env)
    requires Sound(s) && s.closing.None? && s.flags !! {3, 11} && env.received == 0
    ensures var t := Performed(s, Readable(env));
            && t.wire == s.wire && t.flags >= (if Queued(s) > 0 then s.flags + {10} else {})
            && (Queued(s) > 0 ==> t == s.(flags := s.flags + {10}))
            && (Queued(s) == 0 ==> t.closing == Some(s.flags + {10}))
  {
    hide After, Data, Sends;
  }

  function Writes(envs: seq<Env>): (r: seq<Callback>)
    ensures |r| == |envs|
  {
    if envs == [] then [] else [Writable(envs[0])] + Writes(envs[1..])
  }

  /** A connection that is to close once everything is sent has all of it written when it closes, as it does when the
      socket has been writable often enough. */
  lemma {:induction false} Drained(s: State, envs: seq<Env>) returns (k: nat)
    requires Sound(s) && s.closing.None? && Draining(s.flags) && Queued(s) > 0
    requires (forall i :: 0 <= i < |envs| ==> Calm(envs[i])) && Queued(s) + Answers(envs) <= |envs|
    ensures var t := Outcome(s, Writes(envs));
            t.closing.Some? && k < |envs| && s.sent <= t.wire && t.sent == t.wire + Data(envs[k].onClose)
    decreases |envs|
  {
    var env := envs[0];
    CalmOne(s, env);
    hide Performed, Data, Calm, Sound, Draining;
    var t := Performed(s, Writable(env));
    assert Writes(envs)[1..] == Writes(envs[1..]);
    if t.closing.Some? {
      ClosedForGood(t, Writes(envs[1..]));
      k := 0;
    } else {
      k := Drained(t, envs[1..]);
      k := k + 1;
    }
  }

  lemma CalmOne(s: State, env: Env)
    requires Sound(s) && s.closing.None? && Draining(s.flags) && Queued(s) > 0 && Calm(env)
    ensures var t := Performed(s, Writable(env));
            && Sound(t) && s.sent <= t.sent
            && (t.closing.Some? ==> s.sent <= t.wire && t.sent == t.wire + Data(env.onClose))
            && (t.closing.None? ==> Draining(t.flags) && 0 < Queued(t) < Queued(s) + |Data(env.onSent)|)
  {
    PerformedSound(s, Writable(env));
    CalmWrite(s, env);
    hide After, Data, Sends, Handled, Calm;
    var h := Handled(s, false, true, env);
    if Queued(h) == 0 {
      assert h.wire == h.sent;
    }
  }

  /** With data queued, an end of input, and handlers that do not change when to close: everything is written. */
  lemma NothingLost(s: State, env: Env, envs: seq<Env>) returns (k: nat)
    requires Sound(s) && s.closing.None? && s.flags !! {3, 11} && Queued(s) > 0 && env.received == 0
    requires (forall i :: 0 <= i < |envs| ==> Calm(envs[i])) && Queued(s) + Answers(envs) <= |envs|
    ensures var t := Outcome(s, [Readable(env)] + Writes(envs));
            t.closing.Some? && k < |envs| && s.sent <= t.wire && t.sent == t.wire + Data(envs[k].onClose)
  {
    EndOfInput(s, env);
    var r := Performed(s, Readable(env));
    PerformedSound(s, Readable(env));
    hide Performed, Data, Calm, Sound;
    assert ([Readable(env)] + Writes(envs))[1..] == Writes(envs);
    k := Drained(r, envs);
  }

  /** Whenever a connection closes and nobody asked for that to be at once, everything sent before is written. */
  lemma ClosedComplete(s: State, callback: Callback)
    requires Sound(s) && s.closing.None?
    ensures var t := Performed(s, callback);
            t.closing.Some? && 11 !in t.closing.value ==>
              !callback.Application? && t.sent == t.wire + Data(callback.env.onClose)
  {
    hide After, Data, Sends, Handled, Ticked;
    match callback {
      case Readable(env) =>
        HandledSound(s, true, false, env);
        AllWritten(Handled(s, true, false, env));
      case Writable(env) =>
        HandledSound(s, false, true, env);
        AllWritten(Handled(s, false, true, env));
      case Timer(env) =>
        TickedSound(s, env);
        AllWritten(Ticked(s, env));
      case Application(_) =>
    }
  }

  lemma TickedSound(s: State, env: Env)
    requires Sound(s) && s.closing.None?
    ensures Sound(Ticked(s, env)) && Ticked(s, env).closing.None?
  {
    CalledSound(s, Poll, env.onPoll);
    CalledIs(s, Poll, env.onPoll);
    hide Called;
    ConnectedSound(Called(s, Poll, env.onPoll), 110, env.onConnect);
  }

  lemma AllWritten(s: State)
    requires s.wire <= s.sent
    ensures Queued(s) == 0 ==> s.wire == s.sent
  {
  }

  // ----- what becomes of failures -----

  /** A socket that fails while it is read or written closes the connection at once, and writes nothing more. */
  lemma FailureCloses(s: State, env: Env)
    requires Sound(s) && s.closing.None? && s.flags !! {3, 11} && env.fatal
    ensures env.received < 0 ==>
              var t := Performed(s, Readable(env)); t.closing == Some(s.flags + {11}) && t.wire == s.wire
    ensures env.taken < 0 && Queued(s) > 0 ==>
              var t := Performed(s, Writable(env)); t.closing == Some(s.flags + {11}) && t.wire == s.wire
  {
    hide After, Data, Sends;
  }

  /** A socket that only would block changes nothing, unless closing is due. */
  lemma WouldBlock(s: State, env: Env)
    requires Sound(s) && s.closing.None? && s.flags !! {3, 10, 11} && !env.fatal
    ensures env.received < 0 ==> Performed(s, Readable(env)) == s
    ensures env.taken <= 0 && Queued(s) > 0 ==> Performed(s, Writable(env)) == s
  {
  }

  /** A connect that fails, or takes more than five seconds, is told, and closes the connection at once. */
  lemma ConnectFails(s: State, env: Env)
    requires Sound(s) && s.closing.None? && 3 in s.flags && !Drops(env.onConnect, 11)
    ensures env.err != 0 ==>
              var t := Performed(s, Readable(env));
              t.closing.Some? && 11 in t.closing.value && t.wire == s.wire && t.trace == s.trace + [Connect, Close]
    ensures env.idle > 5 && !Drops(env.onPoll, 3) ==>
              var t := Performed(s, Timer(env));
              t.closing.Some? && 11 in t.closing.value && t.wire == s.wire && t.trace == s.trace + [Poll, Connect, Close]
  {
    var c := s.flags - {3} + {11};
    Undropped(env.onConnect, c, 11);
    if !Drops(env.onPoll, 3) {
      Undropped(env.onPoll, s.flags, 3);
      Undropped(env.onConnect, After(env.onPoll, s.flags) - {3} + {11}, 11);
    }
    hide After, Data, Sends, Drops;
  }

  /** A connect that succeeds is told once, before anything is read or written, and bit 3 is gone. */
  lemma ConnectTold(s: State, env: Env)
    requires Sound(s) && s.closing.None? && 3 in s.flags && 11 !in s.flags && env.err == 0 && env.onConnect == []
    requires env.received < 0 && !env.fatal && 10 !in s.flags
    ensures var t := Performed(s, Readable(env)); t == s.(flags := s.flags - {3}, trace := s.trace + [Connect])
  {
    assert After([], s.flags - {3}) == s.flags - {3} && Data([]) == [] && !Sends([]);
    assert s.flags - {3} + {} == s.flags - {3} && s.sent + [] == s.sent;
  }

  // ----- what is told, and written -----

  /** Reading tells of what came, unless the connection is to close at once; writing takes the first of the queue to the
      wire and tells of that; the timer tells of every tick. With nobody asking for closing, that is all. */
  lemma Ordinary(s: State, env: Env)
    requires Sound(s) && s.closing.None? && s.flags !! {3, 10, 11}
    requires !AnyAsks(env, 10) && !AnyAsks(env, 11) && !AnyAsks(env, 3)
    ensures env.received > 0 ==>
              var t := Performed(s, Readable(env));
              && t.closing.None? && t.trace == s.trace + [Recv] && t.wire == s.wire
              && t.flags == After(env.onRecv, s.flags) && t.sent == s.sent + Data(env.onRecv)
    ensures env.taken > 0 && Queued(s) > 0 ==>
              var t := Performed(s, Writable(env));
              && t.closing.None? && t.trace == s.trace + [Sent] && t.sent == s.sent + Data(env.onSent)
              && t.wire == s.sent[..|s.wire| + Min(env.taken, Queued(s))] && t.flags == After(env.onSent, s.flags)
              && (t.armed <==> Queued(t) > 0)
    ensures var t := Performed(s, Timer(env));
            && t.closing.None? && t.trace == s.trace + [Poll] && t.wire == s.wire
            && t.flags == After(env.onPoll, s.flags) && t.sent == s.sent + Data(env.onPoll)
  {
    Unasked(env.onRecv, s.flags, 10);
    Unasked(env.onRecv, s.flags, 11);
    Unasked(env.onSent, s.flags, 10);
    Unasked(env.onSent, s.flags, 11);
    Unasked(env.onPoll, s.flags, 10);
    Unasked(env.onPoll, s.flags, 11);
    Unasked(env.onPoll, s.flags, 3);
    hide After, Data, Sends, Asks;
  }

  /** A handler that the dispatcher calls as the connection's own can set these bits and no others: its own six, those of
      a websocket, of closing, and of deleting a chunk. */
  lemma UserBits(bit: nat)
    ensures (bit in After([CallUser([SetBits({bit})])], {})) <==> bit in {8, 10, 11, 12, 13} || 20 <= bit <= 25
  {
    OneChange(SetBits({bit}), {});
    OneChange(CallUser([SetBits({bit})]), {});
  }
}
