/**
 A plain TCP connection under its event loop callbacks: what it queues and writes, when its write watcher runs,
 who may change its flags, and when it is closed. A flag word is the set of its bit numbers.
 */
module SendPipeline {
  import opened Bytes
  import opened IoBuffers

  const LISTENING: nat := 0
  const UDP: nat := 1
  const CONNECTING: nat := 3
  const SSL: nat := 4
  const SEND_AND_CLOSE: nat := 10
  const CLOSE_IMMEDIATELY: nat := 11

  /** What a user's handler may change: its own six flags, the websocket ones, the two closing ones and the chunk one. */
  const MODIFIABLE: set<nat> := {8, 10, 11, 12, 13, 20, 21, 22, 23, 24, 25}

  /** Flags that a registered TCP connection never gets, and that no protocol handler sets. */
  const NEVER: set<nat> := {LISTENING, UDP, SSL}

  // ----- handlers -----

  /**
   What a handler does: sends, changes to the flag word, and calls of a user's handler. CallUser is a call that the
   dispatcher makes of the connection's own handler; CallDirect is one that it does not mask: of an endpoint's handler,
   or a plain call as the MQTT, DNS and CoAP handlers make it.
   */
  datatype Do = SendData(data: seq<byte>) | SetBits(bits: set<nat>) | ClearBits(bits: set<nat>)
              | CallUser(body: seq<Do>) | CallDirect(body: seq<Do>)

  /** The flag word after a user's handler, as the dispatcher leaves it. */
  function Masked(before: set<nat>, after: set<nat>): set<nat> {
    (before - MODIFIABLE) + (after * MODIFIABLE)
  }

  function AfterOne(step: Do, flags: set<nat>): set<nat>
    decreases step
  {
    match step
    case SendData(_) => flags
    case SetBits(bits) => flags + bits
    case ClearBits(bits) => flags - bits
    case CallUser(body) => Masked(flags, After(body, flags))
    case CallDirect(body) => After(body, flags)
  }

  /** The flag word after the steps. */
  function After(steps: seq<Do>, flags: set<nat>): set<nat>
    decreases steps
  {
    if steps == [] then flags else After(steps[1..], AfterOne(steps[0], flags))
  }

  function DataOne(step: Do): seq<byte>
    decreases step
  {
    match step
    case SendData(data) => data
    case CallUser(body) => Data(body)
    case CallDirect(body) => Data(body)
    case _ => []
  }

  /** Everything the steps send. */
  function Data(steps: seq<Do>): seq<byte>
    decreases steps
  {
    if steps == [] then [] else DataOne(steps[0]) + Data(steps[1..])
  }

  predicate SendsOne(step: Do)
    decreases step
  {
    step.SendData? || ((step.CallUser? || step.CallDirect?) && Sends(step.body))
  }

  /** The steps send anything, be it nothing. */
  predicate Sends(steps: seq<Do>)
    decreases steps
  {
    steps != [] && (SendsOne(steps[0]) || Sends(steps[1..]))
  }

  /** A protocol handler itself leaves alone the flags of other kinds of connection, and does not start a connect. */
  predicate Protocol(steps: seq<Do>) {
    forall i :: 0 <= i < |steps| ==>
      && (steps[i].SetBits? ==> steps[i].bits !! NEVER + {CONNECTING})
      && (steps[i].ClearBits? ==> steps[i].bits !! NEVER)
  }

  /** Every user's handler is called through the dispatcher as the connection's own. */
  predicate AllDispatched(steps: seq<Do>) {
    forall i :: 0 <= i < |steps| ==> !steps[i].CallDirect?
  }

  predicate ModestOne(step: Do)
    decreases step
  {
    match step
    case SetBits(bits) => bits <= MODIFIABLE
    case ClearBits(bits) => bits <= MODIFIABLE
    case CallDirect(body) => Modest(body)
    case _ => true
  }

  /** Leaves the system bits alone, masked or not. */
  predicate Modest(steps: seq<Do>)
    decreases steps
  {
    steps == [] || (ModestOne(steps[0]) && Modest(steps[1..]))
  }

  /** Each unmasked call in a protocol handler is of a modest handler. */
  predicate ModestCalls(steps: seq<Do>) {
    forall i :: 0 <= i < |steps| && steps[i].CallDirect? ==> Modest(steps[i].body)
  }

  /** Two handlers with the same protocol in which the user's part may do different things. */
  predicate SameProtocol(a: seq<Do>, b: seq<Do>) {
    && |a| == |b|
    && forall i :: 0 <= i < |a| ==>
         || a[i] == b[i] || (a[i].CallUser? && b[i].CallUser?) || (a[i].CallDirect? && b[i].CallDirect?)
         || (a[i].SendData? && b[i].SendData?)
  }

  lemma {:induction false} ModestKeeps(steps: seq<Do>, f: set<nat>)
    requires Modest(steps)
    ensures After(steps, f) - MODIFIABLE == f - MODIFIABLE
    decreases steps
  {
    hide Masked;
    if steps != [] {
      match steps[0] {
        case SendData(_) =>
        case SetBits(bits) =>
        case ClearBits(bits) =>
        case CallUser(body) => MaskedSystem(f, After(body, f));
        case CallDirect(body) => ModestKeeps(body, f);
      }
      ModestKeeps(steps[1..], AfterOne(steps[0], f));
    }
  }

  /** With modest unmasked calls, system flags depend on the protocol alone, whatever the user's handlers do and send. */
  lemma {:induction false} SystemFlagsKept(a: seq<Do>, b: seq<Do>, f: set<nat>, g: set<nat>)
    requires SameProtocol(a, b) && ModestCalls(a) && ModestCalls(b) && f - MODIFIABLE == g - MODIFIABLE
    ensures After(a, f) - MODIFIABLE == After(b, g) - MODIFIABLE
    decreases |a|
  {
    hide Masked, Modest;
    if a != [] {
      var f', g' := AfterOne(a[0], f), AfterOne(b[0], g);
      assert f' - MODIFIABLE == g' - MODIFIABLE by {
        match a[0] {
          case SendData(_) =>
          case SetBits(bits) => SystemPart(f, g, bits);
          case ClearBits(bits) => SystemPart(f, g, bits);
          case CallUser(body) =>
            MaskedSystem(f, After(body, f));
            MaskedSystem(g, After(b[0].body, g));
          case CallDirect(body) =>
            ModestKeeps(body, f);
            ModestKeeps(b[0].body, g);
        }
      }
      assert SameProtocol(a[1..], b[1..]) && ModestCalls(a[1..]) && ModestCalls(b[1..]);
      SystemFlagsKept(a[1..], b[1..], f', g');
    }
  }

  /** The same protocol with this for the user's part of every unmasked call. */
  function WithDirect(a: seq<Do>, body: seq<Do>): (b: seq<Do>)
    ensures |b| == |a|
    ensures forall i :: 0 <= i < |a| ==> b[i] == if a[i].CallDirect? then CallDirect(body) else a[i]
  {
    seq(|a|, i requires 0 <= i < |a| => if a[i].CallDirect? then CallDirect(body) else a[i])
  }

  /** A handler called unmasked gives the connection a system flag, and takes it away. */
  lemma {:induction false} DirectCallsDecide(a: seq<Do>, f: set<nat>)
    requires Protocol(a)
    ensures !AllDispatched(a) || UDP in f ==> UDP in After(WithDirect(a, [SetBits({UDP})]), f)
    ensures UDP !in f ==> UDP !in After(WithDirect(a, [ClearBits({UDP})]), f)
    decreases |a|
  {
    if a != [] {
      var set1, clear1 := [SetBits({UDP})], [ClearBits({UDP})];
      var s, c := WithDirect(a, set1), WithDirect(a, clear1);
      assert s[1..] == WithDirect(a[1..], set1) && c[1..] == WithDirect(a[1..], clear1);
      DirectCallsDecide(a[1..], AfterOne(s[0], f));
      DirectCallsDecide(a[1..], AfterOne(c[0], f));
      OneChange(set1[0], f);
      OneChange(clear1[0], f);
      assert AllDispatched(a) <==> !a[0].CallDirect? && AllDispatched(a[1..]) by {
        assert forall i :: 0 < i < |a| ==> a[i] == a[1..][i - 1];
        assert forall i :: 0 <= i < |a| - 1 ==> a[1..][i] == a[i + 1];
      }
    }
  }

  lemma OneChange(step: Do, f: set<nat>)
    ensures After([step], f) == AfterOne(step, f)
  {
  }

  /** System flags are out of reach of the user's handlers if and only if all of these are called through the dispatcher
      as the connection's own. */
  lemma UserCannotTouchSystemFlags(a: seq<Do>)
    requires Protocol(a)
    ensures (forall b, f :: SameProtocol(a, b) ==> After(a, f) - MODIFIABLE == After(b, f) - MODIFIABLE)
            <==> AllDispatched(a)
  {
    hide After;
    if AllDispatched(a) {
      forall b, f | SameProtocol(a, b)
        ensures After(a, f) - MODIFIABLE == After(b, f) - MODIFIABLE
      {
        SystemFlagsKept(a, b, f, f);
      }
    } else {
      DirectCallsDecide(a, {});
      var s, c := WithDirect(a, [SetBits({UDP})]), WithDirect(a, [ClearBits({UDP})]);
      assert SameProtocol(a, s) && SameProtocol(a, c);
      assert UDP in After(s, {}) - MODIFIABLE && UDP !in After(c, {}) - MODIFIABLE;
    }
  }

  /** A user's handler of an MQTT connection that sets a system flag keeps it; called through the dispatcher it would not. */
  lemma DirectHandlerKeepsFlag()
    ensures After([CallDirect([SetBits({UDP})])], {}) == {UDP} && After([CallUser([SetBits({UDP})])], {}) == {}
  {
    OneChange(SetBits({UDP}), {});
    OneChange(CallDirect([SetBits({UDP})]), {});
    OneChange(CallUser([SetBits({UDP})]), {});
  }

  lemma SystemPart(f: set<nat>, g: set<nat>, bits: set<nat>)
    requires f - MODIFIABLE == g - MODIFIABLE
    ensures (f + bits) - MODIFIABLE == (g + bits) - MODIFIABLE
    ensures (f - bits) - MODIFIABLE == (g - bits) - MODIFIABLE
  {
    assert (f + bits) - MODIFIABLE == (f - MODIFIABLE) + (bits - MODIFIABLE);
    assert (g + bits) - MODIFIABLE == (g - MODIFIABLE) + (bits - MODIFIABLE);
    assert (f - bits) - MODIFIABLE == (f - MODIFIABLE) - bits;
    assert (g - bits) - MODIFIABLE == (g - MODIFIABLE) - bits;
  }

  lemma MaskedSystem(f: set<nat>, after: set<nat>)
    ensures Masked(f, after) - MODIFIABLE == f - MODIFIABLE
  {
  }

  /** So, with modest unmasked calls, no handler turns a connection into one of another kind, or makes it connect again. */
  lemma {:induction false} StaysTcp(steps: seq<Do>, flags: set<nat>)
    requires Protocol(steps) && ModestCalls(steps) && flags !! NEVER
    ensures After(steps, flags) !! NEVER
    ensures CONNECTING !in flags ==> CONNECTING !in After(steps, flags)
    decreases |steps|
  {
    hide Modest;
    if steps != [] {
      StaysTcpOne(steps[0], flags);
      assert Protocol(steps[1..]) && ModestCalls(steps[1..]);
      hide AfterOne;
      StaysTcp(steps[1..], AfterOne(steps[0], flags));
    }
  }

  lemma StaysTcpOne(step: Do, flags: set<nat>)
    requires (step.SetBits? ==> step.bits !! NEVER + {CONNECTING}) && (step.CallDirect? ==> Modest(step.body))
    requires flags !! NEVER
    ensures AfterOne(step, flags) !! NEVER
    ensures CONNECTING !in flags ==> CONNECTING !in AfterOne(step, flags)
  {
    hide After, Modest;
    if step.CallDirect? {
      ModestKeeps(step.body, flags);
      var after := After(step.body, flags);
      assert forall x :: x in NEVER + {CONNECTING} ==> (x in after <==> x in after - MODIFIABLE);
      assert forall x :: x in NEVER + {CONNECTING} ==> (x in flags <==> x in flags - MODIFIABLE);
    }
  }

  // ----- the connection -----

  datatype Event = Poll | Recv | Sent | Connect | Close

  /** What one callback meets: results of socket calls, and what the handlers it calls do. */
  datatype Env = Env(
    err: int,            // the pending error of a connecting socket
    taken: int,          // bytes taken by the socket, or negative
    received: int,       // bytes received, or negative
    fatal: bool,         // a negative result is no mere would-block
    idle: int,           // seconds since the last input or output
    onConnect: seq<Do>, onRecv: seq<Do>, onSent: seq<Do>, onPoll: seq<Do>, onClose: seq<Do>)

  /** A protocol's handler whose unmasked calls are of modest handlers. */
  predicate Behaves(steps: seq<Do>) {
    Protocol(steps) && ModestCalls(steps)
  }

  predicate AllBehave(env: Env) {
    && Behaves(env.onConnect) && Behaves(env.onRecv) && Behaves(env.onSent) && Behaves(env.onPoll)
    && Behaves(env.onClose)
  }

  /** Flags under which a connection writes its queue, and then closes. */
  predicate Draining(flags: set<nat>) {
    SEND_AND_CLOSE in flags && flags !! {CONNECTING, CLOSE_IMMEDIATELY}
  }

  /** The socket takes something, and the handlers told of that do not change when the connection is to close. */
  ghost predicate Calm(env: Env) {
    env.taken > 0 && forall f: set<nat> :: Draining(f) ==> Draining(After(env.onSent, f))
  }

  /** At most one e in a trace. */
  ghost predicate Once(trace: seq<Event>, e: Event) {
    forall i, j :: 0 <= i < j < |trace| ==> !(trace[i] == e && trace[j] == e)
  }

  /** Closed once, as the last event, when the socket goes; connected at most once, and not while connecting. */
  ghost predicate History(trace: seq<Event>, flags: set<nat>, socket: bool) {
    && Once(trace, Close) && Once(trace, Connect)
    && (Close in trace <==> !socket) && (Close in trace ==> trace[|trace| - 1] == Close)
    && (CONNECTING in flags ==> Connect !in trace)
  }

  predicate Due(flags: set<nat>, queued: int) {
    CLOSE_IMMEDIATELY in flags || (queued == 0 && SEND_AND_CLOSE in flags)
  }

  // ----- what each callback does, on values -----

  /** Flags, events so far, everything sent, what the socket took of it, the flags it was closed with, and whether the
      write watcher runs. */
  datatype State = State(flags: set<nat>, trace: seq<Event>, sent: seq<byte>, wire: seq<byte>,
                         closing: Option<set<nat>>, armed: bool)

  function Queued(s: State): int {
    |s.sent| - |s.wire|
  }

  /** An event is delivered. */
  function Called(s: State, e: Event, steps: seq<Do>): State {
    s.(flags := After(steps, s.flags), trace := s.trace + [e], sent := s.sent + Data(steps),
       armed := s.armed || (s.closing.None? && Sends(steps)))
  }

  function Connected(s: State, err: int, steps: seq<Do>): State {
    Called(s.(flags := s.flags - {CONNECTING} + (if err != 0 then {CLOSE_IMMEDIATELY} else {})), Connect, steps)
  }

  function Received(s: State, received: int, fatal: bool, steps: seq<Do>): State {
    if received > 0 then if CLOSE_IMMEDIATELY in s.flags then s else Called(s, Recv, steps)
    else if received == 0 then s.(flags := s.flags + {SEND_AND_CLOSE})
    else if fatal then s.(flags := s.flags + {CLOSE_IMMEDIATELY})
    else s
  }

  function Written(s: State, taken: int, fatal: bool, steps: seq<Do>): State
    requires taken <= Queued(s)
  {
    if taken > 0 then Called(s.(wire := s.sent[..|s.wire| + taken]), Sent, steps)
    else if taken < 0 && fatal then s.(flags := s.flags + {CLOSE_IMMEDIATELY})
    else s
  }

  function Handled(s: State, canRead: bool, canWrite: bool, env: Env): State {
    var c := if CONNECTING in s.flags && (canRead || canWrite) then Connected(s, env.err, env.onConnect) else s;
    var r := if canRead then Received(c, env.received, env.fatal, env.onRecv) else c;
    if CLOSE_IMMEDIATELY !in r.flags && canWrite && Queued(r) > 0
    then Written(r, Min(env.taken, Queued(r)), env.fatal, env.onSent)
    else r
  }

  function Ticked(s: State, env: Env): State {
    var p := Called(s, Poll, env.onPoll);
    if CONNECTING in p.flags && env.idle > 5 then Connected(p, 110, env.onConnect) else p
  }

  /** It is closed if and only if that is due. */
  function Checked(s: State, onClose: seq<Do>): State {
    if Due(s.flags, Queued(s)) then Called(s.(closing := Some(s.flags), armed := false), Close, onClose) else s
  }

  /** The write watcher stops with nothing queued. */
  function Stopped(s: State): State {
    if s.closing.None? && Queued(s) == 0 then s.(armed := false) else s
  }

  datatype Callback = Writable(env: Env) | Readable(env: Env) | Timer(env: Env) | Application(data: seq<byte>)

  /** The loop calls only what is registered, and nothing of a closed connection. */
  function Performed(s: State, callback: Callback): State {
    if s.closing.Some? then s else
    match callback
    case Writable(env) => if s.armed then Stopped(Checked(Handled(s, false, true, env), env.onClose)) else s
    case Readable(env) => Checked(Handled(s, true, false, env), env.onClose)
    case Timer(env) => Checked(Ticked(s, env), env.onClose)
    case Application(data) => s.(sent := s.sent + data, armed := true)
  }

  function Outcome(s: State, callbacks: seq<Callback>): State
    decreases |callbacks|
  {
    if callbacks == [] then s else Outcome(Performed(s, callbacks[0]), callbacks[1..])
  }

  lemma {:induction false} OutcomeSnoc(s: State, callbacks: seq<Callback>, callback: Callback)
    ensures Outcome(s, callbacks + [callback]) == Performed(Outcome(s, callbacks), callback)
    decreases |callbacks|
  {
    hide Performed;
    if callbacks == [] {
      assert [callback][1..] == [];
    } else {
      OutcomeSnoc(Performed(s, callbacks[0]), callbacks[1..], callback);
      assert (callbacks + [callback])[1..] == callbacks[1..] + [callback];
    }
  }

  lemma {:induction false} ClosedForGood(s: State, callbacks: seq<Callback>)
    requires s.closing.Some?
    ensures Outcome(s, callbacks) == s
    decreases |callbacks|
  {
    if callbacks != [] {
      ClosedForGood(s, callbacks[1..]);
    }
  }

  /** The wire has a first part of what was sent; the rest is queued, and then the watcher runs unless the connection was
      closed, for one of its two reasons. */
  predicate Sound(s: State) {
    && s.wire <= s.sent && (s.closing.None? && Queued(s) > 0 ==> s.armed)
    && (s.closing.Some? ==> !s.armed && (CLOSE_IMMEDIATELY in s.closing.value || SEND_AND_CLOSE in s.closing.value))
  }

  /** Nothing sent, written or told is taken back, and a connection is closed once. */
  predicate Grown(s: State, t: State) {
    s.sent <= t.sent && s.wire <= t.wire && s.trace <= t.trace && (s.closing.Some? ==> t.closing == s.closing)
  }

  lemma CalledSound(s: State, e: Event, steps: seq<Do>)
    requires s.wire <= s.sent && (s.closing.None? && Queued(s) > 0 ==> s.armed)
    ensures var t := Called(s, e, steps);
            && t.wire <= t.sent && (t.closing.None? && Queued(t) > 0 ==> t.armed)
            && (s.closing.Some? && !s.armed ==> !t.armed) && Grown(s, t)
  {
    hide After;
    SendsData(steps);
    PrefixGrows(s.wire, s.sent, Data(steps));
    hide Data, Sends;
  }

  lemma PrefixGrows(w: seq<byte>, s: seq<byte>, more: seq<byte>)
    requires w <= s
    ensures w <= s + more && s <= s + more
  {
  }

  lemma {:induction false} SendsData(steps: seq<Do>)
    ensures Data(steps) != [] ==> Sends(steps)
    decreases steps
  {
    hide SendsOne, DataOne;
    if steps != [] {
      SendsDataOne(steps[0]);
      SendsData(steps[1..]);
      assert [] + Data(steps[1..]) == Data(steps[1..]);
    }
  }

  lemma {:induction false} SendsDataOne(step: Do)
    ensures DataOne(step) != [] ==> SendsOne(step)
    decreases step
  {
    hide Sends, Data;
    if step.CallUser? || step.CallDirect? {
      SendsData(step.body);
    }
  }

  lemma ConnectedSound(s: State, err: int, steps: seq<Do>)
    requires Sound(s) && s.closing.None?
    ensures var t := Connected(s, err, steps); Sound(t) && t.closing.None? && Grown(s, t)
  {
    hide Called;
    var c := s.(flags := s.flags - {CONNECTING} + (if err != 0 then {CLOSE_IMMEDIATELY} else {}));
    CalledSound(c, Connect, steps);
    CalledIs(c, Connect, steps);
  }

  lemma ReceivedSound(s: State, received: int, fatal: bool, steps: seq<Do>)
    requires Sound(s) && s.closing.None?
    ensures var t := Received(s, received, fatal, steps); Sound(t) && t.closing.None? && Grown(s, t)
  {
    hide Called;
    CalledSound(s, Recv, steps);
    CalledIs(s, Recv, steps);
  }

  lemma WrittenSound(s: State, taken: int, fatal: bool, steps: seq<Do>)
    requires Sound(s) && s.closing.None? && taken <= Queued(s)
    ensures var t := Written(s, taken, fatal, steps); Sound(t) && t.closing.None? && Grown(s, t)
  {
    hide Called;
    if taken > 0 {
      var w := s.(wire := s.sent[..|s.wire| + taken]);
      CalledSound(w, Sent, steps);
      CalledIs(w, Sent, steps);
    }
  }

  lemma GrownOn(s: State, t: State, u: State)
    requires Grown(s, t) && Grown(t, u)
    ensures Grown(s, u)
  {
  }

  lemma HandledSound(s: State, canRead: bool, canWrite: bool, env: Env)
    requires Sound(s) && s.closing.None?
    ensures var t := Handled(s, canRead, canWrite, env); Sound(t) && t.closing.None? && Grown(s, t)
  {
    hide Connected, Received, Written, Sound, Grown;
    GrownSelf(s);
    var c := if CONNECTING in s.flags && (canRead || canWrite) then Connected(s, env.err, env.onConnect) else s;
    ConnectedSound(s, env.err, env.onConnect);
    GrownSelf(c);
    var r := if canRead then Received(c, env.received, env.fatal, env.onRecv) else c;
    ReceivedSound(c, env.received, env.fatal, env.onRecv);
    GrownOn(s, c, r);
    if CLOSE_IMMEDIATELY !in r.flags && canWrite && Queued(r) > 0 {
      WrittenSound(r, Min(env.taken, Queued(r)), env.fatal, env.onSent);
      GrownOn(s, r, Written(r, Min(env.taken, Queued(r)), env.fatal, env.onSent));
    }
  }

  lemma GrownSelf(s: State)
    ensures Grown(s, s)
  {
  }

  lemma CalledIs(s: State, e: Event, steps: seq<Do>)
    ensures Called(s, e, steps).closing == s.closing && Called(s, e, steps).wire == s.wire
  {
    hide After, Data, Sends;
  }

  lemma CheckedSound(s: State, onClose: seq<Do>)
    requires Sound(s) && s.closing.None?
    ensures Sound(Checked(s, onClose)) && Grown(s, Checked(s, onClose))
  {
    hide Called;
    var t := s.(closing := Some(s.flags), armed := false);
    CalledSound(t, Close, onClose);
    CalledIs(t, Close, onClose);
  }

  lemma PerformedSound(s: State, callback: Callback)
    requires Sound(s)
    ensures Sound(Performed(s, callback)) && Grown(s, Performed(s, callback))
  {
    hide Called, Handled, Checked, Connected;
    if s.closing.None? {
      match callback {
        case Writable(env) =>
          HandledSound(s, false, true, env);
          CheckedSound(Handled(s, false, true, env), env.onClose);
        case Readable(env) =>
          HandledSound(s, true, false, env);
          CheckedSound(Handled(s, true, false, env), env.onClose);
        case Timer(env) =>
          CalledSound(s, Poll, env.onPoll);
          CalledIs(s, Poll, env.onPoll);
          ConnectedSound(Called(s, Poll, env.onPoll), 110, env.onConnect);
          CheckedSound(Ticked(s, env), env.onClose);
        case Application(data) =>
          PrefixGrows(s.wire, s.sent, data);
      }
    }
  }

  /** Over every interleaving of callbacks and sends: the wire and the queue together stay what was sent, which only
      grows, as the wire does; a queue has its watcher running; a connection is closed for a reason, and stays so. */
  lemma {:induction false} OutcomeSound(s: State, callbacks: seq<Callback>)
    requires Sound(s)
    ensures Sound(Outcome(s, callbacks)) && Grown(s, Outcome(s, callbacks))
    decreases |callbacks|
  {
    hide Performed, Sound;
    if callbacks != [] {
      PerformedSound(s, callbacks[0]);
      OutcomeSound(Performed(s, callbacks[0]), callbacks[1..]);
    }
  }

  class Connection {
    const send: Mbuf
    var flags: set<nat>
    var socket: bool  // the socket is valid
    var armed: bool   // the write watcher runs
    ghost var sent: seq<byte>  // everything sent while the socket was valid
    ghost var late: seq<byte>  // everything sent after that
    ghost var wire: seq<byte>  // what the socket took
    ghost var trace: seq<Event>
    ghost var closing: Option<set<nat>>  // the flags it was closed with

    /** What holds between any two sends, even inside a handler. */
    ghost predicate Pipe()
      reads this, send, send.buf
    {
      && send.Valid()
      // nothing is lost, doubled or reordered
      && wire + send.Contents() == sent + late
      // what is queued will be written: the watcher runs
      && (socket && send.len > 0 ==> armed)
      // a closed connection stays quiet
      && (socket <==> closing.None?) && (!socket ==> !armed) && (socket ==> late == [])
      // it was closed at once, or with everything written
      && (closing.Some? ==> CLOSE_IMMEDIATELY in closing.value || (SEND_AND_CLOSE in closing.value && wire == sent))
    }

    /** What holds between callbacks. */
    ghost predicate Valid()
      reads this, send, send.buf
    {
      Pipe() && flags !! NEVER && History(trace, flags, socket)
    }

    /** A connection with a socket and nothing queued: one that connects is added with its write watcher running, an
        accepted one with it stopped. */
    constructor (flags: set<nat>, armed: bool)
      requires flags !! NEVER
      ensures Valid() && fresh(send) && fresh(send.buf)
      ensures View() == State(flags, [], [], [], None, armed)
    {
      send := new Mbuf(0);
      this.flags, socket, this.armed := flags, true, armed;
      sent, late, wire, trace, closing := [], [], [], [], None;
    }

    method Send(data: seq<byte>)
      requires Pipe()
      modifies this`armed, this`sent, this`late, send, send.buf
      ensures Pipe() && (send.buf == old(send.buf) || fresh(send.buf))
      ensures sent + late == old(sent + late) + data && (!socket ==> sent == old(sent))
      ensures armed == (old(armed) || socket)
    {
      ghost var queued := send.Contents();
      Behind(wire, queued, sent, late, data);
      send.Append(data);
      if socket {
        sent := sent + data;
        assert sent + late == sent;
      } else {
        late := late + data;
      }
      if socket {
        armed := true;
      }
    }

    /** Runs a handler; what a user's does to the flags is undone by the dispatcher outside the modifiable ones. */
    method Handle(steps: seq<Do>)
      requires Pipe()
      modifies this`flags, this`armed, this`sent, this`late, send, send.buf
      ensures Pipe() && (send.buf == old(send.buf) || fresh(send.buf))
      ensures flags == After(steps, old(flags))
      ensures sent + late == old(sent + late) + Data(steps) && (!socket ==> sent == old(sent))
      ensures armed == (old(armed) || (socket && Sends(steps)))
      decreases steps, 0
    {
      hide Pipe, Masked;
      ghost var before := sent + late;
      if steps == [] {
        assert before + [] == before;
        return;
      }
      match steps[0] {
        case SendData(data) => Send(data);
        case SetBits(bits) => PutFlags(flags + bits);
        case ClearBits(bits) => PutFlags(flags - bits);
        case CallUser(body) => HandleUser(body);
        case CallDirect(body) => Handle(body);
      }
      assert sent + late == before + DataOne(steps[0]);
      Handle(steps[1..]);
      Regroup(before, DataOne(steps[0]), Data(steps[1..]));
    }

    method PutFlags(newFlags: set<nat>)
      requires Pipe()
      modifies this`flags
      ensures Pipe() && flags == newFlags
    {
      flags := newFlags;
    }

    method HandleUser(body: seq<Do>)
      requires Pipe()
      modifies this`flags, this`armed, this`sent, this`late, send, send.buf
      ensures Pipe() && (send.buf == old(send.buf) || fresh(send.buf))
      ensures flags == Masked(old(flags), After(body, old(flags)))
      ensures sent + late == old(sent + late) + Data(body) && (!socket ==> sent == old(sent))
      ensures armed == (old(armed) || (socket && Sends(body)))
      decreases body, 1
    {
      hide Pipe, After, Data, Sends;
      var before := flags;
      Handle(body);
      if flags != before {
        PutFlags((before - MODIFIABLE) + (flags * MODIFIABLE));
      }
    }

    ghost function View(): State
      reads this
    {
      State(flags, trace, sent + late, wire, closing, armed)
    }

    /** Delivers an event to the handlers. */
    method Call(e: Event, steps: seq<Do>)
      requires Pipe() && flags !! NEVER && History(trace + [e], flags, socket) && Behaves(steps)
      modifies this`flags, this`armed, this`sent, this`late, this`trace, send, send.buf
      ensures Valid() && (send.buf == old(send.buf) || fresh(send.buf))
      ensures View() == Called(old(View()), e, steps) && (!socket ==> sent == old(sent))
    {
      hide After, Data, Sends, Once, ModestCalls;
      StaysTcp(steps, flags);
      Record(e);
      Handle(steps);
    }

    ghost method Record(e: Event)
      requires Pipe()
      modifies this`trace
      ensures Pipe() && trace == old(trace) + [e]
    {
      trace := trace + [e];
    }

    method SentCallback(n: int, steps: seq<Do>)
      requires Valid() && socket && Behaves(steps) && n >= 0
      modifies this`flags, this`armed, this`sent, this`late, this`trace, send, send.buf
      ensures Valid() && (send.buf == old(send.buf) || fresh(send.buf))
      ensures View() == Called(old(View()), Sent, steps)
    {
      hide Once;
      OneMore(trace, Sent);
      Call(Sent, steps);
    }

    /** Writes what the socket takes of the queue. */
    method WriteToSocket(taken: int, fatal: bool, steps: seq<Do>)
      requires Valid() && socket && 0 < send.len && taken <= send.len && Behaves(steps)
      modifies this`flags, this`armed, this`sent, this`late, this`wire, this`trace, send, send.buf
      ensures Valid() && (send.buf == old(send.buf) || fresh(send.buf))
      ensures old(Queued(View())) == old(send.len) && View() == Written(old(View()), taken, fatal, steps)
    {
      hide Once, After, Data;
      QueueLength();
      if taken < 0 && fatal {
        PutFlags(flags + {CLOSE_IMMEDIATELY});
        return;
      }
      if taken > 0 {
        ghost var queued := send.Contents();
        Moved(wire, queued, taken);
        wire := wire + queued[..taken];
        send.Remove(taken);
        SentCallback(taken, steps);
      }
    }

    lemma WireFirst()
      requires Pipe()
      ensures wire <= sent + late
    {
      assert (wire + send.Contents())[..|wire|] == wire;
    }

    lemma IsSound()
      requires Pipe()
      ensures Sound(View())
    {
      QueueLength();
      WireFirst();
    }

    lemma QueueLength()
      requires Pipe()
      ensures Queued(View()) == send.len
    {
      assert |wire + send.Contents()| == |sent + late|;
    }

    method ConnectCallback(err: int, steps: seq<Do>)
      requires Valid() && socket && CONNECTING in flags && Behaves(steps)
      modifies this`flags, this`armed, this`sent, this`late, this`trace, send, send.buf
      ensures Valid() && (send.buf == old(send.buf) || fresh(send.buf))
      ensures View() == Connected(old(View()), err, steps)
    {
      hide Once, After, Data;
      OneMore(trace, Connect);
      PutFlags(flags - {CONNECTING});
      if err != 0 {
        PutFlags(flags + {CLOSE_IMMEDIATELY});
      } else {
        assert flags + {} == flags;
      }
      Call(Connect, steps);
    }

    /** Reads from the socket: the end of input closes the connection once its queue is written. */
    method ReadFromSocket(received: int, fatal: bool, steps: seq<Do>)
      requires Valid() && socket && Behaves(steps)
      modifies this`flags, this`armed, this`sent, this`late, this`trace, send, send.buf
      ensures Valid() && (send.buf == old(send.buf) || fresh(send.buf))
      ensures View() == Received(old(View()), received, fatal, steps)
    {
      hide Once, After, Data;
      if received > 0 {
        if CLOSE_IMMEDIATELY !in flags {
          OneMore(trace, Recv);
          Call(Recv, steps);
        }
      }
      if received == 0 {
        PutFlags(flags + {SEND_AND_CLOSE});
      } else if received < 0 && fatal {
        PutFlags(flags + {CLOSE_IMMEDIATELY});
      }
    }

    method HandleConn(canRead: bool, canWrite: bool, env: Env)
      requires Valid() && socket && AllBehave(env)
      modifies this`flags, this`armed, this`sent, this`late, this`wire, this`trace, send, send.buf
      ensures Valid() && (send.buf == old(send.buf) || fresh(send.buf))
      ensures View() == Handled(old(View()), canRead, canWrite, env)
    {
      hide Pipe, History, Called, Connected, Received, Written, Behaves, Queued;
      if CONNECTING in flags && (canRead || canWrite) {
        ConnectCallback(env.err, env.onConnect);
      }
      if canRead {
        ReadFromSocket(env.received, env.fatal, env.onRecv);
      }
      PipeIsValid();
      QueueLength();
      if CLOSE_IMMEDIATELY !in flags {
        if canWrite && send.len > 0 {
          WriteToSocket(Min(env.taken, send.len), env.fatal, env.onSent);
        }
      }
    }

    lemma PipeIsValid()
      requires Pipe()
      ensures send.Valid()
    {
    }

    /** Closes the socket and stops the watchers before the handlers hear of it. */
    method CloseConn(steps: seq<Do>)
      requires Valid() && socket && Due(flags, send.len) && Behaves(steps)
      modifies this`flags, this`armed, this`sent, this`late, this`trace, this`socket, this`closing, send, send.buf
      ensures Valid() && (send.buf == old(send.buf) || fresh(send.buf))
      ensures !socket && sent == old(sent)
      ensures View() == Called(old(View()).(closing := Some(old(flags)), armed := false), Close, steps)
    {
      hide Once, After, Data;
      OneMore(trace, Close);
      if send.len == 0 {
        AllWritten(wire, send.Contents(), sent);
      }
      armed, socket, closing := false, false, Some(flags);
      Call(Close, steps);
    }

    method CloseIfDue(steps: seq<Do>)
      requires Valid() && socket && Behaves(steps)
      modifies this`flags, this`armed, this`sent, this`late, this`trace, this`socket, this`closing, send, send.buf
      ensures Valid() && (send.buf == old(send.buf) || fresh(send.buf)) && sent == old(sent)
      ensures View() == Checked(old(View()), steps) && (socket <==> !Due(old(flags), old(send.len)))
      ensures socket ==> send.len == old(send.len)
    {
      hide History, Behaves, Called, Once;
      QueueLength();
      if CLOSE_IMMEDIATELY in flags || (send.len == 0 && SEND_AND_CLOSE in flags) {
        CloseConn(steps);
      }
    }

    /** The write watcher's callback. */
    method OnWritable(env: Env)
      requires Valid() && socket && AllBehave(env)
      modifies this`flags, this`armed, this`sent, this`late, this`wire, this`trace, this`socket, this`closing,
               send, send.buf
      ensures Valid() && (send.buf == old(send.buf) || fresh(send.buf))
      ensures View() == Stopped(Checked(Handled(old(View()), false, true, env), env.onClose))
      ensures socket ==> !Due(flags, send.len) && (armed <==> send.len > 0)
    {
      hide History, Behaves, Handled, Called;
      HandleConn(false, true, env);
      CloseIfDue(env.onClose);
      if !socket {
        return;
      }
      if send.len == 0 {
        armed := false;
      }
    }

    /** The read watcher's callback. */
    method OnReadable(env: Env)
      requires Valid() && socket && AllBehave(env)
      modifies this`flags, this`armed, this`sent, this`late, this`wire, this`trace, this`socket, this`closing,
               send, send.buf
      ensures Valid() && (send.buf == old(send.buf) || fresh(send.buf))
      ensures View() == Checked(Handled(old(View()), true, false, env), env.onClose)
      ensures socket ==> !Due(flags, send.len)
    {
      hide History, Behaves, Handled, Called;
      HandleConn(true, false, env);
      CloseIfDue(env.onClose);
    }

    /** The once-a-second callback. */
    method OnTimer(env: Env)
      requires Valid() && socket && AllBehave(env)
      modifies this`flags, this`armed, this`sent, this`late, this`wire, this`trace, this`socket, this`closing,
               send, send.buf
      ensures Valid() && (send.buf == old(send.buf) || fresh(send.buf))
      ensures View() == Checked(Ticked(old(View()), env), env.onClose)
      ensures socket ==> !Due(flags, send.len)
    {
      hide Once, Behaves, Called, Connected;
      OneMore(trace, Poll);
      Call(Poll, env.onPoll);
      if CONNECTING in flags && env.idle > 5 {
        ConnectCallback(110, env.onConnect);
      }
      CloseIfDue(env.onClose);
    }
  }

  /** Every interleaving of callbacks and sends of the application. */
  method Run(c: Connection, callbacks: seq<Callback>)
    requires c.Valid()
    requires forall i :: 0 <= i < |callbacks| && !callbacks[i].Application? ==> AllBehave(callbacks[i].env)
    modifies c, c.send, c.send.buf
    ensures c.Valid() && c.View() == Outcome(old(c.View()), callbacks)
    ensures Sound(c.View()) && Grown(old(c.View()), c.View())
  {
    hide Performed, Outcome, AllBehave, Sound, Grown;
    ghost var start := c.View();
    c.IsSound();
    OutcomeSound(start, callbacks);
    NothingPerformed(start);
    var i := 0;
    while i < |callbacks| && c.socket
      invariant i <= |callbacks| && c.Valid()
      invariant c.send.buf == old(c.send.buf) || fresh(c.send.buf)
      invariant c.View() == Outcome(start, callbacks[..i])
    {
      SplitAt(callbacks, i);
      OutcomeSnoc(start, callbacks[..i], callbacks[i]);
      PerformedIs(c.View(), callbacks[i]);
      match callbacks[i] {
        case Writable(env) =>
          if c.armed {
            c.OnWritable(env);
          }
        case Readable(env) => c.OnReadable(env);
        case Timer(env) => c.OnTimer(env);
        case Application(data) => c.Send(data);
      }
      i := i + 1;
    }
    if i < |callbacks| {
      ClosedAt(start, callbacks, i);
    } else {
      assert callbacks[..i] == callbacks;
    }
  }

  lemma NothingPerformed(s: State)
    ensures Outcome(s, []) == s
  {
  }

  lemma PerformedIs(s: State, callback: Callback)
    requires s.closing.None?
    ensures Performed(s, callback)
            == match callback
               case Writable(env) => if s.armed then Stopped(Checked(Handled(s, false, true, env), env.onClose)) else s
               case Readable(env) => Checked(Handled(s, true, false, env), env.onClose)
               case Timer(env) => Checked(Ticked(s, env), env.onClose)
               case Application(data) => s.(sent := s.sent + data, armed := true)
  {
  }

  lemma {:induction false} ClosedAt(s: State, callbacks: seq<Callback>, i: nat)
    requires i <= |callbacks| && Outcome(s, callbacks[..i]).closing.Some?
    ensures Outcome(s, callbacks) == Outcome(s, callbacks[..i])
    decreases i
  {
    hide Performed;
    if i == 0 {
      ClosedForGood(s, callbacks);
    } else {
      assert callbacks[..i][1..] == callbacks[1..][..i - 1];
      ClosedAt(Performed(s, callbacks[0]), callbacks[1..], i - 1);
    }
  }

  /** All that the handlers of sent data send. */
  function Answers(envs: seq<Env>): nat {
    if envs == [] then 0 else |Data(envs[0].onSent)| + Answers(envs[1..])
  }

  /** A connection that is to close after sending does so, with everything written, once the socket has been
      writable often enough: as many times as there are bytes, those included that its handlers send meanwhile. */
  method Flush(c: Connection, envs: seq<Env>)
    requires c.Valid() && c.socket && Draining(c.flags)
    requires forall i :: 0 <= i < |envs| ==> Calm(envs[i]) && AllBehave(envs[i])
    requires 0 < c.send.len && c.send.len + Answers(envs) <= |envs|
    modifies c, c.send, c.send.buf
    ensures c.Valid() && !c.socket && c.closing.Some? && Draining(c.closing.value)
    ensures c.wire == c.sent && old(c.sent) <= c.sent
  {
    hide Calm, AllBehave, Handled, Called;
    var i := 0;
    assert envs[0..] == envs;
    while c.socket
      invariant i <= |envs| && c.Valid()
      invariant c.send.buf == old(c.send.buf) || fresh(c.send.buf)
      invariant c.socket ==> old(c.sent) <= c.sent
      invariant if c.socket then Draining(c.flags) && 0 < c.send.len && c.send.len + Answers(envs[i..]) <= |envs| - i
                else c.closing.Some? && Draining(c.closing.value) && old(c.sent) <= c.wire
      decreases |envs| - i
    {
      ghost var was := c.View();
      c.QueueLength();
      assert was.sent == c.sent;
      c.WireFirst();
      assert envs[i..][1..] == envs[i + 1..];
      assert Answers(envs[i..]) == |Data(envs[i].onSent)| + Answers(envs[i + 1..]);
      CalmWrite(was, envs[i]);
      c.OnWritable(envs[i]);
      c.QueueLength();
      assert c.socket ==> c.View().sent == c.sent;
      i := i + 1;
    }
  }

  /** A write with calm handlers takes bytes off the queue and adds what they send, and closes when nothing is left. */
  lemma CalmWrite(s: State, env: Env)
    requires Calm(env) && Draining(s.flags) && Queued(s) > 0 && s.wire <= s.sent && s.closing.None?
    ensures var h, n := Handled(s, false, true, env), Min(env.taken, Queued(s));
            && h.sent == s.sent + Data(env.onSent) && h.wire == s.sent[..|s.wire| + n] && Draining(h.flags)
            && h.closing.None? && n > 0 && Queued(h) == Queued(s) - n + |Data(env.onSent)|
            && var r := Stopped(Checked(h, env.onClose));
            && (r.closing == if Queued(h) == 0 then Some(h.flags) else None) && r.wire == h.wire
            && (Queued(h) > 0 ==> r == h)
            && (Queued(h) == 0 ==> h.wire == h.sent)
  {
    hide After, Data, Sends;
    var h, n := Handled(s, false, true, env), Min(env.taken, Queued(s));
    assert CONNECTING !in s.flags && CLOSE_IMMEDIATELY !in s.flags;
    assert h == Called(s.(wire := s.sent[..|s.wire| + n]), Sent, env.onSent);
    if Queued(h) == 0 {
      assert |h.wire| == |s.wire| + n <= |s.sent|;
      assert Data(env.onSent) == [] && s.sent[..|s.sent|] == s.sent;
    }
  }

  /** Data queued behind what is queued are sent behind what was sent. */
  lemma Behind(wire: seq<byte>, queued: seq<byte>, sent: seq<byte>, late: seq<byte>, data: seq<byte>)
    requires wire + queued == sent + late
    ensures wire + (queued + data) == sent + late + data == sent + (late + data)
    ensures late == [] ==> sent + late + data == sent + data == sent + data + late
  {
    Regroup(wire, queued, data);
    Regroup(sent, late, data);
  }

  lemma Moved(wire: seq<byte>, queued: seq<byte>, n: nat)
    requires n <= |queued|
    ensures wire + queued[..n] + queued[n..] == wire + queued
  {
  }

  lemma AllWritten(wire: seq<byte>, queued: seq<byte>, sent: seq<byte>)
    requires wire + queued == sent + [] && queued == []
    ensures wire == sent
  {
    assert wire + queued == wire && sent + [] == sent;
  }

  lemma OneMore(trace: seq<Event>, e: Event)
    requires Once(trace, Close) && Once(trace, Connect) && Close !in trace
    requires e == Connect ==> Connect !in trace
    ensures Once(trace + [e], Close) && Once(trace + [e], Connect)
    ensures Close in trace + [e] <==> e == Close
    ensures Connect in trace + [e] <==> Connect in trace || e == Connect
  {
    var t := trace + [e];
    assert forall i :: 0 <= i < |trace| ==> t[i] == trace[i] && trace[i] in trace;
    assert t[|trace|] == e && (Close in trace ==> Close in t) && (Connect in trace ==> Connect in t);
  }
}
