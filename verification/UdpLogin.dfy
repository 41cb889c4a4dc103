/**
 How peers of the public relay server come by a user, over every run: only a
 successful verification of what the peer itself sent, against its own challenge.
 */
module UdpLogin {
  import opened Bytes
  import opened UdpServer
  import opened UdpForwarding

  /** Some datagram so far was a login attempt under this name from this address. */
  predicate Asked(past: seq<Event>, rinfo: Addr, response: seq<byte>, username: seq<byte>) {
    exists i :: 0 <= i < |past| && past[i].Datagram? && past[i].rinfo == rinfo
      && |past[i].msg| > 21 && past[i].msg[0] % 128 == AUTH_ME
      && past[i].msg[1..21] == response && past[i].msg[21..] == username
  }

  lemma AskedKept(past: seq<Event>, e: Event, rinfo: Addr, response: seq<byte>, username: seq<byte>)
    requires Asked(past, rinfo, response, username)
    ensures Asked(past + [e], rinfo, response, username)
  {
    var i :| 0 <= i < |past| && past[i].Datagram? && past[i].rinfo == rinfo
      && |past[i].msg| > 21 && past[i].msg[0] % 128 == AUTH_ME
      && past[i].msg[1..21] == response && past[i].msg[21..] == username;
    assert (past + [e])[i] == past[i];
  }

  /** Every verification under way is of something its peer sent. */
  predicate TasksAsked(s: Server, past: seq<Event>) {
    forall t :: 0 <= t < |s.tasks| && s.tasks[t].Verifying? ==>
      && s.tasks[t].peer < |s.peers|
      && Asked(past, s.peers[s.tasks[t].peer].rinfo, s.tasks[t].response, s.tasks[t].username)
  }

  ghost predicate NameAsked(past: seq<Event>, rinfo: Addr, username: seq<byte>) {
    exists response :: Asked(past, rinfo, response, username)
  }

  ghost predicate UsersAsked(s: Server, past: seq<Event>) {
    forall p :: 0 <= p < |s.peers| && s.peers[p].user.Some? ==> NameAsked(past, s.peers[p].rinfo, s.peers[p].user.value)
  }

  /** The login attempt of a datagram. */
  predicate Attempt(e: Event) {
    e.Datagram? && |e.msg| > 21 && e.msg[0] % 128 == AUTH_ME
  }

  lemma NowAsked(past: seq<Event>, e: Event)
    requires Attempt(e)
    ensures Asked(past + [e], e.rinfo, e.msg[1..21], e.msg[21..])
  {
    assert (past + [e])[|past|] == e;
  }

  /** A verification task was there before, or is for the login attempt just received. */
  predicate TaskOrigin(s: Server, e: Event, s': Server, t: nat)
    requires t < |s'.tasks| && s'.tasks[t].Verifying?
  {
    || (t < |s.tasks| && s.tasks[t] == s'.tasks[t])
    || (&& Attempt(e) && s'.tasks[t].peer < |s'.peers| && s'.peers[s'.tasks[t].peer].rinfo == e.rinfo
        && s'.tasks[t].response == e.msg[1..21] && s'.tasks[t].username == e.msg[21..])
  }

  lemma NeedAuthTasks(s: Server, p: nat, e: Event, t: nat)
    requires Refs(s) && p < |s.peers| && e.Datagram? && e.msg != [] && s.peers[p].rinfo == e.rinfo
    requires var s' := NeedAuth(s, p, e.msg[0] % 128, e.msg[1..]); t < |s'.tasks| && s'.tasks[t].Verifying?
    ensures TaskOrigin(s, e, NeedAuth(s, p, e.msg[0] % 128, e.msg[1..]), t)
  {
    var payload := e.msg[1..];
    if |payload| > 20 {
      assert payload[20..] == e.msg[21..] && payload[..20] == e.msg[1..21];
    }
  }

  lemma OnMessageTasks(s: Server, auth: bool, e: Event, t: nat)
    requires Inv(s, auth) && Keyed(s) && e.Datagram?
    requires var s' := Step(s, auth, e); t < |s'.tasks| && s'.tasks[t].Verifying?
    ensures TaskOrigin(s, e, Step(s, auth, e), t)
  {
    assert Refs(s);
    hide Inv, FillsInOrder, Grows, FloodFrames, TaskRefs;
    if e.msg != [] && !(e.msg[0] % 128 == PING && e.msg[0] < 128) {
      GetStep(s, auth, e.rinfo, e.now);
      GetRefs(s, e.rinfo, e.now);
      GetKeyed(s, e.rinfo, e.now);
      var (s1, p) := Get(s, e.rinfo, e.now);
      hide Keyed, NeedAuth, Get, Refs;
      if auth && s1.peers[p].user.None? {
        NeedAuthTasks(s1, p, e, t);
      }
    }
  }

  lemma StepTasks(s: Server, auth: bool, e: Event, t: nat)
    requires Inv(s, auth) && Keyed(s)
    requires var s' := Step(s, auth, e); t < |s'.tasks| && s'.tasks[t].Verifying?
    ensures TaskOrigin(s, e, Step(s, auth, e), t)
  {
    if e.Datagram? {
      OnMessageTasks(s, auth, e, t);
    }
  }

  lemma PacketKeepsUsers(s: Server, p: nat, kind: int, payload: seq<byte>, now: int, q: nat)
    requires Refs(s) && p < |s.peers| && q < |s.peers|
    ensures OnPacket(s, p, kind, payload, now).peers == s.peers
    ensures |NeedAuth(s, p, kind, payload).peers| == |s.peers|
    ensures NeedAuth(s, p, kind, payload).peers[q].user == s.peers[q].user
  {
  }

  lemma MessageKeepsUsers(s: Server, auth: bool, e: Event, p: nat)
    requires Refs(s) && e.Datagram? && p < |Step(s, auth, e).peers|
    ensures var s' := Step(s, auth, e);
            if p < |s.peers| then s'.peers[p].user == s.peers[p].user else s'.peers[p].user.None?
  {
    if e.msg != [] && !(e.msg[0] % 128 == PING && e.msg[0] < 128) {
      GetRefs(s, e.rinfo, e.now);
      var (s1, q) := Get(s, e.rinfo, e.now);
      PacketKeepsUsers(s1, q, e.msg[0] % 128, e.msg[1..], e.later, if p < |s1.peers| then p else q);
      hide NeedAuth, OnPacket, Grows, Refs;
    }
  }

  /**
   A peer's user changes in one way only: its own pending verification
   succeeds, and the name is the one that was verified against its challenge.
   */
  lemma OnlyVerifyLogsIn(s: Server, auth: bool, e: Event, p: nat)
    requires Inv(s, auth) && p < |Step(s, auth, e).peers|
    ensures var s' := Step(s, auth, e);
            || (if p < |s.peers| then s'.peers[p].user == s.peers[p].user else s'.peers[p].user.None?)
            || (&& p < |s.peers| && e.VerifyResolved? && e.ok && IsVerifying(s, e.task)
                && s.tasks[e.task].peer == p && s.peers[p].challenge == Some(s.tasks[e.task].buffer)
                && s'.peers[p].user == Some(s.tasks[e.task].username))
  {
    if e.Datagram? {
      MessageKeepsUsers(s, auth, e, p);
      hide Step;
    }
  }

  lemma HonestStep(s: Server, auth: bool, e: Event, past: seq<Event>)
    requires Inv(s, auth) && Keyed(s) && TasksAsked(s, past) && UsersAsked(s, past)
    ensures TasksAsked(Step(s, auth, e), past + [e]) && UsersAsked(Step(s, auth, e), past + [e])
  {
    StepKeepsInv(s, auth, e);
    var s' := Step(s, auth, e);
    forall t | 0 <= t < |s'.tasks| && s'.tasks[t].Verifying?
      ensures s'.tasks[t].peer < |s'.peers|
      ensures Asked(past + [e], s'.peers[s'.tasks[t].peer].rinfo, s'.tasks[t].response, s'.tasks[t].username)
    {
      StepTasks(s, auth, e, t);
      hide Step, Asked;
      if t < |s.tasks| && s.tasks[t] == s'.tasks[t] {
        AskedKept(past, e, s.peers[s.tasks[t].peer].rinfo, s.tasks[t].response, s.tasks[t].username);
      } else {
        NowAsked(past, e);
      }
    }
    forall p | 0 <= p < |s'.peers| && s'.peers[p].user.Some?
      ensures NameAsked(past + [e], s'.peers[p].rinfo, s'.peers[p].user.value)
    {
      OnlyVerifyLogsIn(s, auth, e, p);
      hide Step, Asked;
      if p < |s.peers| && s'.peers[p].user == s.peers[p].user {
        var response :| Asked(past, s.peers[p].rinfo, response, s.peers[p].user.value);
        AskedKept(past, e, s.peers[p].rinfo, response, s.peers[p].user.value);
      } else {
        var task := s.tasks[e.task];
        AskedKept(past, e, s.peers[p].rinfo, task.response, task.username);
      }
    }
  }

  lemma {:induction false} RunHonest(s: Server, auth: bool, past: seq<Event>, events: seq<Event>)
    requires Inv(s, auth) && Traced(s, past) && TasksAsked(s, past) && UsersAsked(s, past)
    ensures UsersAsked(Run(s, auth, events), past + events)
    decreases |events|
  {
    if events == [] {
      assert past + events == past;
    } else {
      StepKeepsInv(s, auth, events[0]);
      StepTraced(s, auth, events[0], past);
      HonestStep(s, auth, events[0], past);
      hide Traced, Step, FillsInOrder, Grows, TasksAsked, UsersAsked;
      RunHonest(Step(s, auth, events[0]), auth, past + [events[0]], events[1..]);
      assert past + [events[0]] + events[1..] == past + events;
    }
  }

  /** In every run, a peer's user is a name that some login attempt from the peer's address gave. */
  lemma UsersAskedToLogIn(auth: bool, events: seq<Event>, p: nat)
    requires var s := Run(INIT, auth, events); p < |s.peers| && s.peers[p].user.Some?
    ensures var s := Run(INIT, auth, events); NameAsked(events, s.peers[p].rinfo, s.peers[p].user.value)
  {
    RunHonest(INIT, auth, [], events);
    assert [] + events == events;
  }

  /** A registered peer without a user. */
  predicate Stranger(s: Server, rinfo: Addr, p: nat) {
    && p < |s.peers| && s.peers[p].user.None?
    && Find(s.registry, rinfo) < |s.registry| && s.registry[Find(s.registry, rinfo)].peer == p
  }

  /** A stranger whose challenge is filled is shown it again, whatever it sends but a ping or a login attempt. */
  lemma StrangerIsChallenged(s: Server, e: Event, p: nat)
    requires Inv(s, true) && e.Datagram? && Stranger(s, e.rinfo, p) && Filled(s, p)
    requires e.msg != [] && e.msg[0] % 128 != AUTH_ME && e.msg[0] != PING
    ensures Step(s, true, e).sent ==
      s.sent + [AuthMe(p, s.peers[p].rinfo, s.buffers[s.peers[p].challenge.value].Content())]
  {
    GetRefs(s, e.rinfo, e.now);
  }

  lemma AttemptIsVerified(s: Server, e: Event, p: nat)
    requires Inv(s, true) && Attempt(e) && Stranger(s, e.rinfo, p) && s.peers[p].challenge.Some?
    ensures var s' := Step(s, true, e);
            && s'.peers == s.peers && s'.buffers == s.buffers && s'.sent == s.sent
            && s'.tasks == s.tasks + [Verifying(p, s.peers[p].challenge.value, e.msg[21..], e.msg[1..21])]
  {
    GetRefs(s, e.rinfo, e.now);
    assert e.msg[1..][20..] == e.msg[21..] && e.msg[1..][..20] == e.msg[1..21];
  }

  /**
   A login attempt of a peer that has been assigned a challenge, filled or not,
   logs it in under the name it gave once it is verified.
   */
  lemma AttemptLogsIn(s: Server, e: Event, p: nat)
    requires Inv(s, true) && Attempt(e) && Stranger(s, e.rinfo, p) && s.peers[p].challenge.Some?
    ensures var s' := Run(s, true, [e, VerifyResolved(|s.tasks|, true)]);
            && |s'.peers| == |s.peers| && s'.peers[p].user == Some(e.msg[21..])
            && s'.buffers == s.buffers && s'.sent == s.sent
  {
    AttemptIsVerified(s, e, p);
    StepKeepsInv(s, true, e);
    var s1, verified := Step(s, true, e), VerifyResolved(|s.tasks|, true);
    StepKeepsInv(s1, true, verified);
    hide OnMessage, FillsInOrder, Grows;
    assert [e, verified][1..] == [verified] && [verified][1..] == [];
    assert Run(s, true, [e, verified]) == Run(s1, true, [verified]);
    assert Run(s1, true, [verified]) == Step(s1, true, verified);
  }

  /**
   What a login attempt is verified against, in every run: the peer has been sent
   the challenge, completely filled, if and only if its marker is cleared when
   the attempt arrives. The server does not test that.
   */
  lemma AttemptAgainstShownIff(past: seq<Event>, e: Event, p: nat)
    requires Attempt(e) && Stranger(Run(INIT, true, past), e.rinfo, p)
    requires Run(INIT, true, past).peers[p].challenge.Some?
    ensures var s := Run(INIT, true, past);
            var b := s.peers[p].challenge.value;
            && Step(s, true, e).tasks == s.tasks + [Verifying(p, b, e.msg[21..], e.msg[1..21])]
            && (Challenged(s.sent, p) && s.buffers[b].marker == 0 && s.buffers[b].Complete() <==> Filled(s, p))
  {
    ChallengedIffFilled(true, past, p);
    var s := Run(INIT, true, past);
    hide Run;
    AttemptIsVerified(s, e, p);
    assert s.buffers[s.peers[p].challenge.value] in s.buffers;
  }

  /** The state after a first message from a new address. */
  lemma FirstMessage(k: Event)
    requires k.Datagram? && k.msg != [] && k.msg[0] % 128 != AUTH_ME && k.msg[0] != PING
    ensures Inv(INIT, true)
    ensures Step(INIT, true, k) == Server([Peer(k.rinfo, None, Some(0))], [Buffer(0xFF, Blank(), {})],
                                          [Registered(k.rinfo, k.now + TIMEOUT, 0)], map[], [Filling(0, 0)], [])
  {
  }

  /**
   So it can happen that a peer logs in that was never sent a challenge, against
   one that is still blank: a first message, a login attempt right behind it, and
   a verification that accepts it.
   */
  lemma LoginWithoutChallenge(k: Event, e: Event)
    requires k.Datagram? && k.msg != [] && k.msg[0] % 128 != AUTH_ME && k.msg[0] != PING
    requires Attempt(e) && e.rinfo == k.rinfo
    ensures var s := Run(INIT, true, [k, e, VerifyResolved(1, true)]);
            && LoggedIn(s, 0) && !Challenged(s.sent, 0)
            && |s.buffers| == 1 && s.buffers[0].bytes == Blank() && s.buffers[0].written == {}
  {
    FirstMessage(k);
    StepKeepsInv(INIT, true, k);
    var s1 := Step(INIT, true, k);
    hide Step, Inv;
    var rest := [e, VerifyResolved(1, true)];
    assert [k, e, VerifyResolved(1, true)][1..] == rest;
    assert Run(INIT, true, [k, e, VerifyResolved(1, true)]) == Run(s1, true, rest);
    assert Find(s1.registry, e.rinfo) == 0;
    AttemptLogsIn(s1, e, 0);
  }

  /**
   An attempt whose verification fails does not log in: a wrong password is
   reported to the peer's own address twice, an error once.
   */
  lemma AttemptIsRefused(s: Server, e: Event, p: nat, text: string)
    requires Inv(s, true) && Attempt(e) && Stranger(s, e.rinfo, p) && s.peers[p].challenge.Some?
    ensures var wrong := Info(p, s.peers[p].rinfo, "Error when login: Wrong password");
            var s' := Run(s, true, [e, VerifyResolved(|s.tasks|, false)]);
            s'.peers == s.peers && s'.sent == s.sent + [wrong, wrong]
    ensures var s' := Run(s, true, [e, VerifyRejected(|s.tasks|, text)]);
            s'.peers == s.peers && s'.sent == s.sent + [Info(p, s.peers[p].rinfo, "Error when login: " + text)]
  {
    AttemptIsVerified(s, e, p);
    StepKeepsInv(s, true, e);
    var s1 := Step(s, true, e);
    RunTwo(s, e, VerifyResolved(|s.tasks|, false));
    RunTwo(s, e, VerifyRejected(|s.tasks|, text));
    hide OnMessage, FillsInOrder, Grows, Run;
  }

  lemma RunTwo(s: Server, a: Event, b: Event)
    requires Inv(s, true)
    ensures Inv(Step(s, true, a), true) && Run(s, true, [a, b]) == Step(Step(s, true, a), true, b)
  {
    hide Step, FillsInOrder, Grows;
    StepKeepsInv(s, true, a);
    var s1 := Step(s, true, a);
    StepKeepsInv(s1, true, b);
    assert [a, b][1..] == [b] && [b][1..] == [];
    assert Run(s1, true, [b]) == Step(s1, true, b);
  }

  /** An attempt without a name, or before there is a challenge, is ignored. */
  lemma OtherAttemptsAreIgnored(s: Server, e: Event, p: nat)
    requires Inv(s, true) && e.Datagram? && Stranger(s, e.rinfo, p) && e.msg != [] && e.msg[0] % 128 == AUTH_ME
    requires |e.msg| <= 21 || s.peers[p].challenge.None?
    ensures var s' := Step(s, true, e);
            s'.peers == s.peers && s'.buffers == s.buffers && s'.tasks == s.tasks && s'.sent == s.sent
  {
    GetRefs(s, e.rinfo, e.now);
    hide FillsInOrder, FloodFrames, OnPacket;
  }

  /**
   Anything else from a stranger but a ping: the first time, a blank challenge is
   assigned and its filling begins; while it is filled, nothing happens. The
   third case is StrangerIsChallenged.
   */
  lemma FirstMessageStartsFill(s: Server, e: Event, p: nat)
    requires Inv(s, true) && e.Datagram? && Stranger(s, e.rinfo, p) && !Filled(s, p)
    requires e.msg != [] && e.msg[0] % 128 != AUTH_ME && e.msg[0] != PING
    ensures var s', b := Step(s, true, e), |s.buffers|;
            if s.peers[p].challenge.None? then
              && s'.peers == s.peers[p := s.peers[p].(challenge := Some(b))]
              && s'.buffers == s.buffers + [Buffer(0xFF, seq(64, _ => 0), {})]
              && s'.tasks == s.tasks + [Filling(p, b)] && s'.sent == s.sent
            else s'.peers == s.peers && s'.buffers == s.buffers && s'.tasks == s.tasks && s'.sent == s.sent
  {
    GetRefs(s, e.rinfo, e.now);
    hide FillsInOrder, FloodFrames, OnPacket;
  }

  /** What the random source writes is what the challenge then has there; the other bytes and buffers stay. */
  lemma WrittenIsKept(s: Server, auth: bool, t: nat, offset: nat, bytes: seq<byte>)
    requires Inv(s, auth) && IsFilling(s, t) && offset + |bytes| <= CHALLENGE_LEN
    ensures var s', b := Step(s, auth, Wrote(t, offset, bytes)), s.tasks[t].buffer;
            && |s'.buffers| == |s.buffers| && b < |s.buffers| && |s.buffers[b].bytes| == |s'.buffers[b].bytes| == 64
            && (forall k :: 0 <= k < 64 ==>
                  s'.buffers[b].bytes[k] ==
                    if offset <= k < offset + |bytes| then bytes[k - offset] else s.buffers[b].bytes[k])
            && (forall c :: 0 <= c < |s.buffers| && c != b ==> s'.buffers[c] == s.buffers[c])
  {
    assert TaskRefs(s, s.tasks[t]);
    var b := s.tasks[t].buffer;
    assert s.buffers[b] in s.buffers;
  }

  /** A filled challenge is shown to its peer at once: a cleared marker and the 64 bytes. */
  lemma FilledIsShown(s: Server, auth: bool, t: nat)
    requires Inv(s, auth) && IsFilling(s, t)
    requires s.tasks[t].buffer < |s.buffers| && s.buffers[s.tasks[t].buffer].Complete()
    ensures var s', p := Step(s, auth, FillResolved(t)), s.tasks[t].peer;
            p < |s.peers| && s'.sent == s.sent + [AuthMe(p, s.peers[p].rinfo, [0] + s.buffers[s.tasks[t].buffer].bytes)]
  {
    assert TaskRefs(s, s.tasks[t]);
  }
}
