/**
 The ARP sweep that looks for a console: switch_discovery_timer_cb of
 src/lan-play.c, one call per timer tick.
 */
module Discovery {
  import opened Bytes

  const FIRST_HOST := 2
  const LAST_HOST := 254
  const PAUSE_TICKS := 600

  /** Fixed during a run: whether the Wi-Fi subnet is known, and the relay's own addresses. */
  datatype Env = Env(wifiKnown: bool, wifiIp: Ip, overlayNet: Ip, overlayIp: Ip)

  datatype Sweep = Sweep(host: byte, pauseTicks: nat, wifiPhase: bool)

  /** An ARP request for target, sent under the sender's address. */
  datatype Probe = Probe(target: Ip, sender: Ip)

  /** The part of lan_play_init that arms the sweep. */
  function Init(env: Env): Sweep {
    Sweep(FIRST_HOST, 0, env.wifiKnown)
  }

  predicate OnWifi(env: Env, s: Sweep) {
    s.wifiPhase && env.wifiKnown
  }

  function ProbeFor(env: Env, wifi: bool, host: byte): Probe {
    if wifi then Probe(env.wifiIp[3 := host], env.wifiIp) else Probe(env.overlayNet[3 := host], env.overlayIp)
  }

  /** The probe a tick sends while no console is seen. */
  function Sent(env: Env, s: Sweep): Option<Probe> {
    if s.pauseTicks > 0 || (OnWifi(env, s) && s.host == env.wifiIp[3]) then None
    else Some(ProbeFor(env, OnWifi(env, s), s.host))
  }

  /** The state after a tick while no console is seen. */
  function Tick(env: Env, s: Sweep): Sweep {
    if s.pauseTicks > 0 then s.(pauseTicks := s.pauseTicks - 1) else
    var host := (s.host + 1) % 0x100;
    if host != 0 && host != 255 then s.(host := host)
    else if OnWifi(env, s) then Sweep(FIRST_HOST, s.pauseTicks, false)
    else Sweep(FIRST_HOST, PAUSE_TICKS, env.wifiKnown)
  }

  function After(env: Env, s: Sweep, n: nat): Sweep {
    if n == 0 then s else Tick(env, After(env, s, n - 1))
  }

  const SWEEP := LAST_HOST - FIRST_HOST + 1

  /** 1106 ticks, or 853 without a known Wi-Fi subnet. */
  function Period(env: Env): nat {
    (if env.wifiKnown then SWEEP else 0) + SWEEP + PAUSE_TICKS
  }

  /** The state at a position of the cycle: the Wi-Fi sweep if any, the overlay sweep, the pause. */
  function StateAt(env: Env, p: nat): Sweep
    requires p < Period(env)
  {
    var q := if env.wifiKnown then p - SWEEP else p;
    if q < 0 then Sweep(FIRST_HOST + p, 0, true)
    else if q < SWEEP then Sweep(FIRST_HOST + q, 0, false)
    else Sweep(FIRST_HOST, PAUSE_TICKS - (q - SWEEP), env.wifiKnown)
  }

  function Advance(env: Env, p: nat, n: nat): (r: nat)
    requires p < Period(env) && n <= Period(env)
    ensures r < Period(env)
  {
    if p + n < Period(env) then p + n else p + n - Period(env)
  }

  lemma TickAdvances(env: Env, p: nat)
    requires p < Period(env)
    ensures Tick(env, StateAt(env, p)) == StateAt(env, Advance(env, p, 1))
  {
  }

  lemma {:induction false} AfterAdvances(env: Env, p: nat, n: nat)
    requires p < Period(env) && n <= Period(env)
    ensures After(env, StateAt(env, p), n) == StateAt(env, Advance(env, p, n))
  {
    if n > 0 {
      AfterAdvances(env, p, n - 1);
      TickAdvances(env, Advance(env, p, n - 1));
    }
  }

  /** Every reachable state is one of the cycle. */
  lemma {:induction false} ReachablePosition(env: Env, m: nat) returns (p: nat)
    ensures p < Period(env) && After(env, Init(env), m) == StateAt(env, p)
  {
    if m == 0 {
      p := 0;
    } else {
      var q := ReachablePosition(env, m - 1);
      TickAdvances(env, q);
      p := Advance(env, q, 1);
    }
  }

  /** From every reachable state the sweep repeats itself after one period. */
  lemma Periodic(env: Env, m: nat)
    ensures var s := After(env, Init(env), m); After(env, s, Period(env)) == s
    ensures Period(env) == if env.wifiKnown then 1106 else 853
  {
    var p := ReachablePosition(env, m);
    AfterAdvances(env, p, Period(env));
  }

  /** Where in the cycle a host is probed. */
  function PositionOf(env: Env, wifi: bool, host: byte): (p: nat)
    requires FIRST_HOST <= host <= LAST_HOST && (wifi ==> env.wifiKnown)
    ensures p < Period(env)
    ensures StateAt(env, p) == Sweep(host, 0, wifi)
  {
    host - FIRST_HOST + if env.wifiKnown && !wifi then SWEEP else 0
  }

  /** The tick probes this host, in the Wi-Fi or the overlay sweep. */
  predicate Probes(env: Env, s: Sweep, wifi: bool, host: byte) {
    OnWifi(env, s) == wifi && Sent(env, s) == Some(ProbeFor(env, wifi, host))
  }

  /** A position other than the host's own probes something else. */
  lemma OnlyThere(env: Env, wifi: bool, host: byte, p: nat)
    requires FIRST_HOST <= host <= LAST_HOST && (wifi ==> env.wifiKnown)
    requires p < Period(env)
    ensures Probes(env, StateAt(env, p), wifi, host) <==>
            p == PositionOf(env, wifi, host) && !(wifi && host == env.wifiIp[3])
  {
    var s := StateAt(env, p);
    if Sent(env, s).Some? {
      var sent := ProbeFor(env, OnWifi(env, s), s.host);
      assert sent.target[3] == s.host;
      assert ProbeFor(env, wifi, host).target[3] == host;
    }
  }

  /**
   From every reachable state, within one period, every host 2..254 of each
   swept subnet is probed exactly once, except the relay's own Wi-Fi host,
   which is never probed.
   */
  lemma ProbedOncePerPeriod(env: Env, m: nat, wifi: bool, host: byte) returns (k: nat)
    requires FIRST_HOST <= host <= LAST_HOST && (wifi ==> env.wifiKnown)
    ensures k < Period(env)
    ensures forall n: nat | n < Period(env) ::
      Probes(env, After(env, After(env, Init(env), m), n), wifi, host) <==>
      n == k && !(wifi && host == env.wifiIp[3])
  {
    var p := ReachablePosition(env, m);
    var q := PositionOf(env, wifi, host);
    k := if p <= q then q - p else q + Period(env) - p;
    hide StateAt, Probes, PositionOf;
    forall n: nat | n < Period(env)
      ensures Probes(env, After(env, After(env, Init(env), m), n), wifi, host) <==>
              n == k && !(wifi && host == env.wifiIp[3])
    {
      AfterAdvances(env, p, n);
      OnlyThere(env, wifi, host, Advance(env, p, n));
    }
  }

  /** Every probe is for a host 2..254 of a swept subnet, never the relay's own Wi-Fi host. */
  lemma OnlyHostsAreProbed(env: Env, m: nat)
    ensures var s := After(env, Init(env), m);
            Sent(env, s).Some? ==>
              && FIRST_HOST <= s.host <= LAST_HOST
              && Sent(env, s).value == ProbeFor(env, OnWifi(env, s), s.host)
              && (OnWifi(env, s) ==> Sent(env, s).value.target != env.wifiIp)
  {
    var p := ReachablePosition(env, m);
    var s := StateAt(env, p);
    if Sent(env, s).Some? && OnWifi(env, s) {
      assert Sent(env, s).value.target[3] == s.host;
    }
  }

  /** The fields of struct lan_play and its timer. */
  class Discoverer {
    const env: Env
    var host: byte
    var pauseTicks: nat
    var wifiPhase: bool
    var stopped: bool

    function Model(): Sweep
      reads this
    {
      Sweep(host, pauseTicks, wifiPhase)
    }

    constructor (env: Env)
      ensures this.env == env && Model() == Init(env) && !stopped
    {
      this.env := env;
      host, pauseTicks, wifiPhase, stopped := FIRST_HOST, 0, env.wifiKnown, false;
    }

    /** One firing of the timer. */
    method OnTimer(seen: bool) returns (probe: Option<Probe>)
      modifies this
      ensures !old(stopped) && !seen ==> Model() == Tick(env, old(Model())) && probe == Sent(env, old(Model()))
      ensures old(stopped) || seen ==> probe == None && Model() == old(Model())
      ensures stopped <==> old(stopped) || seen
    {
      probe := None;
      if stopped { return; }
      if seen {
        stopped := true;
        return;
      }
      if pauseTicks != 0 {
        pauseTicks := pauseTicks - 1;
        return;
      }
      var wifi := wifiPhase && env.wifiKnown;
      var net, sender := env.overlayNet, env.overlayIp;
      if wifi {
        net, sender := env.wifiIp, env.wifiIp;
      }
      var target: Ip := net[3 := host];
      if !(wifi && target[3] == env.wifiIp[3]) {
        probe := Some(Probe(target, sender));
      }
      host := (host + 1) % 0x100;
      if host == 0 || host == 255 {
        host := FIRST_HOST;
        if wifi {
          wifiPhase := false;
        } else {
          wifiPhase := env.wifiKnown;
          pauseTicks := PAUSE_TICKS;
        }
      }
    }

    /** A whole run: nothing is sent from the first tick that sees a console on. */
    method Sweeping(seen: seq<bool>) returns (sent: seq<Option<Probe>>)
      requires !stopped
      modifies this
      ensures |sent| == |seen|
      ensures forall n :: 0 <= n < |seen| ==>
        sent[n] == if true in seen[..n + 1] then None else Sent(env, After(env, old(Model()), n))
    {
      sent := [];
      hide Sent, Tick;
      for n := 0 to |seen|
        invariant |sent| == n && (stopped <==> true in seen[..n])
        invariant !stopped ==> Model() == After(env, old(Model()), n)
        invariant forall k :: 0 <= k < n ==>
          sent[k] == if true in seen[..k + 1] then None else Sent(env, After(env, old(Model()), k))
      {
        var probe := OnTimer(seen[n]);
        assert seen[..n + 1] == seen[..n] + [seen[n]];
        sent := sent + [probe];
      }
    }
  }
}
