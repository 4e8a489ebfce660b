/**
 Automatic failover: exchange_process_data_redundant and handle_failover of examples/redundancy_demo.c over
 pd_switch_port and pd_check_port_health of src/master/process_data.c.
 */
module Failover {
  import opened Endian

  const FAILOVER_THRESHOLD := 3
  const MAX_IDLE_NS := 5_000_000_000

  datatype Port = Primary | Secondary

  function Other(p: Port): Port {
    if p == Primary then Secondary else Primary
  }

  /** How pd_exchange_port ends: success with the expected working counter, success with another one, or an error. */
  datatype Outcome = Matched | Mismatched | Failed

  /** What pd_check_port_health looks at; the counters are uint64_t. */
  datatype View = View(present: bool, linkUp: bool, sent: nat, received: nat, errors: nat, idleNs: nat)

  /** One cycle as one port meets it: its exchange, its health, and its link when a switch to it is tried. */
  datatype PortCycle = PortCycle(outcome: Outcome, view: View, linkAtSwitch: bool)

  datatype Cycle = Cycle(primary: PortCycle, secondary: PortCycle)
  {
    function At(p: Port): PortCycle {
      if p == Primary then primary else secondary
    }
  }

  // ---------- pd_check_port_health ----------

  predicate Healthy(v: View) {
    && v.present && v.linkUp
    && var total := (v.sent + v.received) % DOUBLE_WORD;
       total > 0 ==> v.errors * 1000 % DOUBLE_WORD / total <= 100 && v.idleNs <= MAX_IDLE_NS
  }

  /** The error rate in 1000ths is truncated: ports are called unhealthy from 10.1 percent on, not from 10 percent. */
  lemma HealthyIff(v: View)
    requires v.sent + v.received < DOUBLE_WORD && 1000 * v.errors < DOUBLE_WORD
    ensures Healthy(v) <==>
      && v.present && v.linkUp
      && (v.sent + v.received > 0 ==> 1000 * v.errors < 101 * (v.sent + v.received) && v.idleNs <= 5_000_000_000)
  {
    var total := v.sent + v.received;
    var e := v.errors * 1000;
    Fits(total);
    Fits(e);
    if total > 0 {
      assert total * (e / total) <= e < total * (e / total) + total;
      RateAtMost(e, total, e / total);
    }
  }

  /** More than 10 percent, and healthy: 1005 errors in 10000 frames. */
  lemma HealthyAboveTenPercent(v: View)
    requires v == View(true, true, 5000, 5000, 1005, 0)
    ensures Healthy(v) && 10 * v.errors > v.sent + v.received
  {
    HealthyIff(v);
  }

  lemma RateAtMost(e: nat, total: nat, rate: nat)
    requires total > 0 && total * rate <= e < total * rate + total
    ensures rate <= 100 <==> e < 101 * total
  {
    if rate <= 100 {
      assert total * rate <= total * 100;
    } else {
      assert total * rate >= total * 101;
    }
  }

  // ---------- The state and its steps ----------

  /** g_redundancy, and what pd_switch_port and pd_exchange_port keep of the ports in the image. */
  datatype Redundancy = Redundancy(active: Port, primaryErrors: u32, secondaryErrors: u32, primarySuccesses: u32,
                                   secondarySuccesses: u32, failovers: u32, auto: bool,
                                   current: Port, primaryActive: bool, secondaryActive: bool)
  {
    function ErrorsOf(p: Port): u32 {
      if p == Primary then primaryErrors else secondaryErrors
    }

    function ActiveFlag(p: Port): bool {
      if p == Primary then primaryActive else secondaryActive
    }
  }

  function Start(auto: bool): Redundancy {
    Redundancy(Primary, 0, 0, 0, 0, 0, auto, Primary, false, false)
  }

  /** ++ on a uint32_t. */
  function Up(n: u32): u32 {
    if n + 1 < WORD then n + 1 else 0
  }

  lemma UpIsModulo(n: u32)
    ensures Up(n) == (n + 1) % 0x1_0000_0000
  {
  }

  function WithErrors(s: Redundancy, p: Port, n: u32): Redundancy {
    if p == Primary then s.(primaryErrors := n) else s.(secondaryErrors := n)
  }

  function WithSuccess(s: Redundancy, p: Port): Redundancy {
    if p == Primary then s.(primarySuccesses := Up(s.primarySuccesses)) else s.(secondarySuccesses := Up(s.secondarySuccesses))
  }

  function WithFlag(s: Redundancy, p: Port, flag: bool): Redundancy {
    if p == Primary then s.(primaryActive := flag) else s.(secondaryActive := flag)
  }

  /** pd_exchange_port marks a port that answers as active. */
  function AfterExchange(s: Redundancy, p: Port, o: Outcome): Redundancy {
    if o == Failed then s else WithFlag(s, p, true)
  }

  /** exchange_process_data_redundant: the active port, and the backup only if the active one fails. */
  function Exchanged(s: Redundancy, c: Cycle): (Redundancy, bool) {
    var a, b := s.active, Other(s.active);
    var s1 := AfterExchange(s, a, c.At(a).outcome);
    if c.At(a).outcome == Matched then (WithErrors(WithSuccess(s1, a), a, 0), true)
    else
      var s2 := WithErrors(AfterExchange(s1, b, c.At(b).outcome), a, Up(s1.ErrorsOf(a)));
      if c.At(b).outcome == Matched then (WithSuccess(s2, b), true) else (s2, false)
  }

  /** pd_switch_port to an existing port whose link is up. */
  function Switched(s: Redundancy, p: Port): Redundancy {
    WithFlag(WithFlag(s, s.current, false), p, true).(current := p)
  }

  predicate MaySwitchTo(c: PortCycle) {
    Healthy(c.view) && c.view.present && c.linkAtSwitch
  }

  /** handle_failover */
  function FailedOver(s: Redundancy, c: Cycle): Redundancy {
    var a, b := s.active, Other(s.active);
    if s.auto && s.ErrorsOf(a) >= FAILOVER_THRESHOLD && MaySwitchTo(c.At(b)) then
      WithErrors(Switched(s, b).(active := b, failovers := Up(s.failovers)), a, 0)
    else s
  }

  function Step(s: Redundancy, c: Cycle): Redundancy {
    FailedOver(Exchanged(s, c).0, c)
  }

  function After(auto: bool, cycles: seq<Cycle>): Redundancy {
    if cycles == [] then Start(auto) else Step(After(auto, cycles[..|cycles| - 1]), cycles[|cycles| - 1])
  }

  /** The global state, updated in place. */
  class Master {
    var active: Port
    var primaryErrors: u32
    var secondaryErrors: u32
    var primarySuccesses: u32
    var secondarySuccesses: u32
    var failovers: u32
    var auto: bool
    var current: Port
    var primaryActive: bool
    var secondaryActive: bool

    ghost function State(): Redundancy
      reads this
    {
      Redundancy(active, primaryErrors, secondaryErrors, primarySuccesses, secondarySuccesses, failovers, auto, current,
                 primaryActive, secondaryActive)
    }

    constructor (auto: bool)
      ensures State() == Start(auto)
    {
      active, current, this.auto := Primary, Primary, auto;
      primaryErrors, secondaryErrors, primarySuccesses, secondarySuccesses, failovers := 0, 0, 0, 0, 0;
      primaryActive, secondaryActive := false, false;
    }

    /** pd_exchange_port, as far as the port's active flag is concerned. */
    method ExchangePort(port: Port, c: Cycle) returns (outcome: Outcome)
      modifies this
      ensures outcome == c.At(port).outcome && State() == AfterExchange(old(State()), port, outcome)
    {
      outcome := c.At(port).outcome;
      if outcome != Failed {
        if port == Primary {
          primaryActive := true;
        } else {
          secondaryActive := true;
        }
      }
    }

    /** pd_switch_port */
    method SwitchPort(port: Port, c: Cycle) returns (ok: bool)
      modifies this
      ensures ok == (c.At(port).view.present && c.At(port).linkAtSwitch)
      ensures State() == if ok then Switched(old(State()), port) else old(State())
    {
      if !c.At(port).view.present || !c.At(port).linkAtSwitch {
        return false;
      }
      var oldPort := current;
      current := port;
      if oldPort == Primary {
        primaryActive := false;
      } else {
        secondaryActive := false;
      }
      if port == Primary {
        primaryActive := true;
      } else {
        secondaryActive := true;
      }
      return true;
    }

    /** exchange_process_data_redundant */
    method ExchangeRedundant(c: Cycle) returns (ok: bool)
      modifies this
      ensures (State(), ok) == Exchanged(old(State()), c)
    {
      var outcome := ExchangePort(active, c);
      if outcome == Matched {
        if active == Primary {
          primarySuccesses := Up(primarySuccesses);
          primaryErrors := 0;
        } else {
          secondarySuccesses := Up(secondarySuccesses);
          secondaryErrors := 0;
        }
        return true;
      }
      if active == Primary {
        primaryErrors := Up(primaryErrors);
      } else {
        secondaryErrors := Up(secondaryErrors);
      }
      var backup := if active == Primary then Secondary else Primary;
      outcome := ExchangePort(backup, c);
      if outcome == Matched {
        if backup == Primary {
          primarySuccesses := Up(primarySuccesses);
        } else {
          secondarySuccesses := Up(secondarySuccesses);
        }
        return true;
      }
      return false;
    }

    /** handle_failover */
    method HandleFailover(c: Cycle)
      modifies this
      ensures State() == FailedOver(old(State()), c)
    {
      if !auto {
        return;
      }
      var from := active;
      var backup := if from == Primary then Secondary else Primary;
      var errors := if from == Primary then primaryErrors else secondaryErrors;
      if errors >= FAILOVER_THRESHOLD {
        if Healthy(c.At(backup).view) {
          var ok := SwitchPort(backup, c);
          if ok {
            active := backup;
            failovers := Up(failovers);
            if from == Primary {
              primaryErrors := 0;
            } else {
              secondaryErrors := 0;
            }
          }
        }
      }
    }

    /** One turn of the cyclic loop. */
    method RunCycle(c: Cycle) returns (ok: bool)
      modifies this
      ensures State() == Step(old(State()), c) && ok == Exchanged(old(State()), c).1
    {
      ok := ExchangeRedundant(c);
      HandleFailover(c);
    }
  }

  // ---------- Whole runs ----------

  /** Cycles in which the port that was active failed. */
  function ActiveFailures(auto: bool, cycles: seq<Cycle>): nat {
    if cycles == [] then 0
    else
      var before, c := cycles[..|cycles| - 1], cycles[|cycles| - 1];
      ActiveFailures(auto, before) + if c.At(After(auto, before).active).outcome == Matched then 0 else 1
  }

  /** Cycles in which the exchange succeeded on one of the ports. */
  function Successes(auto: bool, cycles: seq<Cycle>): nat {
    if cycles == [] then 0
    else
      var before, c := cycles[..|cycles| - 1], cycles[|cycles| - 1];
      Successes(auto, before) + if Exchanged(After(auto, before), c).1 then 1 else 0
  }

  /** n cycles, of which the active port failed in some and one of the ports succeeded in some. */
  ghost predicate Amortised(s: Redundancy, n: nat, failures: nat, successes: nat) {
    && s.ErrorsOf(Other(s.active)) == 0
    && s.active == s.current
    && 3 * s.failovers + s.ErrorsOf(s.active) <= failures <= n
    && s.primarySuccesses + s.secondarySuccesses == successes <= n
    && (s.failovers > 0 ==> s.ActiveFlag(s.active))
    && (!s.auto ==> s.active == Primary && s.failovers == 0)
  }

  lemma StepKeepsAmortised(s: Redundancy, c: Cycle, n: nat, failures: nat, successes: nat)
    requires Amortised(s, n, failures, successes) && n + 1 < WORD
    ensures Amortised(Step(s, c), n + 1, failures + if c.At(s.active).outcome == Matched then 0 else 1,
                      successes + if Exchanged(s, c).1 then 1 else 0)
    ensures Step(s, c).auto == s.auto
  {
    ExchangeKeepsAmortised(s, c, n, failures, successes);
    hide Amortised, Exchanged, FailedOver;
    FailoverKeepsAmortised(Exchanged(s, c).0, c, n + 1, failures + if c.At(s.active).outcome == Matched then 0 else 1,
                           successes + if Exchanged(s, c).1 then 1 else 0);
  }

  lemma MatchKeepsAmortised(s: Redundancy, c: Cycle, n: nat, failures: nat, successes: nat)
    requires Amortised(s, n, failures, successes) && n + 1 < WORD && c.At(s.active).outcome == Matched
    ensures Amortised(Exchanged(s, c).0, n + 1, failures, successes + 1) && Exchanged(s, c).1
  {
  }

  lemma FailureKeepsAmortised(s: Redundancy, c: Cycle, n: nat, failures: nat, successes: nat)
    requires Amortised(s, n, failures, successes) && n + 1 < WORD && c.At(s.active).outcome != Matched
    ensures var (t, ok) := Exchanged(s, c); Amortised(t, n + 1, failures + 1, successes + if ok then 1 else 0)
  {
    match s.active
    case Primary =>
    case Secondary =>
  }

  lemma ExchangeKeepsPort(s: Redundancy, c: Cycle)
    ensures Exchanged(s, c).0.active == s.active && Exchanged(s, c).0.auto == s.auto
  {
  }

  lemma ExchangeKeepsAmortised(s: Redundancy, c: Cycle, n: nat, failures: nat, successes: nat)
    requires Amortised(s, n, failures, successes) && n + 1 < WORD
    ensures var (t, ok) := Exchanged(s, c);
      t.active == s.active && t.auto == s.auto
      && Amortised(t, n + 1, failures + if c.At(s.active).outcome == Matched then 0 else 1, successes + if ok then 1 else 0)
  {
    hide *;
    ExchangeKeepsPort(s, c);
    if c.At(s.active).outcome == Matched {
      MatchKeepsAmortised(s, c, n, failures, successes);
    } else {
      FailureKeepsAmortised(s, c, n, failures, successes);
    }
  }

  lemma FailoverKeepsAmortised(s: Redundancy, c: Cycle, n: nat, failures: nat, successes: nat)
    requires Amortised(s, n, failures, successes) && n < WORD
    ensures Amortised(FailedOver(s, c), n, failures, successes) && FailedOver(s, c).auto == s.auto
  {
    hide MaySwitchTo;
  }

  /** In every run of fewer than 2^32 cycles: the inactive port's error count is 0, the active port is the image's
      current one, each failover is paid for by three failures of a port while it was active, and the success
      counters add up to the successful cycles. */
  lemma {:induction false} FailoverIsAmortised(auto: bool, cycles: seq<Cycle>)
    requires |cycles| < WORD
    ensures var s := After(auto, cycles);
      && s.ErrorsOf(Other(s.active)) == 0
      && s.active == s.current
      && 3 * s.failovers + s.ErrorsOf(s.active) <= ActiveFailures(auto, cycles) <= |cycles|
      && s.primarySuccesses + s.secondarySuccesses == Successes(auto, cycles)
      && (s.failovers > 0 ==> s.ActiveFlag(s.active))
      && (!auto ==> s.active == Primary && s.failovers == 0)
  {
    RunIsAmortised(auto, cycles);
  }

  lemma {:induction false} RunIsAmortised(auto: bool, cycles: seq<Cycle>)
    requires |cycles| < WORD
    ensures Amortised(After(auto, cycles), |cycles|, ActiveFailures(auto, cycles), Successes(auto, cycles))
    ensures After(auto, cycles).auto == auto
    decreases |cycles|
  {
    if cycles != [] {
      var before := cycles[..|cycles| - 1];
      RunIsAmortised(auto, before);
      StepKeepsAmortised(After(auto, before), cycles[|cycles| - 1], |before|, ActiveFailures(auto, before), Successes(auto, before));
      hide Amortised, Healthy;
    }
  }

  /** If both ports could be switched to in every cycle, no port is kept beyond its third failure in a row. */
  lemma {:induction false} FailoverIsPrompt(cycles: seq<Cycle>)
    requires |cycles| < WORD
    requires forall i, p :: 0 <= i < |cycles| ==> CanTakeOver(cycles[i].At(p))
    ensures var s := After(true, cycles); s.ErrorsOf(s.active) < 3
    decreases |cycles|
  {
    if cycles != [] {
      var before, c := cycles[..|cycles| - 1], cycles[|cycles| - 1];
      FailoverIsPrompt(before);
      RunIsAmortised(true, before);
      var s := After(true, before);
      assert CanTakeOver(c.At(s.active)) && CanTakeOver(c.At(Other(s.active)));
      StepIsPrompt(s, c, |before|, ActiveFailures(true, before), Successes(true, before));
    }
  }

  lemma StepIsPrompt(s: Redundancy, c: Cycle, n: nat, failures: nat, successes: nat)
    requires Amortised(s, n, failures, successes) && n + 1 < WORD && s.auto && s.ErrorsOf(s.active) < FAILOVER_THRESHOLD
    requires MaySwitchTo(c.At(Other(s.active)))
    ensures Step(s, c).ErrorsOf(Step(s, c).active) < 3
  {
    ExchangeKeepsPort(s, c);
    ExchangeKeepsAmortised(s, c, n, failures, successes);
    assert Exchanged(s, c).0.ErrorsOf(s.active) <= FAILOVER_THRESHOLD by {
      hide MaySwitchTo, Amortised, AfterExchange;
    }
    hide MaySwitchTo, Exchanged;
  }

  // ---------- What an observer of the ports sees ----------

  /** The port is healthy, and its link is still up when the switch is tried. */
  predicate CanTakeOver(p: PortCycle) {
    Healthy(p.view) && p.linkAtSwitch
  }

  /** The port that is active, how often it has failed in a row, how often it has changed, the cycles each port served, and
      which of them has answered or taken over since it was last given up. */
  datatype Watch = Watch(active: Port, streak: nat, changes: nat, byPrimary: nat, bySecondary: nat,
                         primaryMarked: bool, secondaryMarked: bool)

  /** The port is tried, as the active one or as the backup, and answers at all. */
  predicate Answers(active: Port, c: Cycle, p: Port) {
    c.At(p).outcome != Failed && (p == active || c.At(active).outcome != Matched)
  }

  function Marked(before: bool, active: Port, c: Cycle, change: bool, p: Port): bool {
    if change then p != active else before || Answers(active, c, p)
  }

  /** The port serves the cycle: as the active one, or as the backup of an active one that fails. */
  predicate Serves(active: Port, c: Cycle, p: Port) {
    c.At(p).outcome == Matched && (p == active || c.At(active).outcome != Matched)
  }

  /** The active port is given up exactly when failover is automatic, it has failed three times or more in a row, and the
      other one can take over. */
  function Watched(auto: bool, cycles: seq<Cycle>): Watch {
    if cycles == [] then Watch(Primary, 0, 0, 0, 0, false, false)
    else
      var w, c := Watched(auto, cycles[..|cycles| - 1]), cycles[|cycles| - 1];
      var a := w.active;
      var b := if a == Primary then Secondary else Primary;
      var streak := if c.At(a).outcome == Matched then 0 else w.streak + 1;
      var change := auto && streak >= 3 && CanTakeOver(c.At(b));
      Watch(if change then b else a, if change then 0 else streak, w.changes + (if change then 1 else 0),
            w.byPrimary + (if Serves(a, c, Primary) then 1 else 0), w.bySecondary + (if Serves(a, c, Secondary) then 1 else 0),
            Marked(w.primaryMarked, a, c, change, Primary), Marked(w.secondaryMarked, a, c, change, Secondary))
  }

  /** The counters agree with what was seen. */
  ghost predicate Reports(s: Redundancy, w: Watch, auto: bool, n: nat) {
    && s.active == w.active && s.current == w.active && s.auto == auto
    && s.ErrorsOf(w.active) == w.streak <= n && s.ErrorsOf(Other(w.active)) == 0
    && s.primaryActive == w.primaryMarked && s.secondaryActive == w.secondaryMarked
    && s.failovers == w.changes <= n && s.primarySuccesses == w.byPrimary <= n && s.secondarySuccesses == w.bySecondary <= n
  }

  /** What the exchange does to the counters. */
  ghost predicate CountsExchange(s: Redundancy, c: Cycle, t: Redundancy) {
    var a := s.active;
    && t.active == a && t.current == s.current && t.auto == s.auto && t.failovers == s.failovers
    && t.ErrorsOf(a) == (if c.At(a).outcome == Matched then 0 else Up(s.ErrorsOf(a)))
    && t.ErrorsOf(Other(a)) == s.ErrorsOf(Other(a))
    && t.primarySuccesses == (if Serves(a, c, Primary) then Up(s.primarySuccesses) else s.primarySuccesses)
    && t.secondarySuccesses == (if Serves(a, c, Secondary) then Up(s.secondarySuccesses) else s.secondarySuccesses)
    && t.primaryActive == (s.primaryActive || Answers(a, c, Primary))
    && t.secondaryActive == (s.secondaryActive || Answers(a, c, Secondary))
  }

  lemma PrimaryCounts(s: Redundancy, c: Cycle)
    requires s.active == Primary
    ensures CountsExchange(s, c, Exchanged(s, c).0)
  {
    hide Up;
  }

  lemma SecondaryCounts(s: Redundancy, c: Cycle)
    requires s.active == Secondary
    ensures CountsExchange(s, c, Exchanged(s, c).0)
  {
    hide Up;
  }

  lemma ExchangeCounts(s: Redundancy, c: Cycle)
    ensures CountsExchange(s, c, Exchanged(s, c).0)
  {
    hide *;
    match s.active
    case Primary => PrimaryCounts(s, c);
    case Secondary => SecondaryCounts(s, c);
  }

  /** What the decision does to them. */
  lemma FailoverCounts(t: Redundancy, c: Cycle)
    ensures var u, a := FailedOver(t, c), t.active;
      var b := Other(a);
      var change := t.auto && t.ErrorsOf(a) >= 3 && CanTakeOver(c.At(b));
      && u.auto == t.auto && u.primarySuccesses == t.primarySuccesses && u.secondarySuccesses == t.secondarySuccesses
      && u.ErrorsOf(b) == t.ErrorsOf(b)
      && if change then
           u.active == b && u.current == b && u.ErrorsOf(a) == 0 && u.failovers == Up(t.failovers) && u.ActiveFlag(b)
           && (t.current == a ==> !u.ActiveFlag(a) && u.primaryActive == (b == Primary) && u.secondaryActive == (b == Secondary))
         else u == t
  {
    PresentAndUp(c.At(Other(t.active)).view);
    hide Up, Healthy;
    match t.active
    case Primary =>
    case Secondary =>
  }

  lemma UpSmall(n: u32, limit: nat)
    requires n <= limit && limit + 1 < WORD
    ensures Up(n) == n + 1
  {
  }

  lemma StepIsWatched(s: Redundancy, w: Watch, auto: bool, c: Cycle, w': Watch, n: nat)
    requires Reports(s, w, auto, n) && n + 1 < WORD
    requires var a := w.active;
      var b := if a == Primary then Secondary else Primary;
      var streak := if c.At(a).outcome == Matched then 0 else w.streak + 1;
      var change := auto && streak >= 3 && CanTakeOver(c.At(b));
      w' == Watch(if change then b else a, if change then 0 else streak, w.changes + (if change then 1 else 0),
                  w.byPrimary + (if Serves(a, c, Primary) then 1 else 0), w.bySecondary + (if Serves(a, c, Secondary) then 1 else 0),
                  Marked(w.primaryMarked, a, c, change, Primary), Marked(w.secondaryMarked, a, c, change, Secondary))
    ensures Reports(Step(s, c), w', auto, n + 1)
  {
    ExchangeCounts(s, c);
    FailoverCounts(Exchanged(s, c).0, c);
    UpSmall(s.ErrorsOf(s.active), n);
    UpSmall(s.failovers, n);
    UpSmall(s.primarySuccesses, n);
    UpSmall(s.secondarySuccesses, n);
    OtherTwice(s.active);
    hide Up, Exchanged, FailedOver, CanTakeOver, Serves, Answers, Other, Redundancy.ErrorsOf;
  }

  lemma OtherTwice(p: Port)
    ensures Other(Other(p)) == p != Other(p) && Other(p) == if p == Primary then Secondary else Primary
  {
  }

  /** In every run of fewer than 2^32 cycles the global state is what the observer has seen. */
  lemma {:induction false} StateIsAsWatched(auto: bool, cycles: seq<Cycle>)
    requires |cycles| < WORD
    ensures Reports(After(auto, cycles), Watched(auto, cycles), auto, |cycles|)
    decreases |cycles|
  {
    if cycles != [] {
      var before := cycles[..|cycles| - 1];
      StateIsAsWatched(auto, before);
      hide Reports, Step, CanTakeOver, Serves, Marked;
      StepIsWatched(After(auto, before), Watched(auto, before), auto, cycles[|cycles| - 1], Watched(auto, cycles), |before|);
    }
  }

  /** The exchange succeeds if and only if one of the ports answers as expected. */
  lemma ExchangeSucceedsIff(s: Redundancy, c: Cycle)
    ensures Exchanged(s, c).1 <==> c.primary.outcome == Matched || c.secondary.outcome == Matched
  {
  }

  /** In every run, whenever the active port changes, the new one was healthy in that cycle: present, with its link up,
      below 10.1 percent of errors and not idle for more than five seconds; it is marked active, and the old one is not. */
  lemma ChangesAreToHealthyPorts(auto: bool, before: seq<Cycle>, c: Cycle)
    requires |before| + 1 < WORD && After(auto, before + [c]).active != After(auto, before).active
    ensures var s, p := After(auto, before + [c]), After(auto, before + [c]).active;
      var v := c.At(p).view;
      && auto && p == Other(After(auto, before).active) && s.ActiveFlag(p) && !s.ActiveFlag(Other(p))
      && Healthy(v) && v.present && v.linkUp && c.At(p).linkAtSwitch
      && (0 < v.sent + v.received < DOUBLE_WORD && 1000 * v.errors < DOUBLE_WORD ==>
            1000 * v.errors < 101 * (v.sent + v.received) && v.idleNs <= 5_000_000_000)
  {
    assert (before + [c])[..|before|] == before;
    StateIsAsWatched(auto, before);
    var s := After(auto, before);
    ExchangeCounts(s, c);
    FailoverCounts(Exchanged(s, c).0, c);
    OtherTwice(s.active);
    var v := c.At(After(auto, before + [c]).active).view;
    hide Exchanged, FailedOver, Watched, After, Other, Redundancy.ErrorsOf, Redundancy.ActiveFlag;
    if 0 < v.sent + v.received < DOUBLE_WORD && 1000 * v.errors < DOUBLE_WORD {
      HealthyIff(v);
    }
    PresentAndUp(v);
    hide Healthy;
  }

  lemma PresentAndUp(v: View)
    ensures Healthy(v) ==> v.present && v.linkUp
  {
  }
}
