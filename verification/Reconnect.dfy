/** How long an account waits before it connects again, and when it gives up. */
module Reconnect {
  import opened Basics

  datatype Reason = OtherClient | BadPassword | BadUserName | InvalidHost | Manual | ConnectionReset | Unknown

  /** The numbers behind the reasons; those above Manual are losses of the connection. */
  function Code(r: Reason): int {
    match r
    case OtherClient => -4
    case BadPassword => -3
    case BadUserName => -2
    case InvalidHost => -1
    case Manual => 0
    case ConnectionReset => 1
    case Unknown => 99
  }

  /** The wait in milliseconds armed at the n-th try, if any. */
  function Delay(n: nat): Option<nat> {
    if n < 3 then Some(10000) else if n <= 10 then Some((2 * (n - 2) - 1) * 60000) else None
  }

  function Wait(n: nat): nat {
    if Delay(n).Some? then Delay(n).value else 0
  }

  /** armed and counted sum up the waits and the counted reports since the counter was last set to zero. */
  datatype State = State(connectionTry: nat, timer: Option<nat>, waitsForNetwork: bool, counted: nat, armed: nat)

  datatype Event =
    | Disconnected(reason: Reason, reconnect: bool, network: bool)
    | TimerFired
    | SuppressionStops(connected: bool)
    | NetworkLost(reconnect: bool)

  const NEW_ACCOUNT := State(0, None, false, 0, 0)

  function Arm(s: State, wait: Option<nat>): State {
    if wait == None then s else s.(timer := wait, armed := s.armed + wait.value)
  }

  function Step(s: State, e: Event): State {
    match e
    case Disconnected(reason, reconnect, network) =>
      if reason == BadPassword then s.(timer := Some(0))
      else if reconnect && Code(reason) > Code(Manual) then
        if reason == ConnectionReset && !network then s.(waitsForNetwork := true, timer := None)
        else if s.timer.Some? then s
        else
          var n := (s.connectionTry + 1) % UINT_RANGE;
          Arm(s.(connectionTry := n, counted := s.counted + 1), Delay(n))
      else s.(waitsForNetwork := false, timer := None)
    case TimerFired => s.(timer := None)
    case SuppressionStops(connected) => if connected then s.(connectionTry := 0, counted := 0, armed := 0) else s
    case NetworkLost(reconnect) => if reconnect then s.(waitsForNetwork := true) else s
  }

  function Run(s: State, es: seq<Event>): State
    decreases es
  {
    if es == [] then s else Run(Step(s, es[0]), es[1..])
  }

  /** The sum of the waits of n counted reports, with a counter that wraps. */
  function Total(n: nat): nat {
    if n == 0 then 0
    else Total(n - 1) + Wait(n % UINT_RANGE)
  }

  /** 20 seconds for the first two tries, then 1 + 3 + 5 + … minutes up to the tenth. */
  function Closed(n: nat): nat {
    if n <= 2 then 10000 * n else 20000 + 60000 * (if n <= 10 then (n - 2) * (n - 2) else 64)
  }

  const LONGEST := 3860000

  lemma {:induction false} TotalIsClosed(n: nat)
    requires n < UINT_RANGE
    ensures Total(n) == Closed(n) <= LONGEST
  {
    if n > 0 {
      TotalIsClosed(n - 1);
      assert n % UINT_RANGE == n;
      ClosedStep(n);
      hide Closed;
    }
  }

  lemma ClosedStep(n: nat)
    requires n > 0
    ensures Closed(n) == Closed(n - 1) + Wait(n)
    ensures Closed(n) <= LONGEST
  {
    if 3 <= n <= 10 {
      var k := n - 2;
      assert k * k == (k - 1) * (k - 1) + 2 * k - 1;
      assert k * k <= 8 * k;
    }
  }

  lemma {:induction false} TotalGrows(n: nat)
    requires n >= UINT_RANGE
    ensures Total(n) > LONGEST
  {
    if n == UINT_RANGE {
      TotalIsClosed(n - 1);
    } else {
      TotalGrows(n - 1);
    }
  }

  ghost predicate Ledger(s: State) {
    s.connectionTry == s.counted % UINT_RANGE && s.armed == Total(s.counted)
  }

  lemma StepKeepsLedger(s: State, e: Event)
    requires Ledger(s)
    ensures Ledger(Step(s, e))
  {
    assert (s.counted % UINT_RANGE + 1) % UINT_RANGE == (s.counted + 1) % UINT_RANGE;
  }

  lemma {:induction false} RunKeepsLedger(s: State, es: seq<Event>)
    requires Ledger(s)
    ensures Ledger(Run(s, es))
    decreases es
  {
    if es != [] {
      StepKeepsLedger(s, es[0]);
      RunKeepsLedger(Step(s, es[0]), es[1..]);
    }
  }

  /**
   * In any run: since the counter was last zeroed, the waits armed depend on the counter alone and never pass
   * 64 minutes and 20 seconds, exactly as long as the 32-bit counter has not wrapped.
   */
  lemma WaitsAreBounded(es: seq<Event>)
    ensures var s := Run(NEW_ACCOUNT, es);
            && (s.counted < UINT_RANGE ==> s.armed == Closed(s.connectionTry))
            && (s.armed <= LONGEST <==> s.counted < UINT_RANGE)
  {
    assert Ledger(NEW_ACCOUNT);
    RunKeepsLedger(NEW_ACCOUNT, es);
    hide *;
    LedgerIsBounded(Run(NEW_ACCOUNT, es));
  }

  lemma LedgerIsBounded(s: State)
    requires Ledger(s)
    ensures s.counted < UINT_RANGE ==> s.armed == Closed(s.connectionTry)
    ensures s.armed <= LONGEST <==> s.counted < UINT_RANGE
  {
    if s.counted < UINT_RANGE {
      TotalIsClosed(s.counted);
    } else {
      TotalGrows(s.counted);
    }
    hide Total, Closed;
  }

  /** While a wait is pending, further reports of a loss change nothing, unless the network itself is gone. */
  lemma PendingAbsorbs(s: State, reason: Reason, network: bool)
    requires s.timer.Some? && Code(reason) > 0
    ensures Step(s, Disconnected(reason, true, network)) == s
            <==> network || reason == Unknown
  {
  }

  /** From the eleventh counted report on nothing is armed. */
  lemma GivesUp(s: State, reason: Reason, network: bool)
    requires s.timer == None && 10 <= s.connectionTry < UINT_RANGE - 1 && Code(reason) > 0
    ensures Step(s, Disconnected(reason, true, network)).timer == None
    ensures Step(s, Disconnected(reason, true, network)).armed == s.armed
  {
  }

  /** The connection was lost, and not given up or refused: the reports that lead to another try. */
  predicate Lost(reason: Reason) {
    reason == ConnectionReset || reason == Reason.Unknown
  }

  /**
    What a report does. A wait is pending afterwards exactly after a bad password, which is retried at
    once, and, if reconnecting is wanted, after a loss with the network there: the wait that was pending,
    or a new one unless the tries are used up, of 10 seconds twice and then of 1, 3, 5 … minutes. A try is
    counted exactly when no wait was pending then.
   */
  lemma AfterReport(s: State, reason: Reason, reconnect: bool, network: bool)
    requires s.connectionTry < UINT_RANGE
    ensures var r := Step(s, Disconnected(reason, reconnect, network));
            var tries := reconnect && Lost(reason) && (reason == ConnectionReset ==> network);
            && (r.timer != None <==>
                  || reason == BadPassword
                  || (tries && (s.timer != None || s.connectionTry < 10 || s.connectionTry == UINT_RANGE - 1)))
            && (reason == BadPassword ==> r.timer == Some(0))
            && (tries && s.timer != None ==> r.timer == s.timer)
            && (r.connectionTry != s.connectionTry <==> tries && s.timer == None)
            && (r.connectionTry != s.connectionTry ==> r.connectionTry == (s.connectionTry + 1) % UINT_RANGE)
            && (r.connectionTry != s.connectionTry && r.timer != None ==>
                  var wait := if r.connectionTry < 3 then 10000 else (2 * r.connectionTry - 5) * 60000;
                  r.timer == Some(wait) && r.armed == s.armed + wait)
            && (r.armed != s.armed ==> r.connectionTry != s.connectionTry)
  {
  }

  /**
    Nothing else starts a wait or counts a try: the end of the wait clears the one, and the end of the
    suppression the other, if the account is connected then.
   */
  lemma AfterOthers(s: State, e: Event)
    requires !e.Disconnected?
    ensures Step(s, e).timer == if e == TimerFired then None else s.timer
    ensures Step(s, e).connectionTry == if e == SuppressionStops(true) then 0 else s.connectionTry
  {
  }

  /** The events after which the account connects again when the network comes back. */
  predicate AsksForNetwork(e: Event) {
    e == NetworkLost(true) || e == Disconnected(ConnectionReset, true, false)
  }

  /** Any other report ends that: a disconnection by the user's or the server's will, or one not to be repaired. */
  predicate ForgetsNetwork(e: Event) {
    e.Disconnected? && e.reason != BadPassword && !(e.reconnect && Lost(e.reason))
  }

  /** Over any run: the account waits for the network exactly if it last had reason to, and none to forget it. */
  lemma {:induction false} WaitsForNetwork(s: State, es: seq<Event>)
    ensures Run(s, es).waitsForNetwork <==>
              || (s.waitsForNetwork && forall j | 0 <= j < |es| :: !ForgetsNetwork(es[j]))
              || exists i :: 0 <= i < |es| && AsksForNetwork(es[i]) && forall j | i < j < |es| :: !ForgetsNetwork(es[j])
    decreases es
  {
    if es != [] {
      var t, rest := Step(s, es[0]), es[1..];
      assert t.waitsForNetwork <==> AsksForNetwork(es[0]) || (s.waitsForNetwork && !ForgetsNetwork(es[0]));
      WaitsForNetwork(t, rest);
      LaterAsks(es);
      assert forall j | 0 < j < |es| :: es[j] == rest[j - 1];
      hide Step, AsksForNetwork, ForgetsNetwork, Run;
      assert Run(s, es) == Run(t, rest);
    }
  }

  lemma LaterAsks(es: seq<Event>)
    requires es != []
    ensures (exists i :: 0 <= i < |es| && AsksForNetwork(es[i]) && forall j | i < j < |es| :: !ForgetsNetwork(es[j]))
            <==>
              || (AsksForNetwork(es[0]) && forall j | 0 <= j < |es[1..]| :: !ForgetsNetwork(es[1..][j]))
              || (exists i :: 0 <= i < |es[1..]| && AsksForNetwork(es[1..][i])
                    && forall j | i < j < |es[1..]| :: !ForgetsNetwork(es[1..][j]))
  {
    var rest := es[1..];
    assert forall j | 0 <= j < |rest| :: rest[j] == es[j + 1];
    assert forall j | 0 < j < |es| :: es[j] == rest[j - 1];
    hide AsksForNetwork, ForgetsNetwork;
    if i :| 0 <= i < |es| && AsksForNetwork(es[i]) && (forall j | i < j < |es| :: !ForgetsNetwork(es[j])) {
      if i > 0 {
        assert AsksForNetwork(rest[i - 1]);
      }
    }
    if i :| 0 <= i < |rest| && AsksForNetwork(rest[i]) && (forall j | i < j < |rest| :: !ForgetsNetwork(rest[j])) {
      assert AsksForNetwork(es[i + 1]);
    }
  }

  class Account {
    var connectionTry: nat
    var timer: Option<nat>
    var reconnectOnNetworkIsOnline: bool
    ghost var counted: nat
    ghost var armed: nat

    ghost function Snapshot(): State
      reads this
    {
      State(connectionTry, timer, reconnectOnNetworkIsOnline, counted, armed)
    }

    constructor ()
      ensures Snapshot() == NEW_ACCOUNT
    {
      connectionTry, timer, reconnectOnNetworkIsOnline := 0, None, false;
      counted, armed := 0, 0;
    }

    method StartTimer(wait: nat)
      modifies this`timer, this`armed
      ensures timer == Some(wait) && armed == old(armed) + wait
    {
      timer := Some(wait);
      armed := armed + wait;
    }

    /** Account::disconnected; the settings and the state of the network are asked for at that moment. */
    method DoDisconnected(reason: Reason, reconnectOnDisconnect: bool, networkAvailable: bool)
      modifies this
      ensures Snapshot() == Step(old(Snapshot()), Disconnected(reason, reconnectOnDisconnect, networkAvailable))
    {
      if reason == BadPassword {
        StartTimer(0);
      } else if reconnectOnDisconnect && Code(reason) > Code(Manual) {
        if reason == ConnectionReset && !networkAvailable {
          reconnectOnNetworkIsOnline := true;
          timer := None;
        } else {
          if timer != None {
            return;
          }
          connectionTry := (connectionTry + 1) % UINT_RANGE;
          counted := counted + 1;
          if connectionTry < 3 {
            StartTimer(10000);
          } else if connectionTry <= 10 {
            StartTimer((2 * (connectionTry - 2) - 1) * 60000);
          }
        }
      } else {
        reconnectOnNetworkIsOnline := false;
        timer := None;
      }
    }

    method SlotStopSuppression(connected: bool)
      modifies this
      ensures Snapshot() == Step(old(Snapshot()), SuppressionStops(connected))
    {
      if connected {
        connectionTry := 0;
        counted, armed := 0, 0;
      }
    }
  }
}
