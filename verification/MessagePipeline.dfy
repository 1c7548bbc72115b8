/** Several message events in flight through several sessions, in any interleaving. */
module MessagePipeline {
  import opened Basics
  import opened Lists
  import opened MessageHandlers
  import opened SessionLifetime

  /** An event, the session its task took a reference on, and the session its message names now. */
  datatype Flight = Flight(walk: Walk, origin: nat, manager: Option<nat>)

  /** A session and the number of ref() less deref() calls on it that no task made. */
  datatype Seat = Seat(life: Lifetime, outside: int)

  datatype System = System(seats: seq<Seat>, flights: seq<Flight>)

  datatype Command =
    | Post(session: nat, chain: seq<MessageHandler>)
    | Start(event: nat)
    | Accepted(event: nat)
    | Destroyed(event: nat)
    | SetManager(event: nat, manager: Option<nat>)
    | Session(session: nat, op: Op)

  ghost function Weight(op: Op): int {
    match op
    case Ref => 1
    case Deref => -1
    case _ => 0
  }

  ghost function OnSession(y: System, s: nat, op: Op, outside: int): System {
    if s < |y.seats| then
      y.(seats := y.seats[s := Seat(Apply(y.seats[s].life, op), y.seats[s].outside + outside)])
    else y
  }

  /** Event i has walked to w; when that ended it, its task lets go of the session its message names. */
  ghost function Walked(y: System, i: nat, w: Walk): System
    requires i < |y.flights|
  {
    var f := y.flights[i];
    var q := y.(flights := y.flights[i := f.(walk := w)]);
    if f.walk.alive && !w.alive && f.manager.Some? then OnSession(q, f.manager.value, Deref, 0) else q
  }

  ghost function Step(y: System, c: Command): System {
    match c
    case Post(s, chain) =>
      if s < |y.seats| then
        OnSession(y.(flights := y.flights + [Flight(Walk(chain, [], [], true, 0, false), s, Some(s))]), s, Ref, 0)
      else y
    case Start(i) =>
      if i < |y.flights| && Queued(y.flights[i].walk) then Walked(y, i, Deliver(y.flights[i].walk, 0)) else y
    case Accepted(i) =>
      if i < |y.flights| && y.flights[i].walk.alive then Walked(y, i, Accept(y.flights[i].walk)) else y
    case Destroyed(i) =>
      if i < |y.flights| && y.flights[i].walk.alive then Walked(y, i, Finish(y.flights[i].walk)) else y
    case SetManager(i, m) =>
      if i < |y.flights| && y.flights[i].walk.alive then y.(flights := y.flights[i := y.flights[i].(manager := m)])
      else y
    case Session(s, op) => OnSession(y, s, op, Weight(op))
  }

  ghost function Run(y: System, cs: seq<Command>): System
    decreases cs
  {
    if cs == [] then y else Run(Step(y, cs[0]), cs[1..])
  }

  /** Messages are posted into chains that end in their one terminator. */
  ghost predicate WellPosted(cs: seq<Command>) {
    forall c | c in cs && c.Post? :: Terminated(c.chain)
  }

  // ---------- counting ----------

  ghost function Bit(b: bool): nat {
    if b then 1 else 0
  }

  ghost function TookFrom(f: Flight, s: nat): bool {
    f.origin == s
  }

  ghost function GaveTo(f: Flight, s: nat): bool {
    !f.walk.alive && f.manager == Some(s)
  }

  ghost function Taken(fs: seq<Flight>, s: nat): nat {
    if fs == [] then 0 else Bit(TookFrom(fs[0], s)) + Taken(fs[1..], s)
  }

  ghost function Given(fs: seq<Flight>, s: nat): nat {
    if fs == [] then 0 else Bit(GaveTo(fs[0], s)) + Given(fs[1..], s)
  }

  /** Unfinished tasks of a session. */
  ghost function Unfinished(fs: seq<Flight>, s: nat): nat {
    if fs == [] then 0 else Bit(fs[0].walk.alive && fs[0].origin == s) + Unfinished(fs[1..], s)
  }

  lemma {:induction false} OneMore(fs: seq<Flight>, f: Flight, s: nat)
    ensures Taken(fs + [f], s) == Taken(fs, s) + Bit(TookFrom(f, s))
    ensures Given(fs + [f], s) == Given(fs, s) + Bit(GaveTo(f, s))
  {
    if fs == [] {
      assert fs + [f] == [f] && [f][1..] == [];
    } else {
      assert (fs + [f])[1..] == fs[1..] + [f];
      OneMore(fs[1..], f, s);
    }
  }

  lemma {:induction false} OneChanged(fs: seq<Flight>, i: nat, f: Flight, s: nat)
    requires i < |fs| && f.origin == fs[i].origin
    ensures Taken(fs[i := f], s) == Taken(fs, s)
    ensures Given(fs[i := f], s) == Given(fs, s) - Bit(GaveTo(fs[i], s)) + Bit(GaveTo(f, s))
  {
    if i == 0 {
      assert fs[i := f][1..] == fs[1..];
    } else {
      assert fs[i := f][1..] == fs[1..][i - 1 := f];
      OneChanged(fs[1..], i - 1, f, s);
    }
  }

  // ---------- every run ----------

  ghost predicate Balanced(y: System, s: nat)
    requires s < |y.seats|
  {
    y.seats[s].life.refcount == (y.seats[s].outside + Taken(y.flights, s) - Given(y.flights, s)) % UINT_RANGE
  }

  ghost predicate Sound(y: System) {
    && (forall f | f in y.flights :: WalkOk(f.walk))
    && (forall s | 0 <= s < |y.seats| :: Balanced(y, s))
  }

  /** The count moves with the operations, wrap-around included. */
  lemma ApplyCounts(life: Lifetime, op: Op, n: int)
    requires life.refcount == n % UINT_RANGE
    ensures Apply(life, op).refcount == (n + Weight(op)) % UINT_RANGE
  {
  }

  lemma WalkedSound(y: System, i: nat, w: Walk)
    requires Sound(y) && i < |y.flights| && y.flights[i].walk.alive && WalkOk(w)
    ensures Sound(Walked(y, i, w))
  {
    var q := Walked(y, i, w);
    var f := y.flights[i].(walk := w);
    assert q.flights == y.flights[i := f];
    forall s | 0 <= s < |y.seats| ensures Balanced(q, s) {
      OneChanged(y.flights, i, f, s);
      assert Balanced(y, s);
    }
  }

  lemma StepSound(y: System, c: Command)
    requires Sound(y) && WellPosted([c])
    ensures Sound(Step(y, c))
  {
    match c
    case Post(s, chain) =>
      if s < |y.seats| {
        assert c in [c];
        PostSound(y, s, chain);
      }
    case Start(i) =>
      if i < |y.flights| && Queued(y.flights[i].walk) {
        StartOk(y.flights[i].walk);
        WalkedSound(y, i, Deliver(y.flights[i].walk, 0));
      }
    case Accepted(i) =>
      if i < |y.flights| && y.flights[i].walk.alive {
        AcceptOk(y.flights[i].walk);
        WalkedSound(y, i, Accept(y.flights[i].walk));
      }
    case Destroyed(i) =>
      if i < |y.flights| && y.flights[i].walk.alive {
        WalkedSound(y, i, Finish(y.flights[i].walk));
      }
    case SetManager(i, m) =>
      if i < |y.flights| && y.flights[i].walk.alive {
        SetManagerSound(y, i, m);
      }
    case Session(s, op) =>
      SessionSound(y, s, op);
  }

  lemma SessionSound(y: System, s: nat, op: Op)
    requires Sound(y)
    ensures Sound(OnSession(y, s, op, Weight(op)))
  {
    forall r | 0 <= r < |y.seats| ensures Balanced(OnSession(y, s, op, Weight(op)), r) {
      assert Balanced(y, r);
      ApplyCounts(y.seats[r].life, op, y.seats[r].outside + Taken(y.flights, r) - Given(y.flights, r));
      hide Taken, Given, Apply, Weight;
    }
  }

  lemma PostSound(y: System, s: nat, chain: seq<MessageHandler>)
    requires Sound(y) && s < |y.seats| && Terminated(chain)
    ensures Sound(Step(y, Post(s, chain)))
  {
    var q := Step(y, Post(s, chain));
    var f := Flight(Walk(chain, [], [], true, 0, false), s, Some(s));
    assert q.flights == y.flights + [f];
    forall r | 0 <= r < |y.seats| ensures Balanced(q, r) {
      OneMore(y.flights, f, r);
      assert Balanced(y, r);
      ApplyCounts(y.seats[r].life, Ref, y.seats[r].outside + Taken(y.flights, r) - Given(y.flights, r));
      hide Taken, Given, Apply;
    }
  }

  lemma SetManagerSound(y: System, i: nat, m: Option<nat>)
    requires Sound(y) && i < |y.flights| && y.flights[i].walk.alive
    ensures Sound(y.(flights := y.flights[i := y.flights[i].(manager := m)]))
  {
    var f := y.flights[i].(manager := m);
    var q := y.(flights := y.flights[i := f]);
    forall s | 0 <= s < |y.seats| ensures Balanced(q, s) {
      OneChanged(y.flights, i, f, s);
      assert Balanced(y, s);
    }
  }

  /** In every interleaving, every event is with at most one handler and every count is accounted for. */
  lemma {:induction false} RunSound(y: System, cs: seq<Command>)
    requires Sound(y) && WellPosted(cs)
    ensures Sound(Run(y, cs))
    decreases cs
  {
    if cs != [] {
      assert cs[0] in cs && forall c | c in cs[1..] :: c in cs;
      StepSound(y, cs[0]);
      RunSound(Step(y, cs[0]), cs[1..]);
    }
  }

  /** How an event may look later: the same chain, further along it, and nothing once it is over. */
  ghost predicate Later(v: Walk, w: Walk) {
    && w.chain == v.chain && v.visited <= w.visited
    && (!v.alive ==> w == v)
  }

  ghost function WalkAfter(w: Walk, c: Command, i: nat): Walk {
    if c == Start(i) && Queued(w) then Deliver(w, 0)
    else if c == Accepted(i) && w.alive then Accept(w)
    else if c == Destroyed(i) && w.alive then Finish(w)
    else w
  }

  lemma StepWalks(y: System, c: Command, i: nat)
    requires i < |y.flights|
    ensures i < |Step(y, c).flights| && y.flights[i].origin == Step(y, c).flights[i].origin
    ensures Step(y, c).flights[i].walk == WalkAfter(y.flights[i].walk, c, i)
  {
    hide Accept, Deliver, Finish, Apply;
  }

  /** A step takes an event on; starting it, or accepting it in flight, takes it strictly on. */
  lemma StepMovesOn(y: System, c: Command, i: nat)
    requires Sound(y) && i < |y.flights|
    ensures i < |Step(y, c).flights|
    ensures var v, w := y.flights[i].walk, Step(y, c).flights[i].walk;
            && Later(v, w)
            && ((c == Start(i) && Queued(v)) || (c == Accepted(i) && v.alive && !Queued(v)) ==> v.visited < w.visited)
  {
    StepWalks(y, c, i);
    var v := y.flights[i].walk;
    if v.alive {
      AcceptOk(v);
      if Queued(v) {
        StartOk(v);
      }
    }
    hide WalkOk, Accept, Deliver, Balanced, Step;
  }

  /** An event's visits only ever grow along its chain, and an event that is done stays exactly as it is. */
  lemma {:induction false} RunMovesOn(y: System, cs: seq<Command>, i: nat)
    requires Sound(y) && WellPosted(cs) && i < |y.flights|
    ensures i < |Run(y, cs).flights| && Later(y.flights[i].walk, Run(y, cs).flights[i].walk)
    decreases cs
  {
    if cs != [] {
      assert cs[0] in cs && forall c | c in cs[1..] :: c in cs;
      StepSound(y, cs[0]);
      StepMovesOn(y, cs[0], i);
      RunMovesOn(Step(y, cs[0]), cs[1..], i);
    }
  }

  // ---------- where an event is ----------

  /** How many of the commands accept event i. */
  ghost function Acceptances(cs: seq<Command>, i: nat): nat {
    if cs == [] then 0 else (if cs[0] == Accepted(i) then 1 else 0) + Acceptances(cs[1..], i)
  }

  /** One step of that: an acceptance takes a waiting event to the next handler that decides. */
  lemma StepReaches(y: System, c: Command, i: nat, k: nat)
    requires Sound(y) && WellPosted([c]) && c != Destroyed(i)
    requires i < |y.flights| && At(y.flights[i].walk, k)
    ensures var chain := y.flights[i].walk.chain;
            && i < |Step(y, c).flights| && Step(y, c).flights[i].walk.chain == chain && Sound(Step(y, c))
            && At(Step(y, c).flights[i].walk, After(chain, k, if c == Accepted(i) then 1 else 0))
  {
    StepSound(y, c);
    StepWalks(y, c, i);
    var w := y.flights[i].walk;
    assert WalkOk(w);
    if c == Accepted(i) && w.alive {
      AcceptReaches(w, k);
      assert After(w.chain, FirstDecider(w.chain, k + 1), 0) == FirstDecider(w.chain, k + 1);
    }
    hide Accept, Deliver, Balanced, Step, Sound, WellPosted;
  }

  lemma AfterMore(chain: seq<MessageHandler>, k: nat, n: nat)
    requires k <= |chain|
    ensures After(chain, k, n + 1) == After(chain, After(chain, k, 1), n)
    ensures After(chain, k, 0) == k
  {
    assert n + 1 - 1 == n;
    assert k < |chain| ==> After(chain, k, 1) == FirstDecider(chain, k + 1);
  }

  /** In every interleaving, an event waiting at handler k is further on by as many deciding handlers as accepted it. */
  lemma {:induction false} RunReaches(y: System, cs: seq<Command>, i: nat, k: nat)
    requires Sound(y) && WellPosted(cs) && Destroyed(i) !in cs
    requires i < |y.flights| && At(y.flights[i].walk, k)
    ensures var chain := y.flights[i].walk.chain;
            && i < |Run(y, cs).flights| && Run(y, cs).flights[i].walk.chain == chain
            && At(Run(y, cs).flights[i].walk, After(chain, k, Acceptances(cs, i)))
    decreases cs
  {
    hide *;
    RunBy(y, cs);
    AtEnd(y.flights[i].walk, k);
    if cs == [] {
      AfterMore(y.flights[i].walk.chain, k, 0);
      NoAcceptance(cs, i);
    } else {
      var c, rest, chain := cs[0], cs[1..], y.flights[i].walk.chain;
      OneByOne(cs, i);
      StepReaches(y, c, i, k);
      var next := After(chain, k, if c == Accepted(i) then 1 else 0);
      RunReaches(Step(y, c), rest, i, next);
      AfterMore(chain, k, Acceptances(rest, i));
    }
  }

  lemma AtEnd(w: Walk, k: nat)
    requires At(w, k)
    ensures k <= |w.chain|
  {
  }

  lemma NoAcceptance(cs: seq<Command>, i: nat)
    requires cs == []
    ensures Acceptances(cs, i) == 0
  {
  }

  lemma RunBy(y: System, cs: seq<Command>)
    ensures Run(y, cs) == if cs == [] then y else Run(Step(y, cs[0]), cs[1..])
  {
  }

  lemma OneByOne(cs: seq<Command>, i: nat)
    requires cs != [] && WellPosted(cs) && Destroyed(i) !in cs
    ensures WellPosted([cs[0]]) && WellPosted(cs[1..]) && cs[0] != Destroyed(i) && Destroyed(i) !in cs[1..]
    ensures Acceptances(cs, i) == Acceptances(cs[1..], i) + (if cs[0] == Accepted(i) then 1 else 0)
  {
    assert cs[0] in cs && forall c | c in cs[1..] :: c in cs;
  }

  /** Before it is started an event stays where it is, accepted or not. */
  lemma {:induction false} RunWaits(y: System, cs: seq<Command>, i: nat)
    requires Sound(y) && WellPosted(cs) && Destroyed(i) !in cs && Start(i) !in cs
    requires i < |y.flights| && Queued(y.flights[i].walk)
    ensures i < |Run(y, cs).flights| && Run(y, cs).flights[i].walk == y.flights[i].walk && Sound(Run(y, cs))
    decreases cs
  {
    if cs != [] {
      var c, rest := cs[0], cs[1..];
      assert cs == [c] + rest;
      StepSound(y, c);
      StepWalks(y, c, i);
      AcceptOk(y.flights[i].walk);
      RunWaits(Step(y, c), rest, i);
      hide Accept, Deliver, Balanced, Step;
    }
  }

  lemma {:induction false} RunInTwo(y: System, before: seq<Command>, after: seq<Command>)
    ensures Run(y, before + after) == Run(Run(y, before), after)
    decreases before
  {
    if before == [] {
      assert before + after == after;
    } else {
      assert (before + after)[1..] == before[1..] + after;
      RunInTwo(Step(y, before[0]), before[1..], after);
      hide Step;
    }
  }

  /**
    In every interleaving, whatever happens to other events: a queued event that is started, and not
    destroyed, waits at the first handler that decides in its own time, and with each acceptance after that
    at the next such one; it has been with every handler so far, and when there is no such handler left, it
    is over, with done emitted once.
   */
  lemma WhereAnEventIs(y: System, before: seq<Command>, after: seq<Command>, i: nat)
    requires Sound(y) && WellPosted(before + [Start(i)] + after) && Destroyed(i) !in before + after
    requires i < |y.flights| && Queued(y.flights[i].walk) && Start(i) !in before
    ensures var chain, q := y.flights[i].walk.chain, Run(y, before + [Start(i)] + after);
            && i < |q.flights| && q.flights[i].walk.chain == chain
            && At(q.flights[i].walk, After(chain, FirstDecider(chain, 0), Acceptances(after, i)))
  {
    hide *;
    Parts(before, Start(i), after);
    RunWaits(y, before, i);
    var q := Run(y, before);
    StartReaches(q, i);
    RunReaches(Step(q, Start(i)), after, i, FirstDecider(y.flights[i].walk.chain, 0));
    assert before + [Start(i)] + after == before + ([Start(i)] + after);
    RunInTwo(y, before, [Start(i)] + after);
    assert ([Start(i)] + after)[1..] == after;
    RunBy(q, [Start(i)] + after);
  }

  lemma Parts(before: seq<Command>, c: Command, after: seq<Command>)
    requires WellPosted(before + [c] + after)
    ensures WellPosted(before) && WellPosted(after)
  {
    assert forall x | x in before || x in after :: x in before + [c] + after;
  }

  lemma StartReaches(y: System, i: nat)
    requires Sound(y) && i < |y.flights| && Queued(y.flights[i].walk)
    ensures var chain, q := y.flights[i].walk.chain, Step(y, Start(i));
            && Sound(q) && i < |q.flights| && q.flights[i].walk.chain == chain
            && At(q.flights[i].walk, FirstDecider(chain, 0))
  {
    StepSound(y, Start(i));
    StepWalks(y, Start(i), i);
    DeliverReaches(y.flights[i].walk, 0);
    hide Deliver, Balanced, Step;
  }

  // ---------- sessions whose messages keep their manager ----------

  ghost predicate Faithful(y: System) {
    forall f | f in y.flights :: f.manager == Some(f.origin)
  }

  ghost predicate KeepsManagers(cs: seq<Command>) {
    forall i | 0 <= i < |cs| :: !cs[i].SetManager?
  }

  lemma {:induction false} RunFaithful(y: System, cs: seq<Command>)
    requires Faithful(y) && KeepsManagers(cs)
    ensures Faithful(Run(y, cs))
    decreases cs
  {
    if cs != [] {
      StepFaithful(y, cs[0]);
      RunFaithful(Step(y, cs[0]), cs[1..]);
    }
  }

  lemma StepFaithful(y: System, c: Command)
    requires Faithful(y) && !c.SetManager?
    ensures Faithful(Step(y, c))
  {
    hide Accept, Deliver, Finish;
  }

  lemma {:induction false} TakenButNotGiven(fs: seq<Flight>, s: nat)
    requires forall f | f in fs :: f.manager == Some(f.origin)
    ensures Taken(fs, s) == Given(fs, s) + Unfinished(fs, s)
  {
    if fs != [] {
      TakenButNotGiven(fs[1..], s);
    }
  }

  /** From an idle start, whatever happens: the count is the outside references plus the unfinished tasks. */
  lemma RefcountIsExact(seats: seq<Seat>, cs: seq<Command>, s: nat)
    requires forall t | t in seats :: t.life.refcount == t.outside % UINT_RANGE
    requires WellPosted(cs) && KeepsManagers(cs) && s < |Run(System(seats, []), cs).seats|
    ensures var y := Run(System(seats, []), cs);
            y.seats[s].life.refcount == (y.seats[s].outside + Unfinished(y.flights, s)) % UINT_RANGE
  {
    var start := System(seats, []);
    assert forall r | 0 <= r < |seats| :: seats[r] in seats && Balanced(start, r);
    RunSound(start, cs);
    RunFaithful(start, cs);
    var y := Run(start, cs);
    assert Balanced(y, s);
    TakenButNotGiven(y.flights, s);
  }

  /** Whether the session is referenced from outside or has an unfinished task. */
  ghost predicate HasWork(y: System, s: nat)
    requires s < |y.seats|
  {
    y.seats[s].outside != 0 || Unfinished(y.flights, s) != 0
  }

  /** A step schedules a session that has work exactly when its last member, or the user, is destroyed. */
  lemma ScheduledWithWork(y: System, c: Command, s: nat)
    requires Sound(y) && Faithful(y) && WellPosted([c]) && !c.SetManager? && s < |y.seats|
    requires !y.seats[s].life.scheduled && HasWork(Step(y, c), s)
    requires 0 <= Step(y, c).seats[s].outside
    requires Step(y, c).seats[s].outside + Unfinished(Step(y, c).flights, s) < UINT_RANGE
    ensures Step(y, c).seats[s].life.scheduled <==> c.Session? && c.session == s && Bereaves(c.op)
  {
    CountIsExact(y, c, s);
    StepTouches(y, c, s);
    hide Step, HasWork, Apply, Unfinished;
    if c.Session? && c.session == s {
      HeldUpButBereaved(y.seats[s].life, c.op);
    } else if c.Post? && c.session == s {
      HeldUpButBereaved(y.seats[s].life, Ref);
    } else if Step(y, c).seats[s].life != y.seats[s].life {
      HeldUpButBereaved(y.seats[s].life, Deref);
    }
  }

  lemma CountIsExact(y: System, c: Command, s: nat)
    requires Sound(y) && Faithful(y) && WellPosted([c]) && !c.SetManager? && s < |y.seats|
    requires |Step(y, c).seats| == |y.seats|
    requires 0 <= Step(y, c).seats[s].outside
    requires Step(y, c).seats[s].outside + Unfinished(Step(y, c).flights, s) < UINT_RANGE
    ensures y.seats[s].life.refcount < UINT_RANGE
    ensures Step(y, c).seats[s].life.refcount == Step(y, c).seats[s].outside + Unfinished(Step(y, c).flights, s)
    ensures HasWork(Step(y, c), s) ==> !Deletable(Step(y, c).seats[s].life)
  {
    var q := Step(y, c);
    hide Step, Taken, Given, Unfinished;
    StepSound(y, c);
    StepFaithful(y, c);
    assert Balanced(q, s) && Balanced(y, s);
    TakenButNotGiven(q.flights, s);
  }

  /** A session with one message in flight, whose only member is destroyed, is scheduled with that task unfinished. */
  lemma BereavedWithWork(chain: seq<MessageHandler>)
    requires Terminated(chain)
    ensures var y := Run(System([Seat(NEW_SESSION, 0)], []), [Post(0, chain), Session(0, MemberDestroyed(0))]);
            |y.seats| == 1 && y.seats[0].life.scheduled && y.seats[0].life.refcount == 1
              && Unfinished(y.flights, 0) == 1
  {
    var start := System([Seat(NEW_SESSION, 0)], []);
    var post, end := Post(0, chain), Session(0, MemberDestroyed(0));
    var q := Step(start, post);
    assert [post, end][1..] == [end] && [end][1..] == [];
    assert Run(start, [post, end]) == Run(q, [end]) == Run(Step(q, end), []) == Step(q, end);
    var f := Flight(Walk(chain, [], [], true, 0, false), 0, Some(0));
    assert q.flights == [f] && [f][1..] == [];
    assert Unfinished([f], 0) == 1;
  }

  /**
    The reference is let go of on the session the message names at the end: when a handler has given the
    message another one, the first session keeps the reference for good and the other's count wraps.
   */
  lemma WrongSessionReleased(chain: seq<MessageHandler>)
    requires Terminated(chain)
    ensures var seat := Seat(NEW_SESSION, 0);
            var y := Run(System([seat, seat], []), [Post(0, chain), SetManager(0, Some(1)), Destroyed(0)]);
            |y.seats| == 2 && y.seats[0].life.refcount == 1 && y.seats[1].life.refcount == UINT_RANGE - 1
  {
    var seat := Seat(NEW_SESSION, 0);
    var start, post, move, end := System([seat, seat], []), Post(0, chain), SetManager(0, Some(1)), Destroyed(0);
    var first := Step(start, post);
    assert first.flights == [Flight(Walk(chain, [], [], true, 0, false), 0, Some(0))];
    assert first.seats[0].life.refcount == 1 && first.seats[1] == seat;
    var second := Step(first, move);
    assert second.flights[0].manager == Some(1) && second.flights[0].walk.alive && second.seats == first.seats;
    assert [post, move, end][1..] == [move, end] && [move, end][1..] == [end] && [end][1..] == [];
    assert Run(start, [post, move, end]) == Run(first, [move, end]) == Run(second, [end]) == Run(Step(second, end), []);
  }

  lemma StepTouches(y: System, c: Command, s: nat)
    requires s < |y.seats|
    ensures |Step(y, c).seats| == |y.seats|
    ensures var v, w := y.seats[s].life, Step(y, c).seats[s].life;
            if c.Session? && c.session == s then w == Apply(v, c.op)
            else if c.Post? && c.session == s then w == Apply(v, Ref)
            else w == v || w == Apply(v, Deref)
  {
    hide Accept, Deliver, Finish, Apply;
  }

  // ---------- a task whose event is gone before it starts ----------

  /** The first command that starts or destroys event i, if any. */
  ghost function FirstTouch(cs: seq<Command>, i: nat): Option<Command> {
    if cs == [] then None
    else if cs[0] == Start(i) || cs[0] == Destroyed(i) then Some(cs[0])
    else FirstTouch(cs[1..], i)
  }

  /** The queued start of the task would reach a destroyed event. */
  ghost predicate GoneUnstarted(w: Walk) {
    !w.alive && w.visited == []
  }

  /** A run leads a queued event there exactly when the event is destroyed before it is started. */
  lemma {:induction false} StartComesTooLate(y: System, cs: seq<Command>, i: nat)
    requires Sound(y) && WellPosted(cs) && i < |y.flights| && Queued(y.flights[i].walk)
    ensures i < |Run(y, cs).flights|
    ensures GoneUnstarted(Run(y, cs).flights[i].walk) <==> FirstTouch(cs, i) == Some(Destroyed(i))
    decreases cs
  {
    if cs != [] {
      var c, rest := cs[0], cs[1..];
      assert c in cs && forall d | d in rest :: d in cs;
      StepSound(y, c);
      StepWalks(y, c, i);
      RunMovesOn(Step(y, c), rest, i);
      var v := y.flights[i].walk;
      if c == Start(i) {
        StartOk(v);
      } else if c != Destroyed(i) {
        AcceptOk(v);
        StartComesTooLate(Step(y, c), rest, i);
      }
      hide WalkOk, Accept, Deliver, Balanced, Step, Terminated;
    }
  }
}
