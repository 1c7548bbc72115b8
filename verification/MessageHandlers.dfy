/** Handlers linked into a chain, and how one message event walks it. */
module MessageHandlers {
  import opened Lists
  import opened SessionLifetime

  /** What a handler does with a message: hand it on at once, decide in its own time, or throw it away. */
  datatype Kind = Forwards | Decides | Terminates

  /** The handlers are linked in this order and the last one has no next. */
  ghost predicate Linked(chain: seq<MessageHandler>)
    reads chain
  {
    && chain != []
    && (forall i | 0 <= i < |chain| - 1 :: chain[i].next == chain[i + 1])
    && chain[|chain| - 1].next == null
  }

  lemma NextInChain(chain: seq<MessageHandler>, i: nat)
    requires Linked(chain) && i < |chain| - 1
    ensures chain[i].next == chain[i + 1]
  {
  }

  /** One terminator, at the end. */
  ghost predicate Terminated(chain: seq<MessageHandler>) {
    && chain != [] && NoDup(chain)
    && forall i | 0 <= i < |chain| :: chain[i].kind == Terminates <==> i == |chain| - 1
  }

  // ---------- the walk of one event ----------

  /** The handlers whose messageAccepted is connected to the event's signal, and those it was handed to. */
  datatype Walk = Walk(
    chain: seq<MessageHandler>,
    connections: seq<MessageHandler>,
    visited: seq<MessageHandler>,
    alive: bool,
    done: nat,
    crashed: bool)

  ghost function Finish(w: Walk): Walk {
    w.(connections := [], alive := false, done := w.done + 1)
  }

  /** handleMessageInternal of the i-th handler. */
  ghost function Deliver(w: Walk, i: nat): Walk
    decreases |w.chain| - i
  {
    if i >= |w.chain| then w.(crashed := true)
    else
      var h := w.chain[i];
      var c := w.(connections := w.connections + [h], visited := w.visited + [h]);
      match h.kind
      case Forwards => Deliver(c.(connections := Without(c.connections, h)), i + 1)
      case Decides => c
      case Terminates => Finish(c)
  }

  ghost function Position(chain: seq<MessageHandler>, h: MessageHandler): nat {
    if chain == [] || chain[0] == h then 0 else 1 + Position(chain[1..], h)
  }

  /** Emitting accepted to the receivers connected when the emission began, those still connected at their turn. */
  ghost function Emit(w: Walk, slots: seq<MessageHandler>): Walk
    decreases slots
  {
    if slots == [] then w
    else
      var h := slots[0];
      Emit(if w.alive && h in w.connections
           then Deliver(w.(connections := Without(w.connections, h)), Position(w.chain, h) + 1)
           else w, slots[1..])
  }

  ghost function Accept(w: Walk): Walk {
    Emit(w, w.connections)
  }

  ghost predicate Queued(w: Walk) {
    w.alive && w.visited == []
  }

  /** What holds of every event at every moment. */
  ghost predicate WalkOk(w: Walk) {
    && Terminated(w.chain) && !w.crashed
    && w.visited <= w.chain
    && w.done == (if w.alive then 0 else 1)
    && (if w.alive && w.visited != []
        then w.connections == [w.visited[|w.visited| - 1]] && w.visited[|w.visited| - 1].kind == Decides
        else w.connections == [])
  }

  /** Handing an event to handler i: it stops at one handler that decides, further along, or it is thrown away. */
  lemma {:induction false} DeliverOk(w: Walk, i: nat)
    requires Terminated(w.chain) && !w.crashed && i < |w.chain|
    requires w.alive && w.done == 0 && w.connections == [] && w.visited == w.chain[..i]
    ensures WalkOk(Deliver(w, i))
    ensures Deliver(w, i).chain == w.chain && w.visited < Deliver(w, i).visited
    decreases |w.chain| - i
  {
    var h := w.chain[i];
    assert w.chain[..i] + [h] == w.chain[..i + 1];
    if h.kind == Forwards {
      assert Without([h], h) == [];
      DeliverOk(w.(visited := w.chain[..i + 1]), i + 1);
    }
  }

  /** The first handler from i on that decides in its own time, or the length of the chain. */
  ghost function FirstDecider(chain: seq<MessageHandler>, i: nat): (k: nat)
    requires i <= |chain|
    ensures i <= k <= |chain| && (k < |chain| ==> chain[k].kind == Decides)
    ensures forall j | i <= j < k :: chain[j].kind != Decides
    decreases |chain| - i
  {
    if i == |chain| || chain[i].kind == Decides then i else FirstDecider(chain, i + 1)
  }

  /** The event waits at handler k, having been with all before it; or it has been with all of them, and is over. */
  ghost predicate At(w: Walk, k: nat) {
    && k <= |w.chain| && !w.crashed
    && w.visited == (if k < |w.chain| then w.chain[..k + 1] else w.chain)
    && w.connections == (if k < |w.chain| then [w.chain[k]] else [])
    && (w.alive <==> k < |w.chain|) && w.done == (if w.alive then 0 else 1)
  }

  lemma {:induction false} DeliverReaches(w: Walk, i: nat)
    requires Terminated(w.chain) && !w.crashed && i < |w.chain|
    requires w.alive && w.done == 0 && w.connections == [] && w.visited == w.chain[..i]
    ensures Deliver(w, i).chain == w.chain && At(Deliver(w, i), FirstDecider(w.chain, i))
    decreases |w.chain| - i
  {
    var h := w.chain[i];
    assert w.chain[..i] + [h] == w.chain[..i + 1];
    if h.kind == Forwards {
      assert Without([h], h) == [];
      DeliverReaches(w.(visited := w.chain[..i + 1]), i + 1);
    } else if h.kind == Terminates {
      assert FirstDecider(w.chain, i + 1) == i + 1 == |w.chain|;
      assert w.chain[..i + 1] == w.chain;
    }
  }

  /**
    Where it stops: at the first handler from i on that decides in its own time, whoever is before it only
    having forwarded it; without such a handler it has been with all of them, and is over.
   */
  lemma DeliverStops(w: Walk, i: nat)
    requires Terminated(w.chain) && !w.crashed && i < |w.chain|
    requires w.alive && w.done == 0 && w.connections == [] && w.visited == w.chain[..i]
    ensures Deliver(w, i).alive <==> exists k :: i <= k < |w.chain| && w.chain[k].kind == Decides
    ensures forall k | i <= k < |w.chain| && w.chain[k].kind == Decides
              && (forall j | i <= j < k :: w.chain[j].kind != Decides) ::
              Deliver(w, i).visited == w.chain[..k + 1] && Deliver(w, i).connections == [w.chain[k]]
    ensures !Deliver(w, i).alive ==> Deliver(w, i).visited == w.chain && Deliver(w, i).done == 1
  {
    DeliverReaches(w, i);
    hide Deliver, Terminated;
  }

  /** Accepting at handler k leads to the next one that decides in its own time, or to the end. */
  lemma AcceptReaches(w: Walk, k: nat)
    requires Terminated(w.chain) && At(w, k) && k < |w.chain| && w.chain[k].kind == Decides
    ensures Accept(w).chain == w.chain && At(Accept(w), FirstDecider(w.chain, k + 1))
  {
    OneReceiver(w);
    assert Without([w.chain[k]], w.chain[k]) == [];
    DeliverReaches(w.(connections := []), k + 1);
    hide Deliver, Accept;
  }

  /** The handler an event waits at after n acceptances, from handler k on. */
  ghost function After(chain: seq<MessageHandler>, k: nat, n: nat): (r: nat)
    requires k <= |chain|
    ensures k <= r <= |chain|
    decreases n
  {
    if n == 0 || k == |chain| then k else After(chain, FirstDecider(chain, k + 1), n - 1)
  }

  /** Starting a queued event hands it to the first handlers. */
  lemma StartOk(w: Walk)
    requires WalkOk(w) && Queued(w)
    ensures WalkOk(Deliver(w, 0)) && Deliver(w, 0).chain == w.chain && w.visited < Deliver(w, 0).visited
  {
    DeliverOk(w, 0);
  }

  lemma {:induction false} PositionOf(chain: seq<MessageHandler>, i: nat)
    requires NoDup(chain) && i < |chain|
    ensures Position(chain, chain[i]) == i
  {
    if i > 0 {
      assert chain[0] != chain[i] && chain[1..][i - 1] == chain[i];
      PositionOf(chain[1..], i - 1);
    }
  }

  /** Accepting moves an event in flight strictly further and to exactly one handler, or to its end. */
  lemma AcceptOk(w: Walk)
    requires WalkOk(w) && w.alive
    ensures WalkOk(Accept(w)) && Accept(w).chain == w.chain
    ensures if Queued(w) then Accept(w) == w else w.visited < Accept(w).visited
  {
    if !Queued(w) {
      var k := |w.visited| - 1;
      OneReceiver(w);
      assert Without([w.visited[k]], w.visited[k]) == [];
      DeliverOk(w.(connections := []), k + 1);
      assert w.visited <= w.chain[..k + 1];
    }
  }

  /** An event in flight has one receiver, so accepting is that handler handing it to its next. */
  lemma OneReceiver(w: Walk)
    requires WalkOk(w) && w.alive && !Queued(w)
    ensures var k := |w.visited| - 1;
            && k < |w.chain| - 1 && w.chain[k] == w.visited[k]
            && w.visited == w.chain[..k + 1]
            && Accept(w) == Deliver(w.(connections := Without(w.connections, w.visited[k])), k + 1)
  {
    var k := |w.visited| - 1;
    var h := w.visited[k];
    assert w.chain[k] == h && k < |w.chain| - 1;
    PositionOf(w.chain, k);
    var d := Deliver(w.(connections := Without(w.connections, h)), k + 1);
    assert [h][1..] == [] && Emit(d, []) == d;
    assert Emit(w, [h]) == Emit(d, [h][1..]);
  }

  ghost function AcceptTimes(w: Walk, n: nat): Walk
    decreases n
  {
    if n == 0 || !w.alive then w else AcceptTimes(Accept(w), n - 1)
  }

  /** Nothing gets stuck: as many acceptances as handlers are left take an event to the terminator. */
  lemma {:induction false} AcceptingEnds(w: Walk, n: nat)
    requires WalkOk(w) && w.alive && !Queued(w) && n + |w.visited| >= |w.chain|
    ensures !AcceptTimes(w, n).alive && AcceptTimes(w, n).done == 1
    decreases n
  {
    assert w.chain[|w.visited| - 1] == w.visited[|w.visited| - 1];
    AcceptOk(w);
    if n > 0 && Accept(w).alive {
      AcceptingEnds(Accept(w), n - 1);
    }
  }

  // ---------- the objects ----------

  class MessageHandler {
    const kind: Kind
    var next: MessageHandler?
    var deleted: bool

    constructor (kind: Kind)
      ensures this.kind == kind && next == null && !deleted
    {
      this.kind := kind;
      next := null;
      deleted := false;
    }

    method SetNext(next: MessageHandler)
      modifies this`next
      ensures this.next == next
    {
      this.next := next;
    }

    /** this is the i-th handler of the chain. */
    method HandleMessageInternal(event: MessageEvent, ghost chain: seq<MessageHandler>, ghost i: nat)
      requires Linked(chain) && Terminated(chain) && i < |chain| && chain[i] == this && event.alive
      modifies event, event.manager
      ensures event.View(chain) == Deliver(old(event.View(chain)), i)
      ensures event.manager == old(event.manager)
      ensures event.manager != null ==>
                event.manager.State() == Released(old(event.manager.State()), event.alive)
      decreases |chain| - i, 1
    {
      event.connections := event.connections + [this];
      event.visited := event.visited + [this];
      match kind
      case Forwards => MessageAccepted(event, chain, i);
      case Decides =>
      case Terminates => event.Destroy();
    }

    method MessageAccepted(event: MessageEvent, ghost chain: seq<MessageHandler>, ghost i: nat)
      requires Linked(chain) && Terminated(chain) && i < |chain| - 1 && chain[i] == this && event.alive
      modifies event, event.manager
      ensures var w := old(event.View(chain));
              event.View(chain) == Deliver(w.(connections := Without(w.connections, this)), i + 1)
      ensures event.manager == old(event.manager)
      ensures event.manager != null ==>
                event.manager.State() == Released(old(event.manager.State()), event.alive)
      decreases |chain| - i, 0
    {
      hide Linked, Terminated, NoDup, Deliver, Without;
      NextInChain(chain, i);
      var following: MessageHandler := next;
      event.Disconnect(this, chain);
      following.HandleMessageInternal(event, chain, i + 1);
    }
  }

  /** What ending an event does to its session: its task lets go of the reference it took. */
  ghost function Released(s: Lifetime, alive: bool): Lifetime {
    if alive then s else Apply(s, Deref)
  }

  class MessageEvent {
    var connections: seq<MessageHandler>
    var manager: ChatSession?
    var alive: bool
    var done: nat
    ghost var visited: seq<MessageHandler>

    ghost function View(chain: seq<MessageHandler>): Walk
      reads this
    {
      Walk(chain, connections, visited, alive, done, false)
    }

    /** MessageHandlerChain::processMessage: a queued event and its task, which takes a reference on the session. */
    constructor (session: ChatSession)
      modifies session
      ensures forall chain: seq<MessageHandler> :: View(chain) == Walk(chain, [], [], true, 0, false)
      ensures manager == session && session.State() == Apply(old(session.State()), Ref)
    {
      connections := [];
      manager := session;
      alive := true;
      done := 0;
      visited := [];
      new;
      session.DoRef();
    }

    method Disconnect(h: MessageHandler, ghost chain: seq<MessageHandler>)
      modifies this`connections
      ensures View(chain) == old(View(chain)).(connections := Without(old(connections), h))
    {
      connections := Without(connections, h);
    }

    /** ~MessageEvent, which emits done; ProcessMessageTask::slotDone answers it. */
    method Destroy()
      requires alive
      modifies this, manager
      ensures connections == [] && !alive && done == old(done) + 1 && visited == old(visited)
      ensures manager == old(manager)
      ensures manager != null ==> manager.State() == Apply(old(manager.State()), Deref)
    {
      alive := false;
      connections := [];
      done := done + 1;
      if manager != null {
        manager.DoDeref();
      }
    }

    /** ProcessMessageTask::start */
    method Start(first: MessageHandler, ghost chain: seq<MessageHandler>)
      requires Linked(chain) && first == chain[0] && WalkOk(View(chain)) && Queued(View(chain))
      modifies this, manager
      ensures View(chain) == Deliver(old(View(chain)), 0) && WalkOk(View(chain))
      ensures At(View(chain), FirstDecider(chain, 0))
      ensures manager == old(manager)
      ensures manager != null ==> manager.State() == Released(old(manager.State()), alive)
    {
      StartOk(View(chain));
      DeliverReaches(View(chain), 0);
      first.HandleMessageInternal(this, chain, 0);
    }

    method DoAccept(ghost chain: seq<MessageHandler>)
      requires Linked(chain) && WalkOk(View(chain)) && alive
      modifies this, manager
      ensures View(chain) == Accept(old(View(chain))) && WalkOk(View(chain))
      ensures manager == old(manager)
      ensures manager != null ==> manager.State() == Released(old(manager.State()), alive)
    {
      var slots := connections;
      ghost var w := View(chain);
      AcceptOk(w);
      assert w.connections == slots && (slots == [] ==> Accept(w) == w);
      hide Deliver, Emit, Terminated, NoDup;
      var k := 0;
      while k < |slots|
        invariant k <= |slots| <= 1
        invariant k == 0 ==> View(chain) == w
        invariant k == |slots| ==> View(chain) == Accept(w)
        invariant manager == old(manager)
        invariant manager != null ==> manager.State() == Released(old(manager.State()), alive)
        invariant Linked(chain)
      {
        var h := slots[k];
        OneReceiver(w);
        if alive && h in connections {
          h.MessageAccepted(this, chain, |visited| - 1);
        }
        k := k + 1;
      }
    }
  }
}
