/** The chain of message handlers: sorted by position, linked by next links, closed by a terminator. */
module HandlerChain {
  import opened Lists
  import opened MemberOrder
  import opened MessageHandlers

  const STAGE_DO_NOT_CREATE := -10000

  /** One registered factory, asked for a session and direction: its position and the handler it makes, if any. */
  datatype Offer = Offer(position: int, handler: MessageHandler?)

  /** The offers that become handlers, in order of registration. */
  function Kept(offers: seq<Offer>): (r: seq<Offer>)
    ensures forall o | o in r :: o in offers && o.handler != null && o.position != STAGE_DO_NOT_CREATE
    ensures forall o | o in offers && o.handler != null && o.position != STAGE_DO_NOT_CREATE :: o in r
  {
    if offers == [] then []
    else
      var rest := Kept(offers[1..]);
      if offers[0].position == STAGE_DO_NOT_CREATE || offers[0].handler == null then rest else [offers[0]] + rest
  }

  /** Lower positions come first. */
  function PositionKey(position: int): Key {
    Key(-position, [])
  }

  function ByPosition(): Offer -> Key {
    (o: Offer) => PositionKey(o.position)
  }

  // ---------- QMap<int, HandlerList> ----------

  datatype Bucket = Bucket(position: int, offers: seq<Offer>)

  /** handlers[o.position].append(o.handler): keys ascend, a missing key is added. */
  function Append(buckets: seq<Bucket>, o: Offer): seq<Bucket> {
    if buckets == [] || o.position < buckets[0].position then [Bucket(o.position, [o])] + buckets
    else if o.position == buckets[0].position then [buckets[0].(offers := buckets[0].offers + [o])] + buckets[1..]
    else [buckets[0]] + Append(buckets[1..], o)
  }

  function Flatten(buckets: seq<Bucket>): seq<Offer> {
    if buckets == [] then [] else buckets[0].offers + Flatten(buckets[1..])
  }

  ghost predicate Ascending(buckets: seq<Bucket>) {
    buckets == [] || (
      && (forall o | o in buckets[0].offers :: o.position == buckets[0].position)
      && (|buckets| > 1 ==> buckets[0].position < buckets[1].position)
      && Ascending(buckets[1..]))
  }

  lemma {:induction false} FlattenPositions(buckets: seq<Bucket>, low: int)
    requires Ascending(buckets) && (buckets != [] ==> low < buckets[0].position)
    ensures forall o | o in Flatten(buckets) :: low < o.position
  {
    if buckets != [] {
      FlattenPositions(buckets[1..], low);
    }
  }

  lemma {:induction false} InsertPast(a: seq<Offer>, b: seq<Offer>, o: Offer)
    requires forall x | x in a :: x.position <= o.position
    ensures Insert(a + b, o, ByPosition()) == a + Insert(b, o, ByPosition())
  {
    if a == [] {
      assert a + b == b && a + Insert(b, o, ByPosition()) == Insert(b, o, ByPosition());
    } else {
      assert (a + b)[1..] == a[1..] + b && (a + b)[0] == a[0];
      InsertPast(a[1..], b, o);
      assert [a[0]] + (a[1..] + Insert(b, o, ByPosition())) == a + Insert(b, o, ByPosition());
    }
  }

  lemma InsertAhead(b: seq<Offer>, o: Offer)
    requires forall x | x in b :: o.position < x.position
    ensures Insert(b, o, ByPosition()) == [o] + b
  {
    assert b != [] ==> b[0] in b;
  }

  lemma {:induction false} AppendAscends(buckets: seq<Bucket>, o: Offer)
    requires Ascending(buckets)
    ensures Ascending(Append(buckets, o))
  {
    if buckets == [] || o.position < buckets[0].position {
      assert ([Bucket(o.position, [o])] + buckets)[1..] == buckets;
    } else {
      var first, rest := buckets[0], buckets[1..];
      if o.position == first.position {
        assert ([first.(offers := first.offers + [o])] + rest)[1..] == rest;
      } else {
        AppendAscends(rest, o);
        assert ([first] + Append(rest, o))[1..] == Append(rest, o);
      }
    }
  }

  /** Appending to the bucket of its position is inserting behind the offers that do not come after it. */
  lemma {:induction false} AppendInserts(buckets: seq<Bucket>, o: Offer)
    requires Ascending(buckets)
    ensures Flatten(Append(buckets, o)) == Insert(Flatten(buckets), o, ByPosition())
  {
    if buckets == [] || o.position < buckets[0].position {
      FlattenPositions(buckets, o.position);
      InsertAhead(Flatten(buckets), o);
      FlattenCons(Bucket(o.position, [o]), buckets);
    } else {
      var first, rest := buckets[0], buckets[1..];
      assert buckets == [first] + rest;
      InsertPast(first.offers, Flatten(rest), o);
      if o.position == first.position {
        FlattenPositions(rest, o.position);
        InsertAhead(Flatten(rest), o);
        FlattenCons(first.(offers := first.offers + [o]), rest);
        Associate(first.offers, [o], Flatten(rest));
        hide *;
      } else {
        AppendInserts(rest, o);
        FlattenCons(first, Append(rest, o));
      }
    }
  }

  lemma FlattenCons(b: Bucket, buckets: seq<Bucket>)
    ensures Flatten([b] + buckets) == b.offers + Flatten(buckets)
  {
    assert ([b] + buckets)[1..] == buckets;
  }

  // ---------- building and taking down ----------

  function Handlers(offers: seq<Offer>): (r: seq<MessageHandler>)
    requires forall o | o in offers :: o.handler != null
    ensures |r| == |offers| && forall i | 0 <= i < |r| :: r[i] == offers[i].handler
  {
    seq(|offers|, i requires 0 <= i < |offers| => offers[i].handler)
  }

  /** The order the handlers of a chain stand in. */
  function Order(offers: seq<Offer>): seq<Offer> {
    StableSort(Kept(offers), ByPosition())
  }

  /** Every factory makes a handler of its own. */
  ghost predicate Distinct(offers: seq<Offer>) {
    forall i, j | 0 <= i < j < |offers| && offers[i].handler != null :: offers[i].handler != offers[j].handler
  }

  /** MessageHandlerChain::create: what QMap<int, HandlerList> holds after all factories were asked. */
  method Collect(offers: seq<Offer>) returns (buckets: seq<Bucket>)
    ensures Ascending(buckets) && Flatten(buckets) == Order(offers)
  {
    buckets := [];
    for i := 0 to |offers|
      invariant Ascending(buckets)
      invariant Flatten(buckets) == Order(offers[..i])
    {
      var o := offers[i];
      KeptNext(offers, i);
      if o.position != STAGE_DO_NOT_CREATE && o.handler != null {
        AppendAscends(buckets, o);
        AppendInserts(buckets, o);
        InsertAllSnoc([], Kept(offers[..i]), o, ByPosition());
        buckets := Append(buckets, o);
      }
    }
    assert offers[..|offers|] == offers;
  }

  lemma KeptNext(offers: seq<Offer>, i: nat)
    requires i < |offers|
    ensures Kept(offers[..i + 1]) ==
            if offers[i].position == STAGE_DO_NOT_CREATE || offers[i].handler == null then Kept(offers[..i])
            else Kept(offers[..i]) + [offers[i]]
  {
    assert [offers[i]][1..] == [];
    KeptConcat(offers[..i], [offers[i]]);
    assert offers[..i + 1] == offers[..i] + [offers[i]];
  }

  lemma {:induction false} KeptConcat(a: seq<Offer>, b: seq<Offer>)
    ensures Kept(a + b) == Kept(a) + Kept(b)
  {
    if a == [] {
      assert a + b == b;
    } else {
      assert (a + b)[1..] == a[1..] + b && (a + b)[0] == a[0];
      KeptConcat(a[1..], b);
      Associate([a[0]], Kept(a[1..]), Kept(b));
      KeptCons(a);
      KeptCons(a + b);
      hide *;
    }
  }

  lemma KeptCons(a: seq<Offer>)
    requires a != []
    ensures Kept(a) ==
            if a[0].position == STAGE_DO_NOT_CREATE || a[0].handler == null then Kept(a[1..])
            else [a[0]] + Kept(a[1..])
  {
  }

  /** The chain runs through exactly the made handlers, each once, lower positions first, ties as registered. */
  lemma OrderIsStable(offers: seq<Offer>)
    ensures multiset(Order(offers)) == multiset(Kept(offers))
    ensures forall i, j | 0 <= i < j < |Order(offers)| :: Order(offers)[i].position <= Order(offers)[j].position
    ensures forall p ::
      Ties(Order(offers), ByPosition(), PositionKey(p)) == Ties(Kept(offers), ByPosition(), PositionKey(p))
    ensures forall o | o in Order(offers) :: o.handler != null && o in offers
  {
    StableSortIsStableSort(Kept(offers), ByPosition());
    var r := Order(offers);
    forall i, j | 0 <= i < j < |r| ensures r[i].position <= r[j].position {
      assert LessThan(ByPosition()(r[i]), ByPosition()(r[j]));
    }
    forall o | o in r ensures o in Kept(offers) {
      assert o in multiset(r);
    }
  }

  /** Different factories' handlers stay different along the chain. */
  lemma OrderIsDistinct(offers: seq<Offer>)
    requires Distinct(offers)
    ensures Distinct(Order(offers))
  {
    KeptIsDistinct(offers);
    var kept := Kept(offers);
    OrderIsStable(offers);
    assert forall i, j | 0 <= i < j < |kept| :: kept[i].handler != kept[j].handler;
    assert NoDup(kept);
    SameElements(kept, Order(offers));
    forall i, j | 0 <= i < j < |Order(offers)| ensures Order(offers)[i].handler != Order(offers)[j].handler {
      var a, b := Order(offers)[i], Order(offers)[j];
      assert a in Order(offers) && b in Order(offers) && a != b;
      var m :| 0 <= m < |kept| && kept[m] == a;
      var n :| 0 <= n < |kept| && kept[n] == b;
    }
  }

  lemma {:induction false} KeptIsDistinct(offers: seq<Offer>)
    requires Distinct(offers)
    ensures forall i, j | 0 <= i < j < |Kept(offers)| :: Kept(offers)[i].handler != Kept(offers)[j].handler
  {
    if offers != [] {
      var rest := offers[1..];
      assert forall i | 0 <= i < |rest| :: rest[i] == offers[i + 1];
      KeptIsDistinct(rest);
      forall o | o in Kept(rest) && offers[0].handler != null ensures o.handler != offers[0].handler {
        var m :| 0 <= m < |rest| && rest[m] == o;
      }
    }
  }

  ghost function MadeBy(offers: seq<Offer>): set<MessageHandler> {
    set o | o in offers && o.handler != null :: o.handler
  }

  /** MessageHandlerChain::create: the handlers in order, linked, and one terminator behind them. */
  method Create(offers: seq<Offer>) returns (first: MessageHandler, terminator: MessageHandler)
    requires Distinct(offers)
    modifies MadeBy(offers)
    ensures fresh(terminator) && terminator.kind == Terminates
    ensures var chain := ChainOf(offers, terminator);
            && first == chain[0] && Linked(chain)
            && ((forall h | h in MadeBy(offers) :: h.kind != Terminates) ==> Terminated(chain))
  {
    HandlersMade(offers);
    ghost var order := Order(offers);
    hide *;
    var buckets := Collect(offers);
    var head: MessageHandler?, curr: MessageHandler?;
    head, curr := LinkAll(buckets, order);
    first, terminator := Close(head, curr, Handlers(order));
    OneTerminator(Handlers(order), terminator);
    ChainIs(offers, terminator);
  }

  lemma HandlersMade(offers: seq<Offer>)
    requires Distinct(offers)
    ensures forall o | o in Order(offers) :: o.handler != null
    ensures NoDup(Handlers(Order(offers))) && forall h | h in Handlers(Order(offers)) :: h in MadeBy(offers)
  {
    OrderIsStable(offers);
    OrderIsDistinct(offers);
  }

  lemma ChainIs(offers: seq<Offer>, terminator: MessageHandler)
    requires forall o | o in Order(offers) :: o.handler != null
    ensures ChainOf(offers, terminator) == Handlers(Order(offers)) + [terminator]
  {
  }

  lemma OneTerminator(all: seq<MessageHandler>, terminator: MessageHandler)
    requires NoDup(all + [terminator]) && terminator.kind == Terminates
    ensures (forall h | h in all :: h.kind != Terminates) ==> Terminated(all + [terminator])
  {
  }

  /** The terminator goes behind the last handler, or stands alone. */
  method Close(head: MessageHandler?, curr: MessageHandler?, ghost all: seq<MessageHandler>)
    returns (first: MessageHandler, terminator: MessageHandler)
    requires Threaded(all, |all|, head, curr) && NoDup(all)
    modifies all
    ensures fresh(terminator) && terminator.kind == Terminates
    ensures var chain := all + [terminator]; first == chain[0] && Linked(chain) && NoDup(chain)
  {
    terminator := new MessageHandler(Terminates);
    if curr != null {
      curr.SetNext(terminator);
      first := head;
    } else {
      first := terminator;
    }
  }

  method LinkAll(buckets: seq<Bucket>, ghost order: seq<Offer>) returns (head: MessageHandler?, curr: MessageHandler?)
    requires forall o | o in order :: o.handler != null
    requires NoDup(Handlers(order)) && Flatten(buckets) == order
    modifies Handlers(order)
    ensures Threaded(Handlers(order), |order|, head, curr)
  {
    ghost var k: nat := 0;
    head, curr := null, null;
    assert buckets[0..] == buckets && order[0..] == order;
    assert Threaded(Handlers(order), 0, head, curr);
    hide *;
    for i := 0 to |buckets|
      invariant k <= |order| && Flatten(buckets[i..]) == order[k..]
      invariant Threaded(Handlers(order), k, head, curr)
    {
      ghost var rest := Flatten(buckets[i + 1..]);
      var list := buckets[i].offers;
      FlattenFrom(buckets, i);
      TakeOff(order, k, list, rest);
      head, curr := LinkBucket(list, order, k, head, curr);
      k := k + |list|;
    }
    FlattenEnd(buckets);
  }

  lemma FlattenFrom(buckets: seq<Bucket>, i: nat)
    requires i < |buckets|
    ensures Flatten(buckets[i..]) == buckets[i].offers + Flatten(buckets[i + 1..])
  {
    assert buckets[i..][1..] == buckets[i + 1..];
  }

  lemma FlattenEnd(buckets: seq<Bucket>)
    ensures Flatten(buckets[|buckets|..]) == []
  {
  }

  lemma TakeOff<T>(s: seq<T>, k: nat, a: seq<T>, b: seq<T>)
    requires k <= |s| && s[k..] == a + b
    ensures k + |a| <= |s| && s[k + |a|..] == b && s[k..][..|a|] == a
  {
    assert s[k + |a|..] == s[k..][|a|..];
  }

  /** The inner loop: the handlers of one position, behind whatever is linked already. */
  method LinkBucket(list: seq<Offer>, ghost order: seq<Offer>, ghost k: nat, head: MessageHandler?,
                    curr: MessageHandler?)
    returns (first: MessageHandler?, last: MessageHandler?)
    requires forall o | o in order :: o.handler != null
    requires NoDup(Handlers(order)) && k + |list| <= |order| && order[k..][..|list|] == list
    requires Threaded(Handlers(order), k, head, curr)
    modifies Handlers(order)
    ensures Threaded(Handlers(order), k + |list|, first, last)
  {
    first, last := head, curr;
    for j := 0 to |list|
      invariant Threaded(Handlers(order), k + j, first, last)
    {
      var o := list[j];
      assert order[k + j] == o && o in order;
      if last != null {
        last.SetNext(o.handler);
      } else {
        first := o.handler;
      }
      last := o.handler;
    }
  }

  ghost function ChainOf(offers: seq<Offer>, terminator: MessageHandler): seq<MessageHandler> {
    OrderIsStable(offers);
    Handlers(Order(offers)) + [terminator]
  }

  /** The first k handlers hang together; head and curr are the first and the last of them. */
  ghost predicate Threaded(all: seq<MessageHandler>, k: nat, head: MessageHandler?, curr: MessageHandler?)
    requires k <= |all|
    reads all
  {
    && (forall i | 0 <= i < k - 1 :: all[i].next == all[i + 1])
    && (if k == 0 then head == null && curr == null else head == all[0] && curr == all[k - 1])
  }

  /** ~MessageHandlerChain: every handler of the chain is deleted, once, from first to last. */
  method Destroy(first: MessageHandler, ghost chain: seq<MessageHandler>) returns (deleted: seq<MessageHandler>)
    requires Linked(chain) && NoDup(chain) && first == chain[0]
    requires forall h | h in chain :: !h.deleted
    modifies chain
    ensures deleted == chain
    ensures forall h | h in chain :: h.deleted
  {
    deleted := [];
    var handler: MessageHandler? := first;
    while handler != null
      invariant |deleted| <= |chain| && deleted == chain[..|deleted|]
      invariant Linked(chain)
      invariant if handler == null then |deleted| == |chain| else |deleted| < |chain| && handler == chain[|deleted|]
      invariant forall h | h in deleted :: h.deleted
      decreases |chain| - |deleted|
    {
      ghost var n := |deleted|;
      assert handler == chain[n] && (n < |chain| - 1 ==> chain[n].next == chain[n + 1]);
      var next := handler.next;
      handler.deleted := true;
      deleted := deleted + [handler];
      handler := next;
    }
  }
}
