/**
  An account connects or disconnects, and its contacts announce themselves once each: when the member
  list is sorted again afterwards.
 */
module Rounds {
  import opened Lists
  import opened MemberOrder
  import opened MembersModel

  ghost function Among<C>(cs: seq<C>): set<C> {
    set c | c in cs
  }

  /** Contacts shown, once each, without which the list is in order: among them all whose keys changed. */
  ghost predicate FullRound<C>(q: Room<C>, cs: seq<C>) {
    && q.attached && NoDup(q.shown)
    && NoDup(cs) && (forall c | c in cs :: c in q.shown)
    && Sorted(Drop(q.shown, Among(cs)), KeysOf(q))
  }

  /** The list as the k-th contact finds it, with the contact itself taken out. */
  ghost function Rest<C>(q: Room<C>, cs: seq<C>, k: nat): seq<C>
    requires k < |cs|
  {
    Without(ReannounceAll(q, cs[..k]).shown, cs[k])
  }

  /** Where the binary search puts it. */
  ghost function Place<C>(q: Room<C>, cs: seq<C>, k: nat): (i: nat)
    requires k < |cs|
    ensures i <= |Rest(q, cs, k)|
  {
    Halve(Rest(q, cs, k), KeysOf(q), KeysOf(q)(cs[k]), 0, |Rest(q, cs, k)|)
  }

  /** That is right with respect to everybody who is not to be announced any more. */
  ghost predicate Lands<C>(q: Room<C>, cs: seq<C>, k: nat)
    requires k < |cs|
  {
    var rest, i, key := Rest(q, cs, k), Place(q, cs, k), KeysOf(q);
    && (forall y | y in rest[..i] && y !in cs[k + 1..] :: LessThan(key(y), key(cs[k])))
    && (forall y | y in rest[i..] && y !in cs[k + 1..] :: LessThan(key(cs[k]), key(y)))
  }

  /** After n announcements, those who are not to be announced any more stand in order. */
  ghost predicate Settled<C>(q: Room<C>, cs: seq<C>, n: nat)
    requires n <= |cs|
  {
    Sorted(Drop(ReannounceAll(q, cs[..n]).shown, Among(cs[n..])), KeysOf(q))
  }

  /**
    A round leaves the list sorted exactly when each contact, at its turn, lands right with respect to
    those whose keys did not change and those announced before it.
   */
  lemma FullRoundSorts<C>(q: Room<C>, cs: seq<C>)
    requires FullRound(q, cs)
    ensures Listed(ReannounceAll(q, cs)) <==> forall k | 0 <= k < |cs| :: Lands(q, cs, k)
  {
    ReannounceAllKeeps(q, cs);
    SettledAfter(q, cs, |cs|);
    assert cs[..|cs|] == cs;
    assert cs[|cs|..] == [] && Among<C>([]) == {};
    hide Lands, ReannounceAll, Sorted, NoDup, Drop;
  }

  lemma {:induction false} SettledAfter<C>(q: Room<C>, cs: seq<C>, n: nat)
    requires FullRound(q, cs) && n <= |cs|
    ensures Settled(q, cs, n) <==> forall k | 0 <= k < n :: Lands(q, cs, k)
    decreases n
  {
    hide *;
    if n == 0 {
      SettledFirst(q, cs);
    } else {
      SettledAfter(q, cs, n - 1);
      SettledOneMore(q, cs, n - 1);
    }
  }

  lemma SettledFirst<C>(q: Room<C>, cs: seq<C>)
    requires FullRound(q, cs)
    ensures Settled(q, cs, 0)
  {
    assert cs[..0] == [] && cs[0..] == cs;
    hide Sorted, NoDup, Drop, Among;
  }

  lemma SettledOneMore<C>(q: Room<C>, cs: seq<C>, k: nat)
    requires FullRound(q, cs) && k < |cs|
    ensures Settled(q, cs, k + 1) <==> Settled(q, cs, k) && Lands(q, cs, k)
  {
    var rest, i, later := Rest(q, cs, k), Place(q, cs, k), Among(cs[k + 1..]);
    OneTurn(q, cs, k);
    LaterOnes(cs, k);
    DropWithout(ReannounceAll(q, cs[..k]).shown, cs[k], later);
    DropAround(rest, i, cs[k], later, KeysOf(q));
    AmongMeans(cs[k + 1..]);
    hide FullRound, Sorted, NoDup, Drop, ReannounceAll, Rest, Place, LessThan, Among;
  }

  lemma AmongMeans<C>(cs: seq<C>)
    ensures forall y :: y in Among(cs) <==> y in cs
  {
  }

  /** A list with x put in at i is in order, those of xs aside, exactly when it was and x fits there. */
  lemma DropAround<C>(s: seq<C>, i: nat, x: C, xs: set<C>, key: C -> Key)
    requires i <= |s| && x !in xs
    ensures Sorted(Drop(s[..i] + [x] + s[i..], xs), key) <==>
            && Sorted(Drop(s, xs), key)
            && (forall y | y in s[..i] && y !in xs :: LessThan(key(y), key(x)))
            && (forall y | y in s[i..] && y !in xs :: LessThan(key(x), key(y)))
  {
    var a, b := s[..i], s[i..];
    OneStays(x, xs);
    hide *;
    assert s == a + b && a + [x] + b == a + ([x] + b);
    DropConcat(a, [x] + b, xs);
    DropConcat([x], b, xs);
    DropConcat(a, b, xs);
    SortedAround(Drop(a, xs), x, Drop(b, xs), key);
  }

  lemma OneStays<T>(x: T, xs: set<T>)
    requires x !in xs
    ensures Drop([x], xs) == [x]
  {
  }

  /** One announcement: taken out, and put where the search ends. */
  lemma OneTurn<C>(q: Room<C>, cs: seq<C>, k: nat)
    requires FullRound(q, cs) && k < |cs|
    ensures var rest, i := Rest(q, cs, k), Place(q, cs, k);
            ReannounceAll(q, cs[..k + 1]).shown == rest[..i] + [cs[k]] + rest[i..]
  {
    assert cs[..k + 1][..k] == cs[..k];
    ReannounceAllKeeps(q, cs[..k]);
    RemoveFirstIsWithout(ReannounceAll(q, cs[..k]).shown, cs[k]);
    hide Halve, NoDup, Without, RemoveFirst, Sorted;
  }

  lemma LaterOnes<C>(cs: seq<C>, k: nat)
    requires NoDup(cs) && k < |cs|
    ensures Among(cs[k..]) == {cs[k]} + Among(cs[k + 1..]) && cs[k] !in Among(cs[k + 1..])
  {
    assert cs[k..] == [cs[k]] + cs[k + 1..];
  }

  lemma DropWithout<T>(s: seq<T>, x: T, xs: set<T>)
    ensures Drop(Without(s, x), xs) == Drop(s, {x} + xs)
  {
    WithoutIsDrop(s, x);
    DropMore(s, {x}, xs);
  }

  lemma {:induction false} DropConcat<T>(s: seq<T>, t: seq<T>, xs: set<T>)
    ensures Drop(s + t, xs) == Drop(s, xs) + Drop(t, xs)
  {
    if s == [] {
      assert s + t == t;
    } else {
      assert (s + t)[1..] == s[1..] + t;
      DropConcat(s[1..], t, xs);
    }
  }

  lemma SortedAround<C>(s: seq<C>, x: C, t: seq<C>, key: C -> Key)
    ensures Sorted(s + ([x] + t), key) <==>
            && Sorted(s + t, key)
            && (forall y | y in s :: LessThan(key(y), key(x))) && (forall y | y in t :: LessThan(key(x), key(y)))
  {
    var r, u := s + ([x] + t), s + t;
    hide LessThan;
    if Sorted(r, key) {
      forall a, b | 0 <= a < b < |u| ensures LessThan(key(u[a]), key(u[b])) {
        assert u[a] == r[if a < |s| then a else a + 1] && u[b] == r[if b < |s| then b else b + 1];
      }
      forall y | y in s ensures LessThan(key(y), key(x)) {
        var a :| 0 <= a < |s| && s[a] == y;
        assert r[a] == y && r[|s|] == x;
      }
      forall y | y in t ensures LessThan(key(x), key(y)) {
        var b :| 0 <= b < |t| && t[b] == y;
        assert r[|s| + 1 + b] == y && r[|s|] == x;
      }
    }
    if
      && Sorted(u, key)
      && (forall y | y in s :: LessThan(key(y), key(x))) && (forall y | y in t :: LessThan(key(x), key(y)))
    {
      forall a, b | 0 <= a < b < |r| ensures LessThan(key(r[a]), key(r[b])) {
        assert a < |s| ==> r[a] == s[a] == u[a] && s[a] in s;
        assert a > |s| ==> r[a] == u[a - 1];
        assert b < |s| ==> r[b] == u[b];
        assert b > |s| ==> r[b] == t[b - |s| - 1] == u[b - 1] && t[b - |s| - 1] in t;
      }
    }
  }

  // ---------- the cascade as a run ----------

  /** The contacts announce themselves, in this order. */
  function Announcements<C>(cs: seq<C>): seq<Event<C>>
    decreases |cs|
  {
    if cs == [] then [] else Announcements(cs[..|cs| - 1]) + [Reannounce(cs[|cs| - 1])]
  }

  lemma {:induction false} RunThenStep<C>(r: Room<C>, es: seq<Event<C>>, e: Event<C>)
    ensures Run(r, es + [e]) == Step(Run(r, es), e)
    decreases |es|
  {
    if es == [] {
      assert es + [e] == [e];
      assert Run(Step(r, e), []) == Step(r, e);
    } else {
      assert (es + [e])[1..] == es[1..] + [e];
      RunThenStep(Step(r, es[0]), es[1..], e);
      hide Step;
    }
  }

  lemma {:induction false} RunIsRound<C>(q: Room<C>, cs: seq<C>)
    requires q.attached && NoDup(q.shown) && forall c | c in cs :: c in q.members || c == q.myself
    ensures Run(q, Announcements(cs)) == ReannounceAll(q, cs)
    decreases |cs|
  {
    if cs != [] {
      var before, last := cs[..|cs| - 1], cs[|cs| - 1];
      RunIsRound(q, before);
      RunThenStep(q, Announcements(before), Reannounce(last));
      ReannounceAllKeeps(q, before);
      hide Reposition, Run, NoDup;
    }
  }

  /**
    The statuses of any number of contacts change at once, and all of these contacts, maybe others, then
    announce themselves once: the list is good again exactly when each lands right at its turn.
   */
  lemma CascadeSorts<C>(r: Room<C>, own: C -> int, cs: seq<C>)
    requires Good(r) && NoDup(cs) && forall c | c in cs :: c in r.shown
    requires forall c | c in r.shown && c !in cs && c !in r.statuses :: own(c) == r.own(c)
    ensures var q := Step(r, Rekey(own));
            Good(Run(r, [Rekey(own)] + Announcements(cs))) <==> forall k | 0 <= k < |cs| :: Lands(q, cs, k)
  {
    var q := Step(r, Rekey(own));
    assert q == r.(own := own) && q.attached && NoDup(q.shown);
    hide *;
    CascadeIsRound(r, own, cs);
    FullRoundSorts(q, cs);
    RoundElements(q, cs);
    GoodIfListed(r, own, ReannounceAll(q, cs));
  }

  lemma GoodIfListed<C>(r: Room<C>, own: C -> int, p: Room<C>)
    requires Good(r) && p == r.(own := own, shown := p.shown) && forall c :: c in p.shown <==> c in r.shown
    ensures Good(p) <==> Listed(p)
  {
    hide Sorted, NoDup;
  }

  lemma CascadeIsRound<C>(r: Room<C>, own: C -> int, cs: seq<C>)
    requires Good(r) && NoDup(cs) && forall c | c in cs :: c in r.shown
    requires forall c | c in r.shown && c !in cs && c !in r.statuses :: own(c) == r.own(c)
    ensures var q := Step(r, Rekey(own));
            FullRound(q, cs) && Run(r, [Rekey(own)] + Announcements(cs)) == ReannounceAll(q, cs)
  {
    var q := Step(r, Rekey(own));
    assert ([Rekey(own)] + Announcements(cs))[1..] == Announcements(cs);
    RunIsRound(q, cs);
    UnchangedInOrder(r.shown, Among(cs), KeysOf(r), KeysOf(q));
    hide ReannounceAll, Sorted, NoDup, Drop;
  }

  lemma {:induction false} UnchangedInOrder<C>(s: seq<C>, cs: set<C>, before: C -> Key, after: C -> Key)
    requires Sorted(s, before) && forall c | c in s && c !in cs :: after(c) == before(c)
    ensures Sorted(Drop(s, cs), after)
  {
    hide *;
    if s == [] {
      NothingInOrder(s, cs, after);
    } else {
      HeadFirst(s, before);
      DropHead(s, cs);
      UnchangedInOrder(s[1..], cs, before, after);
      if s[0] !in cs {
        HeadInOrder(s[0], Drop(s[1..], cs), after);
      }
    }
  }

  lemma NothingInOrder<C>(s: seq<C>, cs: set<C>, key: C -> Key)
    requires s == []
    ensures Sorted(Drop(s, cs), key)
  {
  }

  lemma DropHead<T>(s: seq<T>, xs: set<T>)
    requires s != []
    ensures Drop(s, xs) == if s[0] in xs then Drop(s[1..], xs) else [s[0]] + Drop(s[1..], xs)
    ensures forall y | y in Drop(s[1..], xs) :: y in s[1..] && y !in xs
  {
  }

  lemma HeadInOrder<C>(x: C, t: seq<C>, key: C -> Key)
    requires Sorted(t, key) && forall y | y in t :: LessThan(key(x), key(y))
    ensures Sorted([x] + t, key)
  {
    hide LessThan;
  }

  lemma HeadFirst<C>(s: seq<C>, key: C -> Key)
    requires s != [] && Sorted(s, key)
    ensures Sorted(s[1..], key) && forall y | y in s[1..] :: LessThan(key(s[0]), key(y))
  {
    hide LessThan;
  }

  /** A round neither adds nor loses anybody. */
  lemma {:induction false} RoundElements<C>(q: Room<C>, cs: seq<C>)
    requires q.attached && NoDup(q.shown) && forall c | c in cs :: c in q.shown
    ensures var r := ReannounceAll(q, cs); r == q.(shown := r.shown) && forall c :: c in r.shown <==> c in q.shown
    decreases |cs|
  {
    ReannounceAllKeeps(q, cs);
    if cs != [] {
      var before, last := cs[..|cs| - 1], cs[|cs| - 1];
      RoundElements(q, before);
      var p := ReannounceAll(q, before);
      ReannounceAllKeeps(q, before);
      RemoveFirstIsWithout(p.shown, last);
      var rest := Without(p.shown, last);
      PutElements(rest, last, Halve(rest, KeysOf(p), KeysOf(p)(last), 0, |rest|));
      hide NoDup, Without, RemoveFirst, Halve;
    }
  }

  // ---------- whatever the order ----------

  /** In order without any one of those to be announced: then every round of exactly these leaves it sorted. */
  lemma EveryFullRoundSorts<C>(q: Room<C>, changed: set<C>, cs: seq<C>)
    requires FullRound(q, cs) && Among(cs) == changed && changed != {}
    requires forall c | c in changed :: Sorted(Without(q.shown, c), KeysOf(q))
    ensures Listed(ReannounceAll(q, cs))
  {
    assert cs != [] && cs[0] in changed;
    RoundSorts(q, cs);
    FirstInOrder(q, cs);
    hide *;
  }

  /**
    With three contacts shown or fewer, a round of all of them sorts the list, whatever order it was in.
    (With four it need not: Disconnection.)
   */
  lemma ThreeAreSorted<C>(q: Room<C>, cs: seq<C>)
    requires FullRound(q, cs) && |cs| == |q.shown| <= 3
    ensures Listed(ReannounceAll(q, cs))
  {
    hide *;
    if cs == [] {
      NobodyToSort(q, cs);
    } else {
      PrefixKeeps(q, cs);
      if |cs| < 3 {
        FewLeft(q, cs);
      } else {
        ThirdRest(q, cs);
      }
      LastSorts(q, cs);
    }
  }

  lemma NobodyToSort<C>(q: Room<C>, cs: seq<C>)
    requires FullRound(q, cs) && cs == [] && q.shown == []
    ensures Listed(ReannounceAll(q, cs))
  {
  }

  lemma PrefixKeeps<C>(q: Room<C>, cs: seq<C>)
    requires FullRound(q, cs)
    ensures q.attached && NoDup(q.shown) && NoDup(cs)
  {
  }

  lemma FewLeft<C>(q: Room<C>, cs: seq<C>)
    requires FullRound(q, cs) && 0 < |cs| == |q.shown| < 3
    ensures RestInOrder(q, cs, |cs| - 1)
  {
    var k := |cs| - 1;
    RoundLength(q, cs[..k]);
    RoundElements(q, cs[..k]);
    ReannounceAllKeeps(q, cs[..k]);
    assert cs[k] in cs;
    hide ReannounceAll, LessThan, Drop;
  }

  lemma {:induction false} RoundLength<C>(q: Room<C>, cs: seq<C>)
    requires q.attached && NoDup(q.shown) && forall c | c in cs :: c in q.shown
    ensures |ReannounceAll(q, cs).shown| == |q.shown|
    decreases |cs|
  {
    if cs != [] {
      var before, last := cs[..|cs| - 1], cs[|cs| - 1];
      RoundLength(q, before);
      RoundElements(q, before);
      ReannounceAllKeeps(q, before);
      RemoveFirstIsWithout(ReannounceAll(q, before).shown, last);
      hide NoDup, Without, RemoveFirst, Halve;
    }
  }

  /** Two contacts of three have been announced: they stand in order. */
  lemma ThirdRest<C>(q: Room<C>, cs: seq<C>)
    requires FullRound(q, cs) && |cs| == |q.shown| == 3
    ensures RestInOrder(q, cs, 2)
  {
    var x, y, z, key := cs[0], cs[1], cs[2], KeysOf(q);
    var start := Without(q.shown, x);
    TwoTurns(q, cs);
    AllThree(q.shown, x, y, z);
    TwoThenTwo(start[0], start[1], x, y, z, key);
    hide *;
    assert start == [start[0], start[1]];
    RestIs(q, cs);
  }

  lemma RestIs<C>(q: Room<C>, cs: seq<C>)
    requires |cs| == 3
    ensures RestInOrder(q, cs, 2) <==> Sorted(Without(ReannounceAll(q, cs[..2]).shown, cs[2]), KeysOf(q))
  {
    hide Sorted, Without, ReannounceAll;
  }

  lemma TwoTurns<C>(q: Room<C>, cs: seq<C>)
    requires FullRound(q, cs) && |cs| == |q.shown| == 3
    ensures NoDup(q.shown) && cs[0] in q.shown && cs[1] in q.shown && cs[2] in q.shown
    ensures cs[0] != cs[1] && cs[1] != cs[2] && cs[0] != cs[2]
    ensures var key := KeysOf(q);
            ReannounceAll(q, cs[..2]).shown == Put(Without(Put(Without(q.shown, cs[0]), cs[0], key), cs[1]), cs[1], key)
  {
    hide *;
    AllShown(q, cs);
    TurnIsPut(q, cs, 0);
    TurnIsPut(q, cs, 1);
  }

  lemma AllShown<C>(q: Room<C>, cs: seq<C>)
    requires FullRound(q, cs)
    ensures NoDup(q.shown) && ReannounceAll(q, cs[..0]).shown == q.shown
    ensures forall k | 0 <= k < |cs| :: cs[k] in q.shown
    ensures forall i, j | 0 <= i < j < |cs| :: cs[i] != cs[j]
  {
    assert cs[..0] == [];
    hide Sorted, Drop;
  }

  lemma TurnIsPut<C>(q: Room<C>, cs: seq<C>, k: nat)
    requires FullRound(q, cs) && k < |cs|
    ensures ReannounceAll(q, cs[..k + 1]).shown ==
            Put(Without(ReannounceAll(q, cs[..k]).shown, cs[k]), cs[k], KeysOf(q))
  {
    OneTurn(q, cs, k);
    hide FullRound, ReannounceAll, Without, Halve;
  }

  lemma AllThree<C>(s: seq<C>, x: C, y: C, z: C)
    requires NoDup(s) && |s| == 3 && x in s && y in s && z in s && x != y && y != z && x != z
    ensures var t := Without(s, x); t == [y, z] || t == [z, y]
  {
    var t := Without(s, x);
    assert |t| == 2 && y in t && z in t && t == [t[0], t[1]];
  }

  lemma PutIntoPair<C>(p: C, q: C, x: C, key: C -> Key)
    ensures Put([p, q], x, key) ==
            if LessThan(key(q), key(x)) then [p, q, x] else if LessThan(key(p), key(x)) then [p, x, q] else [x, p, q]
  {
    hide LessThan;
  }

  lemma TwoThenTwo<C>(p: C, q: C, x: C, y: C, z: C, key: C -> Key)
    requires (p == y && q == z) || (p == z && q == y)
    requires x != y && y != z && x != z
    ensures Sorted(Without(Put(Without(Put([p, q], x, key), y), y, key), z), key)
  {
    FirstTurn(p, q, x, y, z, key);
    SecondTurn(Without(Put([p, q], x, key), y), x, y, z, key);
    hide *;
  }

  lemma FirstTurn<C>(p: C, q: C, x: C, y: C, z: C, key: C -> Key)
    requires (p == y && q == z) || (p == z && q == y)
    requires x != y && y != z && x != z
    ensures var t := Without(Put([p, q], x, key), y); t == [z, x] || (t == [x, z] && LessThan(key(x), key(z)))
  {
    PutIntoPair(p, q, x, key);
    WithoutOfThree(Put([p, q], x, key), y);
    LessThanIsTotalOrder(key(x), key(z), key(y));
    hide LessThan, Put, Without;
  }

  lemma SecondTurn<C>(t: seq<C>, x: C, y: C, z: C, key: C -> Key)
    requires t == [z, x] || (t == [x, z] && LessThan(key(x), key(z)))
    requires x != y && y != z && x != z
    ensures Sorted(Without(Put(t, y, key), z), key)
  {
    PutIntoPair(t[0], t[1], y, key);
    WithoutOfThree(Put(t, y, key), z);
    LessThanIsTotalOrder(key(x), key(y), key(z));
    LessThanIsTotalOrder(key(x), key(z), key(y));
    hide LessThan, Put, Without;
  }

  lemma WithoutOfThree<C>(s: seq<C>, y: C)
    requires |s| == 3 && s[0] != s[1] && s[1] != s[2] && s[0] != s[2]
    ensures Without(s, y) == if y == s[0] then [s[1], s[2]] else if y == s[1] then [s[0], s[2]]
                             else if y == s[2] then [s[0], s[1]] else s
  {
    assert s == [s[0]] + ([s[1]] + [s[2]]);
    assert s[1..] == [s[1], s[2]] && s[1..][1..] == [s[2]];
    assert Without([s[2]], y) == if y == s[2] then [] else [s[2]];
  }

  /**
    So being in order without any one of the announced, which is enough, is not necessary: with keys in
    the order a, b, u the list b, a, u is sorted by every round of all three.
   */
  lemma NotNecessary<C>(q: Room<C>, a: C, b: C, u: C, cs: seq<C>)
    requires q.attached && q.shown == [b, a, u] && NoDup(q.shown) && !LessThan(KeysOf(q)(b), KeysOf(q)(a))
    requires FullRound(q, cs) && |cs| == 3
    ensures !Sorted(Without(q.shown, u), KeysOf(q))
    ensures Listed(ReannounceAll(q, cs))
  {
    ThreeAreSorted(q, cs);
    WithoutOfThree(q.shown, u);
    hide LessThan, ReannounceAll, FullRound;
  }
}
