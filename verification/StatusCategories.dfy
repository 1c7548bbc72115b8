/** Registering statuses, and choosing one for a category: the tree of categories is climbed by halving. */
module StatusCategories {
  import opened Basics
  import opened OnlineStatuses

  /** A status that was registered, with the set of its categories as a number: bit k stands for category k. */
  datatype Registered = Registered(status: OnlineStatus, categories: nat)

  function Pow2(k: nat): (p: nat)
    ensures p > 0
  {
    if k == 0 then 1 else 2 * Pow2(k - 1)
  }

  /** categories & (1 << k) */
  predicate HasBit(categories: nat, k: nat) {
    categories / Pow2(k) % 2 == 1
  }

  /** Bit 0 says whether the set is odd, and the others are the bits of the set shifted right by one. */
  lemma BitShifts(categories: nat, k: nat)
    ensures HasBit(categories, 0) <==> categories % 2 == 1
    ensures HasBit(categories, k + 1) <==> HasBit(categories / 2, k)
  {
    assert Pow2(0) == 1 && categories / 1 == categories;
    HalveMore(categories, Pow2(k));
  }

  /** From a category up to the root: each is half of the one before, and the climb ends before 0. */
  function Path(k: nat): (p: seq<nat>)
    ensures p != [] && p[0] == k
  {
    if k / 2 > 0 then [k] + Path(k / 2) else [k]
  }

  /** Each step of the climb halves, so the i-th category tried is the asked one shifted right i times. */
  lemma {:induction false} PathHalves(k: nat, i: nat)
    requires i < |Path(k)|
    ensures Path(k)[i] == k / Pow2(i)
    ensures k > 0 ==> Path(k)[i] > 0
  {
    if i > 0 {
      PathHalves(k / 2, i - 1);
      HalveMore(k, Pow2(i - 1));
    }
  }

  lemma HalveMore(k: nat, p: nat)
    requires p > 0
    ensures k / 2 / p == k / (2 * p)
  {
    var q := k / (2 * p);
    var r := k % (2 * p);
    assert k == 2 * p * q + r;
    assert k / 2 == p * q + r / 2;
    assert 0 <= r / 2 < p;
    QuotientIs(k / 2, p, q, r / 2);
  }

  lemma QuotientIs(n: nat, p: nat, q: nat, r: nat)
    requires p > 0 && n == p * q + r && r < p
    ensures n / p == q
  {
    var d := n / p - q;
    assert n == p * (n / p) + n % p;
    assert p * d == r - n % p;
    assert d >= 1 ==> p * d >= p * 1;
    assert d <= -1 ==> p * d <= p * -1;
  }

  /** Any category above Offline is under Online. */
  lemma {:induction false} PathEndsAtOnline(k: nat)
    requires k > 0
    ensures Path(k)[|Path(k)| - 1] == 1
  {
    if k / 2 > 0 {
      PathEndsAtOnline(k / 2);
    }
  }

  /** The first status, in the order of the protocol's map, that carries category k. */
  function FirstWith(registered: seq<Registered>, k: nat): Option<Registered> {
    if registered == [] then None
    else if HasBit(registered[0].categories, k) then Some(registered[0])
    else FirstWith(registered[1..], k)
  }

  lemma {:induction false} FirstWithMeans(registered: seq<Registered>, k: nat)
    ensures FirstWith(registered, k) == None <==> forall s | s in registered :: !HasBit(s.categories, k)
    ensures FirstWith(registered, k).Some? ==>
              exists i | 0 <= i < |registered| ::
                registered[i] == FirstWith(registered, k).value && HasBit(registered[i].categories, k)
                && forall j | 0 <= j < i :: !HasBit(registered[j].categories, k)
  {
    if registered != [] && !HasBit(registered[0].categories, k) {
      var rest := registered[1..];
      FirstWithMeans(rest, k);
      assert registered == [registered[0]] + rest;
      if FirstWith(rest, k).Some? {
        var i :| 0 <= i < |rest| && rest[i] == FirstWith(rest, k).value && HasBit(rest[i].categories, k)
          && forall j | 0 <= j < i :: !HasBit(rest[j].categories, k);
        assert registered[i + 1] == rest[i];
        assert forall j | 0 < j < i + 1 :: registered[j] == rest[j - 1];
      }
    }
  }

  /** The answer comes from the nearest category on the path that has a status at all. */
  ghost predicate Nearest(registered: seq<Registered>, path: seq<nat>, r: Option<Registered>) {
    if r == None then forall i | 0 <= i < |path| :: FirstWith(registered, path[i]) == None
    else exists i | 0 <= i < |path| ::
           FirstWith(registered, path[i]) == r && forall j | 0 <= j < i :: FirstWith(registered, path[j]) == None
  }

  /** The highest bit of a request. */
  ghost function HighestBit(category: nat): (k: nat)
    requires category > 0
  {
    if category == 1 then 0 else 1 + HighestBit(category / 2)
  }

  lemma {:induction false} HighestBitIs(category: nat, k: nat)
    requires category > 0
    ensures HighestBit(category) == k <==> Pow2(k) <= category < Pow2(k + 1)
    decreases category
  {
    if category > 1 && k > 0 {
      HighestBitIs(category / 2, k - 1);
    }
    if category == 1 && k > 0 {
      assert Pow2(k) >= 2;
    }
  }

  /** The first loop of onlineStatus: the logarithm of the request. */
  method Logarithm(category: nat) returns (bit: nat)
    requires category > 0
    ensures bit == HighestBit(category)
  {
    var n: int := -1;
    var rest := category;
    while rest != 0
      invariant n >= -1 && Pow2(n + 1) * rest <= category < Pow2(n + 1) * (rest + 1)
      invariant rest == 0 ==> n >= 0 && Pow2(n) <= category
    {
      HalfStays(Pow2(n + 1), rest, category);
      rest := rest / 2;
      n := n + 1;
    }
    bit := n;
    HighestBitIs(category, bit);
  }

  /** The inner loop of onlineStatus. */
  method Find(registered: seq<Registered>, bit: nat) returns (r: Option<Registered>)
    ensures r == FirstWith(registered, bit)
  {
    r := None;
    for it := 0 to |registered|
      invariant FirstWith(registered, bit) == FirstWith(registered[it..], bit)
    {
      if HasBit(registered[it].categories, bit) {
        return Some(registered[it]);
      }
      assert registered[it..][1..] == registered[it + 1..];
    }
  }

  /** The climb of OnlineStatusManager::onlineStatus; None is the empty status. */
  method Choose(registered: seq<Registered>, category: nat) returns (r: Option<Registered>)
    requires 0 < category < UINT_RANGE
    ensures Nearest(registered, Path(HighestBit(category)), r)
  {
    var bit := Logarithm(category);
    ghost var path := Path(bit);
    ghost var done: seq<nat> := [];
    var going := true;
    hide FirstWith, HighestBit;
    while going
      invariant path == if going then done + Path(bit) else done
      invariant forall j | 0 <= j < |done| :: FirstWith(registered, done[j]) == None
      decreases going, bit
    {
      r := Find(registered, bit);
      assert path[|done|] == bit;
      if r.Some? {
        return;
      }
      done := done + [bit];
      going := bit / 2 > 0;
      bit := bit / 2;
    }
    r := None;
  }

  lemma HalfStays(p: nat, rest: nat, n: nat)
    requires p * rest <= n < p * (rest + 1)
    ensures 2 * p * (rest / 2) <= n < 2 * p * (rest / 2 + 1)
    ensures rest == 1 ==> p <= n
  {
    var h := rest / 2;
    assert 2 * p * h == p * (2 * h) && 2 * p * (h + 1) == p * (2 * h + 2);
    assert p * (2 * h) <= p * rest && p * (rest + 1) <= p * (2 * h + 2);
  }

  /** A request above Offline is never answered by what is registered for Offline alone. */
  lemma NeverOffline(registered: seq<Registered>, highest: nat, r: Option<Registered>)
    requires highest > 0 && Nearest(registered, Path(highest), r) && r.Some?
    ensures exists k | 0 < k <= highest :: HasBit(r.value.categories, k) && k in Path(highest)
  {
    var path := Path(highest);
    var i :| 0 <= i < |path| && FirstWith(registered, path[i]) == r;
    PathHalves(highest, i);
    FirstWithMeans(registered, path[i]);
    PathFalls(highest, i);
    assert path[i] in path;
  }

  lemma {:induction false} PathFalls(k: nat, i: nat)
    requires i < |Path(k)|
    ensures Path(k)[i] <= k
  {
    if i > 0 {
      PathFalls(k / 2, i - 1);
    }
  }

  /** There is only one nearest answer. */
  lemma NearestIsOne(registered: seq<Registered>, path: seq<nat>, a: Option<Registered>, b: Option<Registered>)
    requires Nearest(registered, path, a) && Nearest(registered, path, b)
    ensures a == b
  {
    if a != None && b != None {
      var i :| 0 <= i < |path| && FirstWith(registered, path[i]) == a
        && forall j | 0 <= j < i :: FirstWith(registered, path[j]) == None;
      var k :| 0 <= k < |path| && FirstWith(registered, path[k]) == b
        && forall j | 0 <= j < k :: FirstWith(registered, path[j]) == None;
      assert i == k;
    }
  }

  // ---------- what is registered ----------

  /** operator<, the order of the protocol's map. */
  predicate Before(a: Registered, b: Registered) {
    b.status.Above(a.status)
  }

  /** The map takes two statuses of equal type and weight for one key. */
  predicate Ties(a: Registered, b: Registered) {
    a.status.status == b.status.status && a.status.weight == b.status.weight
  }

  lemma TiesAreUnordered(a: Registered, b: Registered, c: Registered)
    ensures Ties(a, b) <==> !Before(a, b) && !Before(b, a)
    ensures Before(a, b) && Before(b, c) ==> Before(a, c)
    ensures Ties(a, b) && Before(b, c) ==> Before(a, c)
    ensures Before(a, b) && Ties(b, c) ==> Before(a, c)
  {
    AboveIsStrictWeakOrder(a.status, b.status, c.status);
    AboveIsStrictWeakOrder(b.status, c.status, a.status);
    AboveIsStrictWeakOrder(c.status, b.status, a.status);
  }

  /** QMap::insert of a key: a key that is there already stays as it is. */
  function Inserted(m: seq<Registered>, s: Registered): seq<Registered> {
    if m == [] then [s]
    else if Before(s, m[0]) then [s] + m
    else if Before(m[0], s) then [m[0]] + Inserted(m[1..], s)
    else m
  }

  ghost predicate Ordered(m: seq<Registered>) {
    forall i, j | 0 <= i < j < |m| :: Before(m[i], m[j])
  }

  /** An insertion into an ordered map keeps it ordered, and adds the key unless it ties with one there. */
  lemma {:induction false} InsertedIs(m: seq<Registered>, s: Registered)
    requires Ordered(m)
    ensures Ordered(Inserted(m, s))
    ensures forall x :: x in Inserted(m, s) <==> x in m || (x == s && forall y | y in m :: !Ties(y, s))
  {
    if m != [] {
      var rest := m[1..];
      assert m == [m[0]] + rest;
      TiesAreUnordered(m[0], s, s);
      InsertedIs(rest, s);
      forall y | y in rest
        ensures Before(m[0], y) && (Before(s, m[0]) ==> !Ties(y, s)) && (Ties(m[0], s) ==> Before(s, y) && !Ties(y, s))
      {
        TiesAreUnordered(s, m[0], y);
        TiesAreUnordered(y, s, s);
        TiesAreUnordered(m[0], s, s);
      }
    }
  }

  /** The map of a protocol after these registrations. */
  function Content(regs: seq<Registered>): seq<Registered>
    decreases |regs|
  {
    if regs == [] then [] else Inserted(Content(regs[..|regs| - 1]), regs[|regs| - 1])
  }

  /** A registration that the map keeps: the first of its status type and weight. */
  ghost predicate Survives(regs: seq<Registered>, i: nat)
    requires i < |regs|
  {
    forall j | 0 <= j < i :: !Ties(regs[j], regs[i])
  }

  ghost predicate Kept(regs: seq<Registered>, s: Registered) {
    exists i :: 0 <= i < |regs| && regs[i] == s && Survives(regs, i)
  }

  /** The map is ordered and holds exactly the first registration of each status type and weight. */
  lemma {:induction false} FirstOfATieStays(regs: seq<Registered>)
    ensures Ordered(Content(regs))
    ensures forall s :: s in Content(regs) <==> Kept(regs, s)
    decreases |regs|
  {
    if regs != [] {
      var rest, last := regs[..|regs| - 1], regs[|regs| - 1];
      FirstOfATieStays(rest);
      InsertedIs(Content(rest), last);
      forall i | 0 <= i < |rest| ensures Survives(regs, i) == Survives(rest, i) && regs[i] == rest[i] {
      }
      LastSurvives(regs);
      forall s ensures s in Content(regs) <==> Kept(regs, s) {
        KeptStep(regs, s);
      }
    }
  }

  lemma KeptStep(regs: seq<Registered>, s: Registered)
    requires regs != []
    ensures var n := |regs| - 1; Kept(regs, s) <==> Kept(regs[..n], s) || (s == regs[n] && Survives(regs, n))
  {
    var n := |regs| - 1;
    assert forall i | 0 <= i < n :: Survives(regs, i) == Survives(regs[..n], i) && regs[i] == regs[..n][i];
  }

  /** Everything registered ties with something kept. */
  lemma {:induction false} TiesWithKept(regs: seq<Registered>, i: nat)
    requires i < |regs|
    ensures exists s :: Kept(regs, s) && Ties(s, regs[i])
  {
    if Survives(regs, i) {
      assert Kept(regs, regs[i]);
    } else {
      var j :| 0 <= j < i && Ties(regs[j], regs[i]);
      TiesWithKept(regs, j);
    }
  }

  lemma LastSurvives(regs: seq<Registered>)
    requires regs != []
    ensures var n := |regs| - 1; Survives(regs, n) <==> forall s | Kept(regs[..n], s) :: !Ties(s, regs[n])
  {
    var n := |regs| - 1;
    var rest := regs[..n];
    if j :| 0 <= j < n && Ties(regs[j], regs[n]) {
      TiesWithKept(rest, j);
    }
    forall s | Kept(rest, s) && Survives(regs, n) ensures !Ties(s, regs[n]) {
      var i :| 0 <= i < n && rest[i] == s && Survives(rest, i);
      assert regs[i] == s;
    }
  }

  /** The registered statuses, per protocol. */
  class OnlineStatusManager {
    var registeredStatus: map<nat, seq<Registered>>

    constructor ()
      ensures forall p :: Of(p) == []
    {
      registeredStatus := map[];
    }

    function Of(protocol: nat): seq<Registered>
      reads this
    {
      if protocol in registeredStatus then registeredStatus[protocol] else []
    }

    /** registerOnlineStatus, which every status built with categories calls. */
    method RegisterOnlineStatus(s: Registered)
      modifies this
      ensures Of(s.status.protocol) == Inserted(old(Of(s.status.protocol)), s)
      ensures forall p | p != s.status.protocol :: Of(p) == old(Of(p))
    {
      registeredStatus := registeredStatus[s.status.protocol := Inserted(Of(s.status.protocol), s)];
    }

    /** Registrations in a row. */
    method RegisterAll(regs: seq<Registered>)
      requires forall p :: Of(p) == []
      modifies this
      ensures forall p :: Of(p) == Content(OfProtocol(regs, p))
    {
      for i := 0 to |regs|
        invariant forall p :: Of(p) == Content(OfProtocol(regs[..i], p))
      {
        assert regs[..i + 1][..i] == regs[..i];
        RegisterOnlineStatus(regs[i]);
      }
      assert regs[..|regs|] == regs;
    }

    /** onlineStatus: the climb over what the protocol has registered. */
    method OnlineStatus(protocol: nat, category: nat) returns (r: Option<Registered>)
      requires 0 < category < UINT_RANGE
      ensures Nearest(Of(protocol), Path(HighestBit(category)), r)
    {
      r := Choose(Of(protocol), category);
    }
  }

  /** The registrations of one protocol. */
  ghost function OfProtocol(regs: seq<Registered>, protocol: nat): (r: seq<Registered>)
    decreases |regs|
  {
    if regs == [] then []
    else
      var rest, last := regs[..|regs| - 1], regs[|regs| - 1];
      if last.status.protocol == protocol then OfProtocol(rest, protocol) + [last] else OfProtocol(rest, protocol)
  }

  /** Every request above Offline is answered exactly if a registration that survives carries Online. */
  lemma OnlineAnswersAll(regs: seq<Registered>)
    ensures (forall highest: nat, r | highest > 0 && Nearest(Content(regs), Path(highest), r) :: r.Some?)
            <==> exists i :: 0 <= i < |regs| && Survives(regs, i) && HasBit(regs[i].categories, 1)
  {
    FirstOfATieStays(regs);
    FirstWithMeans(Content(regs), 1);
    if i :| 0 <= i < |regs| && Survives(regs, i) && HasBit(regs[i].categories, 1) {
      assert Kept(regs, regs[i]);
      forall highest: nat, r | highest > 0 && Nearest(Content(regs), Path(highest), r) ensures r.Some? {
        PathEndsAtOnline(highest);
      }
    } else {
      assert Path(1) == [1];
      assert Nearest(Content(regs), Path(1), None);
    }
  }

  /**
    Among the kept registrations of the nearest category that has any, the one with the lowest status type
    answers, and among those of that type the one with the least weight.
   */
  lemma LowestAnswers(regs: seq<Registered>, path: seq<nat>, r: Registered)
    requires Nearest(Content(regs), path, Some(r))
    ensures Kept(regs, r)
    ensures exists i :: 0 <= i < |path| && HasBit(r.categories, path[i])
              && (forall s, j | Kept(regs, s) && 0 <= j < i :: !HasBit(s.categories, path[j]))
              && (forall s | Kept(regs, s) && HasBit(s.categories, path[i]) ::
                    || s == r || Rank(r.status.status) < Rank(s.status.status)
                    || (r.status.status == s.status.status && r.status.weight < s.status.weight))
  {
    var m := Content(regs);
    FirstOfATieStays(regs);
    var i :| 0 <= i < |path| && FirstWith(m, path[i]) == Some(r)
      && forall j | 0 <= j < i :: FirstWith(m, path[j]) == None;
    FirstWithMeans(m, path[i]);
    forall s, j | Kept(regs, s) && 0 <= j < i ensures !HasBit(s.categories, path[j]) {
      FirstWithMeans(m, path[j]);
      assert FirstWith(m, path[j]) == None && s in m;
    }
    forall s | Kept(regs, s) && HasBit(s.categories, path[i]) && s != r
      ensures || Rank(r.status.status) < Rank(s.status.status)
              || (r.status.status == s.status.status && r.status.weight < s.status.weight)
    {
      assert s in m;
      assert Before(r, s);
    }
    hide Kept, Content, FirstWith, HasBit;
  }

  /** A status registered for Online after a tie that is not leaves a request for Online unanswered. */
  lemma TieHidesOnline(a: Registered, b: Registered, r: Option<Registered>)
    requires Ties(a, b) && !HasBit(a.categories, 1) && HasBit(b.categories, 1)
    requires Nearest(Content([a, b]), Path(1), r)
    ensures r == None
  {
    var regs := [a, b];
    assert Ties(regs[0], regs[1]);
    FirstOfATieStays(regs);
    forall s | Kept(regs, s) ensures s == a {
      var i :| 0 <= i < |regs| && regs[i] == s && Survives(regs, i);
      assert i == 0;
    }
    FirstWithMeans(Content(regs), 1);
    assert Path(1) == [1];
  }
}
