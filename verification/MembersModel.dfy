/** The sorted list of a chat's members, kept by the signals of the chat session. */
module MembersModel {
  import opened Lists
  import opened MemberOrder

  /** What a contact is sorted by: the status the session holds for it, else its own; and its name. */
  function Keys<C(==)>(statuses: map<C, int>, own: C -> int, names: C -> Name): C -> Key {
    c => Key(if c in statuses then statuses[c] else own(c), names(c))
  }

  /** QList::removeAt(indexOf(x)), nothing when x is not there. */
  function RemoveFirst<C(==)>(s: seq<C>, x: C): seq<C> {
    if s == [] then [] else if s[0] == x then s[1..] else [s[0]] + RemoveFirst(s[1..], x)
  }

  /** A chat session and the list shown for it. */
  datatype Room<!C> = Room(
    myself: C,
    members: seq<C>,
    isEmpty: bool,
    statuses: map<C, int>,
    own: C -> int,
    names: C -> Name,
    closing: bool,
    attached: bool,
    shown: seq<C>)

  /**
    What can happen to a room. Rekey is the silent half of an account's connecting or disconnecting: what
    its contacts' own statuses weigh changes for all of them at once, before the first of them announces
    itself again (Reannounce).
   */
  datatype Event<!C> =
    | Attach
    | Add(contact: C)
    | AddWithStatus(contact: C, weight: int)
    | Remove(contact: C)
    | Destroyed(contact: C)
    | OwnStatus(contact: C, weight: int)
    | SessionStatus(contact: C, weight: int)
    | Rekey(own: C -> int)
    | Reannounce(contact: C)
    | Rename(contact: C, name: Name)

  function KeysOf<C(==)>(r: Room<C>): C -> Key {
    Keys(r.statuses, r.own, r.names)
  }

  function Show<C(==)>(r: Room<C>, c: C): Room<C> {
    if r.attached then r.(shown := Put(r.shown, c, KeysOf(r))) else r
  }

  function Hide<C(==)>(r: Room<C>, c: C): Room<C> {
    if r.attached then r.(shown := RemoveFirst(r.shown, c)) else r
  }

  function Reposition<C(==)>(r: Room<C>, c: C): Room<C> {
    Show(Hide(r, c), c)
  }

  function AddMember<C(==)>(r: Room<C>, c: C): Room<C> {
    if c in r.members then r.(isEmpty := false)
    else if |r.members| == 1 && r.isEmpty then Hide(Show(r.(members := [c], isEmpty := false), c), r.members[0])
    else Show(r.(members := r.members + [c], isEmpty := false), c)
  }

  /** onlineStatusChanged of a contact reaches the session for its members and for the user. */
  function Announce<C(==)>(r: Room<C>, c: C): Room<C> {
    if c in r.members || c == r.myself then Reposition(r, c) else r
  }

  function Step<C(==)>(r: Room<C>, e: Event<C>): Room<C> {
    match e
    case Attach => r.(attached := true, shown := Put(StableSort(r.members, KeysOf(r)), r.myself, KeysOf(r)))
    case Add(c) => AddMember(r, c)
    case AddWithStatus(c, w) => AddMember(if c in r.statuses then r else r.(statuses := r.statuses[c := w]), c)
    case Remove(c) =>
      if c !in r.members then r
      else
        var kept := if |r.members| == 1 then r.(isEmpty := true) else r.(members := Without(r.members, c));
        Hide(kept.(statuses := r.statuses - {c}), c)
    case Destroyed(c) =>
      if c !in r.members then r
      else
        var q := Hide(r.(members := Without(r.members, c)), c);
        if q.members == [] then q.(closing := true) else q
    case OwnStatus(c, w) => Announce(r.(own := x => if x == c then w else r.own(x)), c)
    case SessionStatus(c, w) => Reposition(r.(statuses := r.statuses[c := w]), c)
    case Rekey(own) => r.(own := own)
    case Reannounce(c) => Announce(r, c)
    case Rename(c, n) =>
      var q := r.(names := x => if x == c then n else r.names(x));
      if c in r.members then Reposition(q, c) else q
  }

  function Run<C(==)>(r: Room<C>, es: seq<Event<C>>): Room<C>
    decreases es
  {
    if es == [] then r else Run(Step(r, es[0]), es[1..])
  }

  ghost predicate Proper<C>(r: Room<C>) {
    NoDup(r.members) && r.myself !in r.members
  }

  ghost predicate Contained<C>(r: Room<C>) {
    forall c | c in r.shown :: c in r.members || c == r.myself
  }

  /** At most one member is missing from the list: the one whose removal was announced but not done. */
  ghost predicate OneHidden<C>(r: Room<C>) {
    forall c, d | c in r.members && d in r.members && c !in r.shown && d !in r.shown :: c == d
  }

  ghost predicate Good<C>(r: Room<C>) {
    && Proper(r) && r.attached
    && Sorted(r.shown, KeysOf(r)) && NoDup(r.shown)
    && Contained(r) && r.myself in r.shown && OneHidden(r)
  }

  /**
    The events that change the sort key of at most the contact they name, and then announce it, for
    contacts that belong in the list.
   */
  ghost predicate Announced<C>(r: Room<C>, e: Event<C>) {
    match e
    case Add(c) => c != r.myself
    case AddWithStatus(c, w) => c != r.myself && (c in r.members && c !in r.statuses ==> w == r.own(c))
    case SessionStatus(c, w) => c in r.members || c == r.myself
    case Rename(c, n) => c != r.myself || n == r.names(c)
    case Rekey(own) => forall c | c in r.shown && c !in r.statuses :: own(c) == r.own(c)
    case _ => true
  }

  ghost predicate AllAnnounced<C>(r: Room<C>, es: seq<Event<C>>)
    decreases es
  {
    es == [] || (Announced(r, es[0]) && AllAnnounced(Step(r, es[0]), es[1..]))
  }

  // ---------- what an event decides besides the list ----------

  /** Which parts of a room the steps' building blocks change. */
  lemma OnlyLists<C>(r: Room<C>, c: C)
    ensures Hide(r, c) == r.(shown := Hide(r, c).shown)
    ensures Reposition(r, c) == r.(shown := Reposition(r, c).shown)
    ensures Announce(r, c) == r.(shown := Announce(r, c).shown)
    ensures var q := AddMember(r, c); q == r.(members := q.members, isEmpty := false, shown := q.shown)
  {
    hide Put, RemoveFirst, KeysOf;
  }

  /**
    The session holds a status for a contact from when one is set, or given while it holds none, until
    the contact is removed; a removal of the only member, which stays one, forgets it as well.
   */
  lemma StatusHeld<C>(r: Room<C>, e: Event<C>, c: C)
    ensures var q := Step(r, e);
            && (c in q.statuses <==>
                  || (e.SessionStatus? && e.contact == c)
                  || (e.AddWithStatus? && e.contact == c)
                  || (c in r.statuses && !(e == Remove(c) && c in r.members)))
            && (e.SessionStatus? && e.contact == c ==> q.statuses[c] == e.weight)
            && (e.AddWithStatus? && e.contact == c && c !in r.statuses ==> q.statuses[c] == e.weight)
            && (c in r.statuses && c in q.statuses && !(e.SessionStatus? && e.contact == c) ==>
                  q.statuses[c] == r.statuses[c])
  {
    hide AddMember, Hide, Reposition, Announce, Put, StableSort, KeysOf, Without;
    match e
    case Add(x) => OnlyLists(r, x);
    case AddWithStatus(x, w) => OnlyLists(if x in r.statuses then r else r.(statuses := r.statuses[x := w]), x);
    case Remove(x) =>
      OnlyLists(r.(isEmpty := true, statuses := r.statuses - {x}), x);
      OnlyLists(r.(members := Without(r.members, x), statuses := r.statuses - {x}), x);
    case Destroyed(x) => OnlyLists(r.(members := Without(r.members, x)), x);
    case OwnStatus(x, w) => OnlyLists(r.(own := y => if y == x then w else r.own(y)), x);
    case SessionStatus(x, w) => OnlyLists(r.(statuses := r.statuses[x := w]), x);
    case Reannounce(x) => OnlyLists(r, x);
    case Rename(x, n) => OnlyLists(r.(names := y => if y == x then n else r.names(y)), x);
    case _ =>
  }

  /**
    Who is a member: one that is added; and one that was, unless it is destroyed, removed from among
    others, or was kept in an empty session until somebody is added. The session counts as empty from the
    removal of its only member to the next addition, and closes when its only member is destroyed.
   */
  lemma MembersAfter<C>(r: Room<C>, e: Event<C>, c: C)
    requires NoDup(r.members)
    ensures var q, adds := Step(r, e), e.Add? || e.AddWithStatus?;
            && (c in q.members <==>
                  || (adds && e.contact == c)
                  || (c in r.members && e != Destroyed(c) && (e == Remove(c) ==> r.members == [c])
                      && !(adds && e.contact !in r.members && |r.members| == 1 && r.isEmpty)))
            && (q.isEmpty <==> (e.Remove? && r.members == [e.contact]) || (r.isEmpty && !adds))
            && (q.closing <==> r.closing || (e.Destroyed? && r.members == [e.contact]))
            && q.myself == r.myself
  {
    StepMembers(r, e);
    if |r.members| == 1 {
      assert r.members == [r.members[0]];
    }
    if e.Remove? && |r.members| > 1 {
      assert r.members[0] != r.members[1];
    }
    if e.Destroyed? && e.contact in r.members {
      WithoutOnly(r.members, e.contact);
    }
    hide Step, NoDup;
  }

  /** The members an event leaves, in their order. */
  lemma StepMembers<C>(r: Room<C>, e: Event<C>)
    ensures var q, adds := Step(r, e), e.Add? || e.AddWithStatus?;
            && q.members == (if adds then
                               if e.contact in r.members then r.members
                               else if |r.members| == 1 && r.isEmpty then [e.contact] else r.members + [e.contact]
                             else if (e.Remove? && |r.members| != 1) || e.Destroyed? then Without(r.members, e.contact)
                             else r.members)
            && q.isEmpty == (!adds && (r.isEmpty || (e.Remove? && e.contact in r.members && |r.members| == 1)))
            && q.closing == (r.closing || (e.Destroyed? && e.contact in r.members && q.members == []))
            && q.myself == r.myself
  {
    hide AddMember, Hide, Reposition, Announce, Put, StableSort, KeysOf;
    if (e.Remove? || e.Destroyed?) && e.contact !in r.members {
      NobodyGoes(r.members, e.contact);
    }
    match e
    case Add(x) => AddedMembers(r, x);
    case AddWithStatus(x, w) => AddedMembers(if x in r.statuses then r else r.(statuses := r.statuses[x := w]), x);
    case Remove(x) =>
      OnlyLists(r.(isEmpty := true, statuses := r.statuses - {x}), x);
      OnlyLists(r.(members := Without(r.members, x), statuses := r.statuses - {x}), x);
    case Destroyed(x) => OnlyLists(r.(members := Without(r.members, x)), x);
    case OwnStatus(x, w) => OnlyLists(r.(own := y => if y == x then w else r.own(y)), x);
    case SessionStatus(x, w) => OnlyLists(r.(statuses := r.statuses[x := w]), x);
    case Reannounce(x) => OnlyLists(r, x);
    case Rename(x, n) => OnlyLists(r.(names := y => if y == x then n else r.names(y)), x);
    case _ =>
  }

  lemma NobodyGoes<C>(s: seq<C>, x: C)
    requires x !in s
    ensures Without(s, x) == s
  {
  }

  lemma AddedMembers<C>(r: Room<C>, c: C)
    ensures var q := AddMember(r, c);
            && q == r.(members := q.members, isEmpty := false, shown := q.shown)
            && q.members == if c in r.members then r.members
                            else if |r.members| == 1 && r.isEmpty then [c] else r.members + [c]
  {
    hide Put, RemoveFirst, KeysOf;
  }

  lemma WithoutOnly<C>(s: seq<C>, x: C)
    requires NoDup(s) && x in s
    ensures Without(s, x) == [] <==> s == [x]
  {
    if Without(s, x) == [] {
      assert forall i | 0 <= i < |s| :: s[i] in s && s[i] == x;
    }
  }

  /** Whose own status and name change, and to what. */
  lemma NamesAndStatusesAfter<C>(r: Room<C>, e: Event<C>, c: C)
    ensures var q := Step(r, e);
            && q.own(c) == (if e.OwnStatus? && e.contact == c then e.weight
                            else if e.Rekey? then e.own(c) else r.own(c))
            && q.names(c) == (if e.Rename? && e.contact == c then e.name else r.names(c))
  {
    hide AddMember, Hide, Reposition, Announce, Put, StableSort, KeysOf, Without;
    match e
    case Add(x) => OnlyLists(r, x);
    case AddWithStatus(x, w) => OnlyLists(if x in r.statuses then r else r.(statuses := r.statuses[x := w]), x);
    case Remove(x) =>
      OnlyLists(r.(isEmpty := true, statuses := r.statuses - {x}), x);
      OnlyLists(r.(members := Without(r.members, x), statuses := r.statuses - {x}), x);
    case Destroyed(x) => OnlyLists(r.(members := Without(r.members, x)), x);
    case OwnStatus(x, w) => OnlyLists(r.(own := y => if y == x then w else r.own(y)), x);
    case SessionStatus(x, w) => OnlyLists(r.(statuses := r.statuses[x := w]), x);
    case Reannounce(x) => OnlyLists(r, x);
    case Rename(x, n) => OnlyLists(r.(names := y => if y == x then n else r.names(y)), x);
    case _ =>
  }

  // ---------- one insertion and one removal ----------

  lemma {:induction false} RemoveFirstIsWithout<C>(s: seq<C>, x: C)
    requires NoDup(s)
    ensures RemoveFirst(s, x) == Without(s, x)
  {
    if s != [] {
      assert s == [s[0]] + s[1..];
      assert NoDup(s[1..]) && s[0] !in s[1..];
      RemoveFirstIsWithout(s[1..], x);
    }
  }

  lemma {:induction false} WithoutSorted<C>(s: seq<C>, x: C, key: C -> Key)
    requires Sorted(s, key)
    ensures Sorted(Without(s, x), key)
  {
    if s != [] {
      assert Sorted(s[1..], key);
      WithoutSorted(s[1..], x, key);
      var t := Without(s[1..], x);
      forall i | 0 <= i < |t| ensures LessThan(key(s[0]), key(t[i])) {
        assert t[i] in t;
        var j :| 0 <= j < |s[1..]| && s[1..][j] == t[i];
        assert s[j + 1] == t[i];
      }
    }
  }

  lemma SortedAgrees<C>(s: seq<C>, key: C -> Key, other: C -> Key)
    requires Sorted(s, key) && forall c | c in s :: key(c) == other(c)
    ensures Sorted(s, other)
  {
    forall i, j | 0 <= i < j < |s| ensures LessThan(other(s[i]), other(s[j])) {
      assert s[i] in s && s[j] in s;
      assert LessThan(key(s[i]), key(s[j]));
    }
  }

  lemma PutKeeps<C>(s: seq<C>, x: C, key: C -> Key)
    requires Sorted(s, key)
    ensures Sorted(Put(s, x, key), key)
    ensures forall c :: c in Put(s, x, key) <==> c in s || c == x
    ensures NoDup(s) ==> (NoDup(Put(s, x, key)) <==> x !in s)
  {
    PutIsInsert(s, x, key);
    InsertSorted(s, x, key);
    var i := Halve(s, key, key(x), 0, |s|);
    PutElements(s, x, i);
    hide *;
  }

  lemma PutElements<C>(s: seq<C>, x: C, i: nat)
    requires i <= |s|
    ensures forall c :: c in s[..i] + [x] + s[i..] <==> c in s || c == x
    ensures NoDup(s) ==> (NoDup(s[..i] + [x] + s[i..]) <==> x !in s)
  {
    var r := s[..i] + [x] + s[i..];
    assert s == s[..i] + s[i..];
    PutMultiset(s, x, i, r);
    SameElements([x] + s, r);
    SameElements(r, [x] + s);
    ConsNoDup(s, x);
  }

  lemma ConsNoDup<C>(s: seq<C>, x: C)
    ensures NoDup([x] + s) <==> NoDup(s) && x !in s
  {
    var r := [x] + s;
    assert r[0] == x && forall j | 0 <= j < |s| :: s[j] == r[j + 1];
    assert NoDup(r) ==> forall j | 0 <= j < |s| :: r[0] != s[j];
  }

  lemma PutMultiset<C>(s: seq<C>, x: C, i: nat, r: seq<C>)
    requires i <= |s| && r == s[..i] + [x] + s[i..]
    ensures multiset(r) == multiset([x] + s)
  {
    assert s == s[..i] + s[i..];
  }

  // ---------- the invariant ----------

  lemma AttachIsGood<C>(r: Room<C>)
    requires Proper(r)
    ensures Good(Step(r, Attach))
    ensures forall c | c in r.members :: c in Step(r, Attach).shown
  {
    var s := StableSort(r.members, KeysOf(r));
    StableSortIsStableSort(r.members, KeysOf(r));
    SameElements(r.members, s);
    PutKeeps(s, r.myself, KeysOf(r));
    var q := Step(r, Attach);
    assert KeysOf(q) == KeysOf(r) && q.shown == Put(s, r.myself, KeysOf(r)) && q.members == r.members;
    hide KeysOf, Put, Sorted, NoDup, StableSort, Step;
  }

  ghost predicate Listed<C>(r: Room<C>) {
    r.attached && Sorted(r.shown, KeysOf(r)) && NoDup(r.shown)
  }

  lemma HideKeeps<C>(r: Room<C>, c: C)
    requires Listed(r)
    ensures Hide(r, c) == r.(shown := Without(r.shown, c)) && Listed(Hide(r, c))
  {
    RemoveFirstIsWithout(r.shown, c);
    WithoutSorted(r.shown, c, KeysOf(r));
  }

  lemma ShowKeeps<C>(r: Room<C>, c: C)
    requires Listed(r)
    ensures Show(r, c) == r.(shown := Put(r.shown, c, KeysOf(r)))
    ensures forall d :: d in Show(r, c).shown <==> d in r.shown || d == c
    ensures Listed(Show(r, c)) <==> c !in r.shown
  {
    PutKeeps(r.shown, c, KeysOf(r));
  }

  /** Whatever happens to the key of c, taking c out and putting it back restores the order. */
  lemma RepositionKeeps<C>(r: Room<C>, q: Room<C>, c: C)
    requires Listed(r) && q.attached && q.shown == r.shown
    requires forall d | d in r.shown && d != c :: KeysOf(q)(d) == KeysOf(r)(d)
    ensures Reposition(q, c) == q.(shown := Reposition(q, c).shown) && Listed(Reposition(q, c))
    ensures forall d :: d in Reposition(q, c).shown <==> d in r.shown || d == c
  {
    HideKeeps(r, c);
    RemoveFirstIsWithout(r.shown, c);
    var h := Hide(q, c);
    assert h == q.(shown := Without(r.shown, c));
    SortedAgrees(h.shown, KeysOf(r), KeysOf(h));
    ShowKeeps(h, c);
  }

  /** Adding keeps the list good exactly when the newcomer is not the user, who is shown already. */
  lemma AddKeepsGood<C>(r: Room<C>, c: C)
    requires Good(r)
    ensures c != r.myself ==> Good(AddMember(r, c))
    ensures NoDup(AddMember(r, c).shown) <==> c != r.myself
  {
    if c in r.members {
    } else if |r.members| == 1 && r.isEmpty {
      ReplaceKeepsGood(r, c);
    } else {
      AppendKeepsGood(r, c);
    }
  }

  lemma AppendKeepsGood<C>(r: Room<C>, c: C)
    requires Good(r) && c !in r.members
    ensures var q := Show(r.(members := r.members + [c], isEmpty := false), c);
            (c != r.myself ==> Good(q)) && (NoDup(q.shown) <==> c != r.myself)
  {
    var p := r.(members := r.members + [c], isEmpty := false);
    assert KeysOf(p) == KeysOf(r);
    ShowKeeps(p, c);
    PutKeeps(r.shown, c, KeysOf(r));
  }

  lemma ReplaceKeepsGood<C>(r: Room<C>, c: C)
    requires Good(r) && c !in r.members && |r.members| == 1
    ensures var q := Hide(Show(r.(members := [c], isEmpty := false), c), r.members[0]);
            (c != r.myself ==> Good(q)) && (NoDup(q.shown) <==> c != r.myself)
  {
    var p := r.(members := [c], isEmpty := false);
    assert KeysOf(p) == KeysOf(r);
    var s := Show(p, c);
    var out := r.members[0];
    assert s == p.(shown := Put(r.shown, c, KeysOf(r)));
    if c != r.myself {
      ShowKeeps(p, c);
      NotShown(r, c);
      HideKeeps(s, out);
      ReplacedIsGood(r, c, Hide(s, out));
    } else {
      StillTwice(r.shown, c, out, KeysOf(r));
    }
    hide *;
  }

  lemma NotShown<C>(r: Room<C>, c: C)
    requires Good(r) && c !in r.members && c != r.myself
    ensures c !in r.shown
  {
  }

  lemma ReplacedIsGood<C>(r: Room<C>, c: C, q: Room<C>)
    requires Good(r) && |r.members| == 1 && c !in r.members && c != r.myself
    requires Listed(q) && q.members == [c] && q.myself == r.myself
    requires forall d :: d in q.shown <==> (d in r.shown || d == c) && d != r.members[0]
    ensures Good(q)
  {
    hide Sorted, KeysOf;
    assert r.members == [r.members[0]];
    assert r.members[0] in r.members;
  }

  lemma {:induction false} OthersStay<C>(s: seq<C>, x: C, y: C)
    requires x != y
    ensures multiset(RemoveFirst(s, y))[x] == multiset(s)[x]
  {
    if s != [] {
      var rest := s[1..];
      OthersStay(rest, x, y);
      ConsCounts(rest, s[0]);
      ConsCounts(RemoveFirst(rest, y), s[0]);
      assert s == [s[0]] + rest;
    }
  }

  lemma ConsCounts<C>(s: seq<C>, x: C)
    ensures multiset([x] + s) == multiset{x} + multiset(s)
  {
  }

  lemma StillTwice<C>(s: seq<C>, x: C, y: C, key: C -> Key)
    requires Sorted(s, key) && x in s && x != y
    ensures !NoDup(RemoveFirst(Put(s, x, key), y))
  {
    PutIsInsert(s, x, key);
    InsertSorted(s, x, key);
    OthersStay(Put(s, x, key), x, y);
    assert x in multiset(s);
    var t := RemoveFirst(Put(s, x, key), y);
    assert multiset(t)[x] >= 2;
    if NoDup(t) {
      Once(t, x);
    }
  }

  /** Removing: the last member stays a member but leaves the list; anyone else leaves both. */
  lemma RemoveKeepsGood<C>(r: Room<C>, c: C)
    requires Good(r)
    ensures Good(Step(r, Remove(c)))
    ensures c in r.members ==> c !in Step(r, Remove(c)).shown
    ensures c in r.members ==> (c in Step(r, Remove(c)).members <==> |r.members| == 1)
  {
    if c in r.members {
      var q := Step(r, Remove(c));
      RemoveFirstIsWithout(r.shown, c);
      RemoveSteps(r, c, q);
      OnlyMember(r.members, c);
      RemovedIsGood(r, c, q);
      hide *;
    }
  }

  lemma OnlyMember<C>(s: seq<C>, c: C)
    requires c in s
    ensures |s| == 1 ==> s == [c]
  {
  }

  lemma RemoveSteps<C>(r: Room<C>, c: C, q: Room<C>)
    requires Good(r) && c in r.members && q == Step(r, Remove(c)) && RemoveFirst(r.shown, c) == Without(r.shown, c)
    ensures q.members == if |r.members| == 1 then r.members else Without(r.members, c)
    ensures q.shown == Without(r.shown, c) && q.myself == r.myself && Listed(q)
  {
    assert q.statuses == r.statuses - {c} && q.own == r.own && q.names == r.names && q.attached;
    assert q.shown == Without(r.shown, c);
    hide RemoveFirst, Step;
    WithoutListed(r, c, q);
    hide *;
  }

  lemma WithoutListed<C>(r: Room<C>, c: C, q: Room<C>)
    requires Listed(r) && q.attached && q.shown == Without(r.shown, c)
    requires q.statuses == r.statuses - {c} && q.own == r.own && q.names == r.names
    ensures Listed(q)
  {
    WithoutSorted(r.shown, c, KeysOf(r));
    assert NoDup(q.shown);
    hide Sorted, NoDup;
    SortedAgrees(q.shown, KeysOf(r), KeysOf(q));
  }

  lemma RemovedIsGood<C>(r: Room<C>, c: C, q: Room<C>)
    requires Good(r) && c in r.members && q.myself == r.myself && Listed(q)
    requires q.members == if |r.members| == 1 then r.members else Without(r.members, c)
    requires q.shown == Without(r.shown, c)
    requires |r.members| == 1 ==> r.members == [c]
    ensures Good(q)
    ensures c !in q.shown && (c in q.members <==> |r.members| == 1)
  {
    hide Sorted, KeysOf, Without;
  }

  lemma DestroyedKeepsGood<C>(r: Room<C>, c: C)
    requires Good(r)
    ensures Good(Step(r, Destroyed(c)))
  {
    if c in r.members {
      RemoveFirstIsWithout(r.shown, c);
      WithoutSorted(r.shown, c, KeysOf(r));
    }
  }

  /** A change of key that the session announces keeps the list good exactly for contacts that belong in it. */
  lemma KeyChangeKeepsGood<C>(r: Room<C>, q: Room<C>, c: C)
    requires Good(r) && q.shown == r.shown && q.attached && q.members == r.members && q.myself == r.myself
    requires forall d | d != c :: KeysOf(q)(d) == KeysOf(r)(d)
    ensures Good(Reposition(q, c)) <==> c in r.members || c == r.myself
    ensures Contained(Reposition(q, c)) <==> c in r.members || c == r.myself
  {
    RepositionKeeps(r, q, c);
    var p := Reposition(q, c);
    hide KeysOf, Put, Sorted, NoDup, Reposition;
    assert c in p.shown && p.members == r.members && p.myself == r.myself;
    assert Proper(p);
    assert OneHidden(p);
    assert Listed(p);
    assert p.myself in p.shown;
    assert Contained(p) <==> c in r.members || c == r.myself;
  }

  lemma SilentKeepsGood<C>(r: Room<C>, q: Room<C>)
    requires Good(r) && q.shown == r.shown && q.attached && q.members == r.members && q.myself == r.myself
    requires forall d | d in r.shown :: KeysOf(q)(d) == KeysOf(r)(d)
    ensures Good(q)
  {
    SortedAgrees(r.shown, KeysOf(r), KeysOf(q));
  }

  /** Every announced event keeps the list sorted, free of duplicates, and within members and user. */
  lemma StepKeepsGood<C>(r: Room<C>, e: Event<C>)
    requires Good(r) && Announced(r, e)
    ensures Good(Step(r, e))
  {
    match e
    case Attach => AttachIsGood(r);
    case Add(c) => AddKeepsGood(r, c);
    case AddWithStatus(c, w) =>
      var q := if c in r.statuses then r else r.(statuses := r.statuses[c := w]);
      SilentKeepsGood(r, q);
      AddKeepsGood(q, c);
    case Remove(c) => RemoveKeepsGood(r, c);
    case Destroyed(c) => DestroyedKeepsGood(r, c);
    case OwnStatus(c, w) =>
      var q := r.(own := x => if x == c then w else r.own(x));
      if c in r.members || c == r.myself {
        KeyChangeKeepsGood(r, q, c);
      } else {
        SilentKeepsGood(r, q);
      }
    case Rekey(own) => SilentKeepsGood(r, r.(own := own));
    case Reannounce(c) =>
      if c in r.members || c == r.myself {
        KeyChangeKeepsGood(r, r, c);
      }
    case SessionStatus(c, w) => KeyChangeKeepsGood(r, r.(statuses := r.statuses[c := w]), c);
    case Rename(c, n) =>
      var q := r.(names := x => if x == c then n else r.names(x));
      if c in r.members {
        KeyChangeKeepsGood(r, q, c);
      } else {
        SilentKeepsGood(r, q);
      }
  }

  lemma {:induction false} RunKeepsGood<C>(r: Room<C>, es: seq<Event<C>>)
    requires Good(r) && AllAnnounced(r, es)
    ensures Good(Run(r, es))
    decreases es
  {
    if es != [] {
      StepKeepsGood(r, es[0]);
      RunKeepsGood(Step(r, es[0]), es[1..]);
    }
  }

  // ---------- the events nobody announces ----------

  /** The neighbours of the entry at i leave room for it under its new key. */
  ghost predicate Fits<C>(s: seq<C>, key: C -> Key, i: nat, k: Key)
    requires i < |s|
  {
    && (i > 0 ==> LessThan(key(s[i - 1]), k))
    && (i + 1 < |s| ==> LessThan(k, key(s[i + 1])))
  }

  /** A key that changes in place leaves the list sorted exactly when its two neighbours still allow it. */
  lemma SilentChange<C>(s: seq<C>, key: C -> Key, other: C -> Key, i: nat)
    requires Sorted(s, key) && i < |s|
    requires forall j | 0 <= j < |s| && j != i :: other(s[j]) == key(s[j])
    ensures Sorted(s, other) <==> Fits(s, key, i, other(s[i]))
  {
    if Fits(s, key, i, other(s[i])) {
      forall a, b | 0 <= a < b < |s| ensures LessThan(other(s[a]), other(s[b])) {
        if b == i {
          LessThanIsTotalOrder(key(s[a]), key(s[i - 1]), other(s[i]));
          LessThanIsTotalOrder(key(s[a]), key(s[a]), key(s[a]));
        } else if a == i {
          LessThanIsTotalOrder(other(s[i]), key(s[i + 1]), key(s[b]));
          LessThanIsTotalOrder(key(s[b]), key(s[b]), key(s[b]));
        }
      }
    }
  }

  /** The session does not listen for the user's own name: after such a rename the list is sorted only if it fits. */
  lemma RenamingTheUser<C>(r: Room<C>, n: Name, i: nat)
    requires Good(r) && i < |r.shown| && r.shown[i] == r.myself
    ensures var q := Step(r, Rename(r.myself, n));
            Good(q) <==> Fits(r.shown, KeysOf(r), i, KeysOf(r)(r.myself).(name := n))
  {
    var q := Step(r, Rename(r.myself, n));
    SilentChange(r.shown, KeysOf(r), KeysOf(q), i);
  }

  /** Adding a member again with an initial status changes its key and moves nothing. */
  lemma AddingAgainWithStatus<C>(r: Room<C>, c: C, w: int, i: nat)
    requires Good(r) && c in r.members && c !in r.statuses && i < |r.shown| && r.shown[i] == c
    ensures var q := Step(r, AddWithStatus(c, w));
            Good(q) <==> Fits(r.shown, KeysOf(r), i, KeysOf(r)(c).(weight := w))
  {
    var q := Step(r, AddWithStatus(c, w));
    SilentChange(r.shown, KeysOf(r), KeysOf(q), i);
  }

  /** A session status for a stranger puts the stranger in the list. */
  lemma StrangersStatus<C>(r: Room<C>, c: C, w: int)
    requires Good(r)
    ensures Good(Step(r, SessionStatus(c, w))) <==> c in r.members || c == r.myself
  {
    KeyChangeKeepsGood(r, r.(statuses := r.statuses[c := w]), c);
  }

  /** Adding the user as a member shows the user twice; adding anyone else never shows anyone twice. */
  lemma AddingTheUser<C>(r: Room<C>, c: C)
    requires Good(r)
    ensures Good(Step(r, Add(c))) <==> c != r.myself
  {
    AddKeepsGood(r, c);
  }

  /** A member that is removed and added again is shown afterwards exactly if it was not the last one. */
  lemma AddedBack<C>(r: Room<C>, c: C)
    requires Good(r) && c in r.members
    ensures var q := Step(Step(r, Remove(c)), Add(c));
            Good(q) && c in q.members && !q.isEmpty && (c in q.shown <==> |r.members| > 1)
  {
    var p := Step(r, Remove(c));
    RemoveKeepsGood(r, c);
    AddKeepsGood(p, c);
    AddShows(p, c);
    OnlyMember(r.members, c);
    hide Step, AddMember, Good;
  }

  lemma AddShows<C>(r: Room<C>, c: C)
    requires Good(r)
    ensures c in AddMember(r, c).members && !AddMember(r, c).isEmpty
    ensures c in r.members ==> AddMember(r, c).shown == r.shown
    ensures c !in r.members && c != r.myself ==> c in AddMember(r, c).shown
  {
    if c !in r.members && c != r.myself {
      NotShown(r, c);
      var p := r.(members := if |r.members| == 1 && r.isEmpty then [c] else r.members + [c], isEmpty := false);
      assert KeysOf(p) == KeysOf(r);
      ShowKeeps(p, c);
      if |r.members| == 1 {
        HideKeeps(Show(p, c), r.members[0]);
      }
    }
  }

  // ---------- many keys at once ----------

  /**
    Whatever order the list is in: putting one contact back leaves it sorted exactly when the rest of
    it was sorted by the present keys.
   */
  lemma RepositionSorts<C>(q: Room<C>, c: C)
    requires q.attached && NoDup(q.shown)
    ensures Listed(Reposition(q, c)) <==> Sorted(Without(q.shown, c), KeysOf(q))
    ensures NoDup(Reposition(q, c).shown) && Reposition(q, c) == q.(shown := Reposition(q, c).shown)
  {
    RemoveFirstIsWithout(q.shown, c);
    var rest := Without(q.shown, c);
    var i := Halve(rest, KeysOf(q), KeysOf(q)(c), 0, |rest|);
    PutElements(rest, c, i);
    if Sorted(rest, KeysOf(q)) {
      PutKeeps(rest, c, KeysOf(q));
    }
    if Sorted(Put(rest, c, KeysOf(q)), KeysOf(q)) {
      TakenOutSorted(rest, c, i, KeysOf(q));
    }
    hide Sorted, NoDup, Without, RemoveFirst;
  }

  lemma TakenOutSorted<C>(s: seq<C>, x: C, i: nat, key: C -> Key)
    requires i <= |s| && Sorted(s[..i] + [x] + s[i..], key)
    ensures Sorted(s, key)
  {
    var r := s[..i] + [x] + s[i..];
    forall a, b | 0 <= a < b < |s| ensures LessThan(key(s[a]), key(s[b])) {
      assert s[a] == r[if a < i then a else a + 1] && s[b] == r[if b < i then b else b + 1];
    }
  }

  /** Contacts of a reconnected account announce themselves one after the other. */
  function ReannounceAll<C(==)>(q: Room<C>, cs: seq<C>): Room<C>
    decreases |cs|
  {
    if cs == [] then q else Reposition(ReannounceAll(q, cs[..|cs| - 1]), cs[|cs| - 1])
  }

  lemma {:induction false} ReannounceAllKeeps<C>(q: Room<C>, cs: seq<C>)
    requires q.attached && NoDup(q.shown)
    ensures var r := ReannounceAll(q, cs); r == q.(shown := r.shown) && NoDup(r.shown)
    decreases |cs|
  {
    if cs != [] {
      ReannounceAllKeeps(q, cs[..|cs| - 1]);
      RepositionSorts(ReannounceAll(q, cs[..|cs| - 1]), cs[|cs| - 1]);
    }
  }

  /** At the k-th announcement everything but the announced contact stands in order. */
  ghost predicate RestInOrder<C>(q: Room<C>, cs: seq<C>, k: nat)
    requires k < |cs|
  {
    Sorted(Without(ReannounceAll(q, cs[..k]).shown, cs[k]), KeysOf(q))
  }

  /**
    After a sequence of announcements the list is sorted exactly when at some moment everything but the
    contact then announced stood in order; from then on it stays so.
   */
  lemma {:induction false} RoundSorts<C>(q: Room<C>, cs: seq<C>)
    requires q.attached && NoDup(q.shown) && cs != []
    ensures Listed(ReannounceAll(q, cs)) <==> exists k :: 0 <= k < |cs| && RestInOrder(q, cs, k)
    decreases |cs|
  {
    hide *;
    var n := |cs| - 1;
    var before := cs[..n];
    LastSorts(q, cs);
    if before != [] {
      RoundSorts(q, before);
    }
    forall k | 0 <= k < n ensures RestInOrder(q, cs, k) <==> RestInOrder(q, before, k) {
      EarlierAgrees(q, cs, k);
    }
    if k :| 0 <= k < |cs| && RestInOrder(q, cs, k) && k < n {
      assert RestInOrder(q, before, k);
      StaysInOrder(q, cs);
    }
  }

  lemma EarlierAgrees<C>(q: Room<C>, cs: seq<C>, k: nat)
    requires k < |cs| - 1
    ensures RestInOrder(q, cs, k) <==> RestInOrder(q, cs[..|cs| - 1], k)
  {
    assert cs[..k] == cs[..|cs| - 1][..k];
  }

  lemma LastSorts<C>(q: Room<C>, cs: seq<C>)
    requires q.attached && NoDup(q.shown) && cs != []
    ensures Listed(ReannounceAll(q, cs)) <==> RestInOrder(q, cs, |cs| - 1)
  {
    var before := cs[..|cs| - 1];
    ReannounceAllKeeps(q, before);
    RepositionSorts(ReannounceAll(q, before), cs[|cs| - 1]);
    hide Sorted, NoDup, Without, Listed, Reposition;
  }

  lemma StaysInOrder<C>(q: Room<C>, cs: seq<C>)
    requires q.attached && NoDup(q.shown) && cs != [] && Listed(ReannounceAll(q, cs[..|cs| - 1]))
    ensures RestInOrder(q, cs, |cs| - 1)
  {
    var before := cs[..|cs| - 1];
    ReannounceAllKeeps(q, before);
    WithoutSorted(ReannounceAll(q, before).shown, cs[|cs| - 1], KeysOf(q));
    hide Sorted, NoDup, Without, ReannounceAll;
  }

  /** Announcements of contacts shown, one at least; of one or of all of them, and in any order. */
  ghost predicate OfShown<C>(q: Room<C>, cs: seq<C>) {
    cs != [] && forall c | c in cs :: c in q.shown
  }

  /**
    Which of the shown announce themselves, how often and in which order, is left open here. The list ends
    sorted for every such sequence, a single announcement included, exactly when, by the new keys, it is
    sorted without any one of the shown; so, with three shown or more, exactly when the change of keys did
    not disturb it. (Rounds is about the sequences in which all contacts whose keys changed announce
    themselves once each.)
   */
  lemma EverySequenceSorts<C(!new)>(q: Room<C>)
    requires q.attached && NoDup(q.shown)
    ensures (forall cs: seq<C> :: OfShown(q, cs) ==> Listed(ReannounceAll(q, cs)))
            <==> forall c | c in q.shown :: Sorted(Without(q.shown, c), KeysOf(q))
    ensures |q.shown| >= 3 ==>
              ((forall c | c in q.shown :: Sorted(Without(q.shown, c), KeysOf(q))) <==> Sorted(q.shown, KeysOf(q)))
  {
    hide *;
    if forall c | c in q.shown :: Sorted(Without(q.shown, c), KeysOf(q)) {
      forall cs: seq<C> | OfShown(q, cs) ensures Listed(ReannounceAll(q, cs)) {
        HasFirst(q, cs);
        RoundSorts(q, cs);
        FirstInOrder(q, cs);
      }
    }
    if forall cs: seq<C> :: OfShown(q, cs) ==> Listed(ReannounceAll(q, cs)) {
      forall c | c in q.shown ensures Sorted(Without(q.shown, c), KeysOf(q)) {
        OneAnnouncement(q, c);
      }
    }
    if |q.shown| >= 3 {
      ThreeAreEnough(q.shown, KeysOf(q));
    }
  }

  lemma HasFirst<C>(q: Room<C>, cs: seq<C>)
    requires OfShown(q, cs)
    ensures cs != [] && cs[0] in q.shown
  {
  }

  lemma OneAnnouncement<C>(q: Room<C>, c: C)
    requires q.attached && NoDup(q.shown) && c in q.shown
    ensures OfShown(q, [c])
    ensures Listed(ReannounceAll(q, [c])) <==> Sorted(Without(q.shown, c), KeysOf(q))
  {
    hide Listed, Sorted, NoDup, Without, ReannounceAll, RestInOrder;
    LastSorts(q, [c]);
    FirstInOrder(q, [c]);
  }

  lemma FirstInOrder<C>(q: Room<C>, cs: seq<C>)
    requires cs != []
    ensures RestInOrder(q, cs, 0) <==> Sorted(Without(q.shown, cs[0]), KeysOf(q))
  {
    assert cs[..0] == [];
  }

  lemma {:induction false} WithoutAt<C>(s: seq<C>, k: nat)
    requires NoDup(s) && k < |s|
    ensures Without(s, s[k]) == s[..k] + s[k + 1..]
  {
    assert s == [s[0]] + s[1..];
    if k == 0 {
      assert s[0] !in s[1..];
    } else {
      var t := s[1..];
      assert t[k - 1] == s[k] && s[0] != s[k];
      WithoutAt(t, k - 1);
      WithoutHead(s, s[k]);
      hide *;
      assert [s[0]] + t[..k - 1] == s[..k] && t[k..] == s[k + 1..];
    }
  }

  lemma WithoutHead<C>(s: seq<C>, c: C)
    requires s != [] && s[0] != c
    ensures Without(s, c) == [s[0]] + Without(s[1..], c)
  {
  }

  lemma PairKept<C>(s: seq<C>, k: nat, i: nat, j: nat, key: C -> Key)
    requires NoDup(s) && i < j < |s| && k < |s| && k != i && k != j && Sorted(Without(s, s[k]), key)
    ensures LessThan(key(s[i]), key(s[j]))
  {
    WithoutAt(s, k);
    StillThere(s, k, i);
    StillThere(s, k, j);
    hide Without, NoDup, LessThan;
  }

  lemma StillThere<C>(s: seq<C>, k: nat, i: nat)
    requires k < |s| && i < |s| && i != k
    ensures (s[..k] + s[k + 1..])[if i < k then i else i - 1] == s[i]
  {
  }

  lemma ThreeAreEnough<C>(s: seq<C>, key: C -> Key)
    requires NoDup(s) && |s| >= 3
    ensures (forall c | c in s :: Sorted(Without(s, c), key)) <==> Sorted(s, key)
  {
    hide Without, NoDup, LessThan;
    if forall c | c in s :: Sorted(Without(s, c), key) {
      forall i, j | 0 <= i < j < |s| ensures LessThan(key(s[i]), key(s[j])) {
        var k := if i > 0 then 0 else if j > 1 then 1 else 2;
        assert s[k] in s;
        PairKept(s, k, i, j, key);
      }
    }
    if Sorted(s, key) {
      forall c | c in s ensures Sorted(Without(s, c), key) {
        WithoutSorted(s, c, key);
      }
    }
  }
}
