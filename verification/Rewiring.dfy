/**
  What the operations of the contact list that rewire many objects do, as functions of a snapshot:
  merging metacontacts, removing a group, taking away the contacts of an account
  (libkopete/kopetecontactlist.cpp:247-329, libkopete/kopeteaccountmanager.cpp:486-508). The methods
  of ContactGraph are proved to compute them. M is the type of metacontacts, C that of contacts.
 */
module Rewiring {
  import opened Basics
  import opened Lists
  import opened Placement

  /** What a contact list shows and what of it is selected. */
  datatype Listing<M(==)> = Listing(metaContacts: seq<M>, selected: seq<M>, selectedGroups: seq<Group>)
  {
    /** The effect of removeMetaContact: an unlisted metacontact is left alone. */
    function Remove(m: M): Listing<M> {
      if m !in metaContacts then this
      else Listing(Without(metaContacts, m), Without(selected, m), selectedGroups)
    }

    /** The effect of removing several metacontacts, in any order. */
    ghost function RemoveAll(ms: set<M>): Listing<M> {
      Listing(Drop(metaContacts, ms), Drop(selected, set m | m in ms && m in metaContacts), selectedGroups)
    }
  }

  lemma RemoveNone<M>(l: Listing<M>)
    ensures l.RemoveAll({}) == l
  {
    assert (set m | m in {} && m in l.metaContacts) == {};
  }

  /** Removing metacontacts one at a time removes them all. */
  lemma RemoveOneMore<M>(l: Listing<M>, ms: set<M>, m: M)
    ensures l.RemoveAll({}) == l
    ensures l.RemoveAll(ms).Remove(m) == l.RemoveAll(ms + {m})
  {
    var listed := set x | x in ms && x in l.metaContacts;
    var more := set x | x in ms + {m} && x in l.metaContacts;
    if m in ms || m !in l.metaContacts {
      assert more == listed;
      DropAgree(l.metaContacts, ms, ms + {m});
    } else {
      assert more == listed + {m};
      DropOneMore(l.metaContacts, ms, m);
      DropOneMore(l.selected, listed, m);
    }
  }

  /** The contacts listed by some metacontacts. */
  ghost function ContactsOf<M, C>(lists: map<M, seq<C>>, ms: set<M>): set<C> {
    set m, c | m in ms && m in lists && c in lists[m] :: c
  }

  lemma ContactsOfOne<M, C>(lists: map<M, seq<C>>, m: M)
    requires m in lists
    ensures ContactsOf(lists, {m}) == set c | c in lists[m]
  {
    assert forall c | c in lists[m] :: m in {m} && c in ContactsOf(lists, {m});
  }

  /**
    Who lists whom, who is in which groups, what the contact list shows, its groups, and the contacts
    for which a DeleteContactTask has been started.
   */
  datatype Snapshot<!M(==), !C(==)> =
    Snapshot(lists: map<M, seq<C>>, places: map<M, Place>, listing: Listing<M>, groups: seq<Group>, told: set<C>)
  {
    /** The effect of removeMetaContact: if it is listed, its contacts are told to delete themselves. */
    ghost function Delist(m: M): Snapshot<M, C> {
      if m !in listing.metaContacts then this
      else this.(listing := listing.Remove(m), told := told + ContactsOf(lists, {m}))
    }

    ghost predicate Knows(ms: seq<M>) {
      forall m | m in ms :: m in lists && m in places
    }

    /** The grouping invariant, and a listing of known metacontacts without repetition. */
    ghost predicate Valid() {
      && (forall m | m in places :: Sound(places[m]))
      && Knows(listing.metaContacts) && NoDup(listing.metaContacts)
    }

    /** The effect of merging mc into dst: dst appends what mc lists, and mc, if that empties it, goes. */
    ghost function Merge(mc: M, dst: M): (r: Snapshot<M, C>)
      requires mc in lists && dst in lists
      ensures r.lists.Keys == lists.Keys
    {
      if mc == dst || lists[mc] == [] then this
      else this.(lists := lists[dst := lists[dst] + lists[mc]][mc := []], listing := listing.Remove(mc))
    }

    ghost function MergeAll(src: seq<M>, dst: M): (r: Snapshot<M, C>)
      requires dst in lists && forall m | m in src :: m in lists
      ensures r.lists.Keys == lists.Keys
      decreases |src|
    {
      if src == [] then this else MergeAll(src[..|src| - 1], dst).Merge(src[|src| - 1], dst)
    }

    /** The listed metacontacts that are in group g, in order. */
    ghost function Members(ms: seq<M>, g: Group): (r: seq<M>)
      requires Knows(ms)
      ensures forall m | m in r :: m in ms && g in places[m].groups
      ensures forall m | m in ms && g in places[m].groups :: m in r
      ensures (forall m | m in ms :: g !in places[m].groups) ==> r == []
      ensures NoDup(ms) ==> NoDup(r)
      decreases |ms|
    {
      if ms == [] then []
      else
        var rest, last := ms[..|ms| - 1], ms[|ms| - 1];
        assert ms == rest + [last];
        assert NoDup(ms) ==> NoDup(rest) && last !in rest;
        if g in places[last].groups then Members(rest, g) + [last] else Members(rest, g)
    }

    /** What removeGroup does to one member: it goes if it is nowhere else, or just leaves the group. */
    ghost function Expel(m: M, g: Group): (r: Snapshot<M, C>)
      requires m in places
      ensures r.places.Keys == places.Keys
    {
      var gs := places[m].groups;
      if (|gs| == 1 && g in gs) || gs == [] then Delist(m)
      else this.(places := places[m := RemoveFrom(places[m], Some(g))])
    }

    ghost function ExpelAll(ms: seq<M>, g: Group): (r: Snapshot<M, C>)
      requires forall m | m in ms :: m in places
      ensures r.places.Keys == places.Keys
      decreases |ms|
    {
      if ms == [] then this else ExpelAll(ms[..|ms| - 1], g).Expel(ms[|ms| - 1], g)
    }

    ghost function Unselect(g: Group): Snapshot<M, C> {
      this.(listing := listing.(selectedGroups := Without(listing.selectedGroups, g)))
    }

    /** The listed metacontacts whose only group is g. */
    ghost function OnlyIn(g: Group): set<M>
      requires Knows(listing.metaContacts)
    {
      set m | m in listing.metaContacts && places[m].groups == [g]
    }

    /**
      The effect of removeGroup, for any group but the top level: exactly the listed metacontacts
      whose only group is g leave the list and the selection; the other listed ones leave g and keep
      their other groups in order; unlisted metacontacts and all lists of contacts stay as they are.
     */
    ghost function RemoveGroup(g: Group): Snapshot<M, C>
      requires Knows(listing.metaContacts)
    {
      if g == TopLevel then this
      else
        var gone := OnlyIn(g);
        Snapshot(lists,
                 map m | m in places ::
                   if m in listing.metaContacts && m !in gone then places[m].(groups := Without(places[m].groups, g))
                   else places[m],
                 Listing(Drop(listing.metaContacts, gone), Drop(listing.selected, gone),
                         Without(listing.selectedGroups, g)),
                 Without(groups, g),
                 told + ContactsOf(lists, gone))
    }

    /**
      What becomes of a metacontact that has just been emptied: it leaves the list, and its first
      group goes too if the metacontact was the only member.
     */
    ghost function Reap(owner: M): (r: Snapshot<M, C>)
      requires Valid() && owner in lists && owner in places
      ensures r.Valid() && r.lists == lists && r.places == places
    {
      assert Sound(places[owner]);
      var group := places[owner].groups[0];
      var members := Members(listing.metaContacts, group);
      var t := Delist(owner);
      if |members| == 1 && owner in members then
        assert group != TopLevel ==>
          var u := t.RemoveGroup(group);
          u.places == places && u.Valid() && u.lists == lists
        by {
          if group != TopLevel {
            LastMemberGone(this, t, owner, group);
            RemoveEmptyGroup(t, group);
          }
        }
        t.RemoveGroup(group)
      else t
    }

    /** The effect of taking a contact off the list of the metacontact it is parted from. */
    ghost function Part(p: Parting<M, C>): Snapshot<M, C>
      requires p.owner in lists
    {
      this.(lists := lists[p.owner := Without(lists[p.owner], p.contact)])
    }

    /** The effect of taking away one contact of a removed account from the metacontact that lists it. */
    ghost function TakeAway(p: Parting<M, C>): (r: Snapshot<M, C>)
      requires Valid() && p.owner in lists && p.owner in places
      ensures r.Valid() && r.lists.Keys == lists.Keys && r.places == places
    {
      var s := Part(p);
      if s.lists[p.owner] != [] then s else s.Reap(p.owner)
    }

    ghost function TakeAllAway(ps: seq<Parting<M, C>>): (r: Snapshot<M, C>)
      requires Valid() && Owned(this, ps)
      ensures r.Valid() && r.lists.Keys == lists.Keys && r.places == places
      decreases |ps|
    {
      if ps == [] then this else TakeAllAway(ps[..|ps| - 1]).TakeAway(ps[|ps| - 1])
    }

    /** The effect of destroying contacts: nobody lists them any more, and their tasks go with them. */
    ghost function Bury(dead: set<C>): Snapshot<M, C> {
      this.(lists := map m | m in lists :: Drop(lists[m], dead), told := told - dead)
    }
  }

  /** A contact and the metacontact that lists it. */
  datatype Parting<M, C> = Parting(contact: C, owner: M)

  lemma BuryMeans<M, C>(s: Snapshot<M, C>, after: Snapshot<M, C>, dead: set<C>)
    requires after.lists.Keys == s.lists.Keys && after.told == s.told - dead
    requires forall m | m in s.lists :: after.lists[m] == Drop(s.lists[m], dead)
    requires after.places == s.places && after.listing == s.listing && after.groups == s.groups
    ensures after == s.Bury(dead)
  {
  }

  /** The contacts that some metacontact lists. */
  ghost function Homes<M, C>(lists: map<M, seq<C>>): set<C> {
    ContactsOf(lists, lists.Keys)
  }

  lemma HomesIntro<M, C>(lists: map<M, seq<C>>, m: M, c: C)
    requires m in lists && c in lists[m]
    ensures c in Homes(lists)
  {
  }

  /**
    A contact moves from the metacontact that alone may list it to another one, or to nowhere: nobody
    else loses its place, and it has one exactly if it moved to a metacontact.
   */
  lemma MoveConserves<M, C>(before: map<M, seq<C>>, after: map<M, seq<C>>, from: Option<M>, to: Option<M>, c: C)
    requires after.Keys == before.Keys && from != to && (to.Some? ==> to.value in before)
    requires forall m | m in before && c in before[m] :: from == Some(m)
    requires forall m | m in before ::
      after[m] == if from == Some(m) then Without(before[m], c)
                  else if to == Some(m) then before[m] + [c] else before[m]
    ensures Homes(after) == if to == None then Homes(before) - {c} else Homes(before) + {c}
  {
    forall x | x in Homes(before) && x != c ensures x in Homes(after) {
      var m :| m in before && x in before[m];
      HomesIntro(after, m, x);
    }
    forall x | x in Homes(after) && x != c ensures x in Homes(before) {
      var m :| m in after && x in after[m];
      HomesIntro(before, m, x);
    }
    if to.Some? {
      HomesIntro(after, to.value, c);
    }
  }

  // ---- merging ----

  /** Merge, seen list by list. */
  lemma MergeLists<M, C>(s: Snapshot<M, C>, mc: M, dst: M, after: map<M, seq<C>>)
    requires mc in s.lists && dst in s.lists && mc != dst
    requires after.Keys == s.lists.Keys
    requires after[mc] == [] && after[dst] == s.lists[dst] + s.lists[mc]
    requires forall m | m in after && m != mc && m != dst :: after[m] == s.lists[m]
    ensures after == s.Merge(mc, dst).lists
  {
    if s.lists[mc] == [] {
      assert s.lists[dst] + [] == s.lists[dst];
      assert after == s.lists;
    }
  }

  /** The contacts of the sources other than dst, each source counted once, in order. */
  ghost function Harvest<M, C>(lists: map<M, seq<C>>, src: seq<M>, dst: M): seq<C>
    requires forall m | m in src :: m in lists
  {
    if src == [] then []
    else
      var rest, last := src[..|src| - 1], src[|src| - 1];
      if last == dst || last in rest then Harvest(lists, rest, dst) else Harvest(lists, rest, dst) + lists[last]
  }

  /** The sources that merging empties. */
  ghost function Donors<M, C>(lists: map<M, seq<C>>, src: seq<M>, dst: M): set<M>
    requires forall m | m in src :: m in lists
  {
    set m | m in src && m != dst && lists[m] != []
  }

  /** Merging empties the sources, other than dst, and touches nobody else's list and no groups. */
  lemma {:induction false} MergeAllEmpties<M, C>(s: Snapshot<M, C>, src: seq<M>, dst: M, m: M)
    requires dst in s.lists && forall x | x in src :: x in s.lists
    requires m in s.lists && m != dst
    ensures s.MergeAll(src, dst).lists[m] == if m in src then [] else s.lists[m]
    ensures s.MergeAll(src, dst).places == s.places && s.MergeAll(src, dst).groups == s.groups
    decreases |src|
  {
    if src != [] {
      assert src == src[..|src| - 1] + [src[|src| - 1]];
      MergeAllEmpties(s, src[..|src| - 1], dst, m);
    }
  }

  /** dst keeps its own contacts and collects every contact of the sources once, in order. */
  lemma {:induction false} MergeAllCollects<M, C>(s: Snapshot<M, C>, src: seq<M>, dst: M)
    requires dst in s.lists && forall m | m in src :: m in s.lists
    ensures s.MergeAll(src, dst).lists[dst] == s.lists[dst] + Harvest(s.lists, src, dst)
    decreases |src|
  {
    if src != [] {
      var rest, last := src[..|src| - 1], src[|src| - 1];
      MergeAllCollects(s, rest, dst);
      if last != dst {
        MergeAllEmpties(s, rest, dst, last);
      }
    }
  }

  /** The sources that had contacts leave the list and the selection; one that had none stays. */
  lemma {:induction false} MergeAllDelists<M, C>(s: Snapshot<M, C>, src: seq<M>, dst: M)
    requires dst in s.lists && forall m | m in src :: m in s.lists
    ensures s.MergeAll(src, dst).listing == s.listing.RemoveAll(Donors(s.lists, src, dst))
    decreases |src|
  {
    if src == [] {
      RemoveOneMore(s.listing, {}, dst);
    } else {
      var rest, last := src[..|src| - 1], src[|src| - 1];
      DonorsStep(s.lists, src, dst);
      MergeAllDelists(s, rest, dst);
      if last != dst {
        MergeAllEmpties(s, rest, dst, last);
      }
      RemoveOneMore(s.listing, Donors(s.lists, rest, dst), last);
    }
  }

  lemma DonorsStep<M, C>(lists: map<M, seq<C>>, src: seq<M>, dst: M)
    requires src != [] && forall m | m in src :: m in lists
    ensures var rest, last := src[..|src| - 1], src[|src| - 1];
            Donors(lists, src, dst) ==
              if last != dst && last !in rest && lists[last] != [] then Donors(lists, rest, dst) + {last}
              else Donors(lists, rest, dst)
  {
    assert src == src[..|src| - 1] + [src[|src| - 1]];
  }

  /** Merging loses no contact and invents none. */
  lemma MergeConserves<M, C>(s: Snapshot<M, C>, mc: M, dst: M)
    requires mc in s.lists && dst in s.lists
    ensures var r := s.Merge(mc, dst); Homes(r.lists) == Homes(s.lists)
  {
    var r := s.Merge(mc, dst);
    if mc != dst && s.lists[mc] != [] {
      forall c | c in Homes(s.lists) ensures c in Homes(r.lists) {
        var m :| m in s.lists && c in s.lists[m];
        assert c in r.lists[if m == mc then dst else m];
      }
      forall c | c in Homes(r.lists) ensures c in Homes(s.lists) {
        var m :| m in r.lists && c in r.lists[m];
        assert c in s.lists[m] || (m == dst && c in s.lists[mc]);
      }
    }
  }

  lemma {:induction false} MergeAllConserves<M, C>(s: Snapshot<M, C>, src: seq<M>, dst: M)
    requires dst in s.lists && forall m | m in src :: m in s.lists
    ensures var r := s.MergeAll(src, dst); Homes(r.lists) == Homes(s.lists)
    decreases |src|
  {
    if src != [] {
      MergeAllConserves(s, src[..|src| - 1], dst);
      MergeConserves(s.MergeAll(src[..|src| - 1], dst), src[|src| - 1], dst);
    }
  }

  // ---- removing a group ----

  /** In a sound place, expelling from g either finds g alone there, or leaves the other groups in order. */
  lemma ExpelOne(p: Place, g: Group)
    requires Sound(p) && g in p.groups
    ensures (|p.groups| == 1 && g in p.groups) <==> p.groups == [g]
    ensures p.groups != [g] ==> RemoveFrom(p, Some(g)) == p.(groups := Without(p.groups, g))
    ensures p.groups != [g] ==> Sound(RemoveFrom(p, Some(g)))
  {
  }

  /** Each member is expelled with the groups it had at the start; nobody else moves. */
  lemma {:induction false} ExpelAllPlaces<M, C>(s: Snapshot<M, C>, ms: seq<M>, g: Group, m: M)
    requires s.Valid() && s.Knows(ms) && NoDup(ms) && m in s.places
    requires forall x | x in ms :: g in s.places[x].groups
    ensures s.ExpelAll(ms, g).places[m] == if m in ms && s.places[m].groups != [g]
              then s.places[m].(groups := Without(s.places[m].groups, g)) else s.places[m]
    decreases |ms|
  {
    if ms != [] {
      var rest, last := ms[..|ms| - 1], ms[|ms| - 1];
      assert ms == rest + [last];
      assert last !in rest;
      ExpelAllPlaces(s, rest, g, m);
      ExpelAllPlaces(s, rest, g, last);
      ExpelOne(s.places[last], g);
    }
  }

  /** The members that are nowhere else. */
  ghost function Sole<M, C>(s: Snapshot<M, C>, ms: seq<M>, g: Group): set<M>
    requires s.Knows(ms)
  {
    set m | m in ms && s.places[m].groups == [g]
  }

  /** Exactly those go. */
  lemma {:induction false} ExpelAllListing<M, C>(s: Snapshot<M, C>, ms: seq<M>, g: Group)
    requires s.Valid() && s.Knows(ms) && NoDup(ms)
    requires forall x | x in ms :: g in s.places[x].groups
    ensures s.ExpelAll(ms, g).listing == s.listing.RemoveAll(Sole(s, ms, g))
    ensures s.ExpelAll(ms, g).lists == s.lists && s.ExpelAll(ms, g).groups == s.groups
    decreases |ms|
  {
    if ms == [] {
      RemoveNone(s.listing);
      assert Sole(s, ms, g) == {};
    } else {
      var rest, last := ms[..|ms| - 1], ms[|ms| - 1];
      assert ms == rest + [last];
      SoleOneMore(s, rest, last, g);
      ExpelAllListing(s, rest, g);
      ExpelAllPlaces(s, rest, g, last);
      ExpelListing(s.ExpelAll(rest, g), last, g);
      RemoveOneMore(s.listing, Sole(s, rest, g), last);
      assert s.ExpelAll(ms, g) == s.ExpelAll(rest, g).Expel(last, g);
      hide *;
    }
  }

  lemma SoleOneMore<M, C>(s: Snapshot<M, C>, ms: seq<M>, m: M, g: Group)
    requires s.Knows(ms + [m])
    ensures s.Knows(ms) && Sole(s, ms + [m], g) ==
            if s.places[m].groups == [g] then Sole(s, ms, g) + {m} else Sole(s, ms, g)
  {
    assert forall x | x in ms :: x in ms + [m];
    assert m in ms + [m];
  }

  /** If all of them are listed, the contacts of those that go are told. */
  lemma {:induction false} ExpelAllTold<M, C>(s: Snapshot<M, C>, ms: seq<M>, g: Group)
    requires s.Valid() && s.Knows(ms) && NoDup(ms)
    requires forall x | x in ms :: g in s.places[x].groups && x in s.listing.metaContacts
    ensures s.ExpelAll(ms, g).told == s.told + ContactsOf(s.lists, Sole(s, ms, g))
    decreases |ms|
  {
    if ms == [] {
      assert Sole(s, ms, g) == {};
    } else {
      var rest, last := ms[..|ms| - 1], ms[|ms| - 1];
      assert ms == rest + [last];
      SoleOneMore(s, rest, last, g);
      ExpelAllTold(s, rest, g);
      ExpelAllListing(s, rest, g);
      ExpelAllPlaces(s, rest, g, last);
      ExpelListing(s.ExpelAll(rest, g), last, g);
      assert last !in rest;
      StillListed(s.listing, Sole(s, rest, g), last);
      ContactsOfMore(s.lists, Sole(s, rest, g), last);
      assert s.ExpelAll(ms, g) == s.ExpelAll(rest, g).Expel(last, g);
      hide *;
    }
  }

  lemma ExpelListing<M, C>(s: Snapshot<M, C>, m: M, g: Group)
    requires m in s.places && Sound(s.places[m]) && g in s.places[m].groups
    ensures var goes, r := s.places[m].groups == [g], s.Expel(m, g);
            && r.lists == s.lists && r.groups == s.groups
            && r.listing == (if goes then s.listing.Remove(m) else s.listing)
            && r.told == s.told + if goes && m in s.listing.metaContacts then ContactsOf(s.lists, {m}) else {}
  {
    ExpelOne(s.places[m], g);
    hide RemoveFrom, ContactsOf, Listing.Remove, Sound;
  }

  lemma StillListed<M>(l: Listing<M>, ms: set<M>, m: M)
    ensures m !in ms && m in l.metaContacts ==> m in l.RemoveAll(ms).metaContacts
    ensures m !in ms && m !in l.metaContacts ==> m !in l.RemoveAll(ms).metaContacts
  {
  }

  lemma ContactsOfMore<M, C>(lists: map<M, seq<C>>, ms: set<M>, m: M)
    ensures ContactsOf(lists, ms + {m}) == ContactsOf(lists, ms) + ContactsOf(lists, {m})
  {
  }

  /** The loop of removeGroup, taken as a whole, has the effect of RemoveGroup. */
  lemma ExpelAllIsRemoveGroup<M, C>(s: Snapshot<M, C>, u: Snapshot<M, C>, g: Group, members: seq<M>)
    requires s.Valid() && g != TopLevel && u == s.Unselect(g)
    requires members == u.Members(s.listing.metaContacts, g)
    ensures u.ExpelAll(members, g).(groups := Without(s.groups, g)) == s.RemoveGroup(g)
  {
    hide Without, Drop, NoDup;
    var r := u.ExpelAll(members, g);
    ExpelAllListing(u, members, g);
    ExpelAllTold(u, members, g);
    assert Sole(u, members, g) == s.OnlyIn(g);
    assert (set m | m in s.OnlyIn(g) && m in s.listing.metaContacts) == s.OnlyIn(g);
    ExpelAllPlacesAgree(s, u, g, members);
    hide Sole, Snapshot.ExpelAll, Snapshot.Members;
    assert r.places == s.RemoveGroup(g).places;
  }

  lemma ExpelAllPlacesAgree<M, C>(s: Snapshot<M, C>, u: Snapshot<M, C>, g: Group, members: seq<M>)
    requires s.Valid() && g != TopLevel && u == s.Unselect(g)
    requires members == u.Members(s.listing.metaContacts, g)
    ensures u.ExpelAll(members, g).places == s.RemoveGroup(g).places
  {
    hide Without, Drop, NoDup, Sound, ContactsOf;
    var r := u.ExpelAll(members, g);
    forall m | m in s.places ensures r.places[m] == s.RemoveGroup(g).places[m] {
      ExpelAllPlaces(u, members, g, m);
    }
  }

  /** After removeGroup nobody listed is left in g, and the snapshot is sound again. */
  lemma RemoveGroupLeavesNobody<M, C>(s: Snapshot<M, C>, g: Group)
    requires s.Valid() && g != TopLevel
    ensures var r := s.RemoveGroup(g);
            && r.Valid()
            && (forall m | m in r.listing.metaContacts :: g !in r.places[m].groups)
            && g !in r.groups && g !in r.listing.selectedGroups
  {
    var r := s.RemoveGroup(g);
    forall m | m in s.listing.metaContacts && g in s.places[m].groups && s.places[m].groups != [g]
      ensures Sound(r.places[m])
    {
      ExpelOne(s.places[m], g);
    }
  }

  /** Whatever group is removed, the top level stays, and so do those at the top level. */
  lemma TopLevelStays<M, C>(s: Snapshot<M, C>, g: Group)
    requires s.Valid()
    ensures var r := s.RemoveGroup(g);
            && (TopLevel in s.groups ==> TopLevel in r.groups)
            && (forall m | m in s.listing.metaContacts && TopLevel in s.places[m].groups ::
                  m in r.listing.metaContacts && TopLevel in r.places[m].groups)
  {
    forall m | m in s.listing.metaContacts && TopLevel in s.places[m].groups && g != TopLevel
      ensures m !in s.OnlyIn(g)
    {
      assert s.places[m].groups == [g] ==> TopLevel in [g];
    }
  }

  /** A group that nobody listed is in goes by itself. */
  lemma RemoveEmptyGroup<M, C>(s: Snapshot<M, C>, g: Group)
    requires s.Knows(s.listing.metaContacts) && g != TopLevel
    requires forall m | m in s.listing.metaContacts :: g !in s.places[m].groups
    ensures s.RemoveGroup(g) == s.(groups := Without(s.groups, g),
      listing := s.listing.(selectedGroups := Without(s.listing.selectedGroups, g)))
  {
    hide Without, NoDup;
    assert s.OnlyIn(g) == {};
    assert ContactsOf(s.lists, {}) == {};
    assert s.RemoveGroup(g).places == s.places;
  }

  // ---- removing an account ----

  /** The members of a group depend on the places of the metacontacts only. */
  lemma {:induction false} MembersAgree<M, C>(s: Snapshot<M, C>, t: Snapshot<M, C>, ms: seq<M>, g: Group)
    requires s.Knows(ms) && t.Knows(ms) && forall m | m in ms :: s.places[m] == t.places[m]
    ensures s.Members(ms, g) == t.Members(ms, g)
    decreases |ms|
  {
    if ms != [] {
      MembersAgree(s, t, ms[..|ms| - 1], g);
    }
  }

  lemma Singleton<T>(r: seq<T>, m: T)
    requires |r| == 1 && m in r
    ensures forall x | x in r :: x == m
  {
  }

  lemma AllTheSame<T>(r: seq<T>, m: T)
    requires NoDup(r) && m in r && forall x | x in r :: x == m
    ensures |r| == 1
  {
    var x, y := r[0], r[|r| - 1];
    assert x in r && y in r;
  }

  /** Once the only member of a group is off the list, the group has no members. */
  lemma LastMemberGone<M, C>(s: Snapshot<M, C>, t: Snapshot<M, C>, m: M, g: Group)
    requires s.Valid() && t.places == s.places && t.lists.Keys == s.lists.Keys
    requires t.listing == s.listing.Remove(m)
    requires |s.Members(s.listing.metaContacts, g)| == 1 && m in s.Members(s.listing.metaContacts, g)
    ensures t.Knows(t.listing.metaContacts) && forall x | x in t.listing.metaContacts :: g !in t.places[x].groups
    ensures t.Members(t.listing.metaContacts, g) == []
  {
    var members := s.Members(s.listing.metaContacts, g);
    Singleton(members, m);
    forall x | x in t.listing.metaContacts ensures g !in t.places[x].groups {
      assert x in s.listing.metaContacts && x != m;
    }
  }

  ghost predicate Owned<M, C>(s: Snapshot<M, C>, ps: seq<Parting<M, C>>) {
    forall p | p in ps :: p.owner in s.lists && p.owner in s.places
  }

  lemma NothingTakenYet<M, C>(s: Snapshot<M, C>)
    requires s.Valid()
    ensures Proper(s, []) && Owned(s, []) && Parted<M, C>([]) == {} && s.TakeAllAway([]) == s
  {
  }

  ghost function Parted<M, C>(ps: seq<Parting<M, C>>): set<C> {
    set p | p in ps :: p.contact
  }

  /** Whether the partings name distinct contacts, each with the one metacontact that lists it. */
  ghost predicate Proper<M, C>(s: Snapshot<M, C>, ps: seq<Parting<M, C>>) {
    && Owned(s, ps)
    && (forall p | p in ps :: p.contact in s.lists[p.owner])
    && (forall p, m | p in ps && m in s.lists && p.contact in s.lists[m] :: m == p.owner)
    && (forall i, j | 0 <= i < j < |ps| :: ps[i].contact != ps[j].contact)
  }

  /** One more parting, of a contact not taken away yet. */
  lemma ProperStep<M, C>(s: Snapshot<M, C>, ps: seq<Parting<M, C>>, p: Parting<M, C>)
    requires Proper(s, ps) && p.owner in s.lists && p.owner in s.places && p.contact in s.lists[p.owner]
    requires forall m | m in s.lists && p.contact in s.lists[m] :: m == p.owner
    requires p.contact !in Parted(ps)
    ensures Proper(s, ps + [p]) && Parted(ps + [p]) == Parted(ps) + {p.contact}
  {
    assert forall i | 0 <= i < |ps| :: ps[i] in ps && ps[i].contact in Parted(ps);
  }

  /** TakeAllAway, one parting further. */
  lemma TakeAllAwayStep<M, C>(s: Snapshot<M, C>, ps: seq<Parting<M, C>>, p: Parting<M, C>)
    requires s.Valid() && Proper(s, ps) && Proper(s, ps + [p])
    ensures s.TakeAllAway(ps + [p]) == s.TakeAllAway(ps).TakeAway(p)
  {
    assert (ps + [p])[..|ps|] == ps;
  }

  /** The metacontacts whose contacts are all among cs: those that had at least one. */
  ghost function AllAmong<M, C>(s: Snapshot<M, C>, cs: set<C>): set<M> {
    set m | m in s.lists && s.lists[m] != [] && forall c | c in s.lists[m] :: c in cs
  }

  /** Every list keeps exactly the contacts that are not taken away, in order. */
  lemma {:induction false} TakeAllAwayLists<M, C>(s: Snapshot<M, C>, ps: seq<Parting<M, C>>, m: M)
    requires s.Valid() && Proper(s, ps) && m in s.lists
    ensures s.TakeAllAway(ps).lists[m] == Drop(s.lists[m], Parted(ps))
    decreases |ps|
  {
    if ps != [] {
      var rest, last := ps[..|ps| - 1], ps[|ps| - 1];
      assert ps == rest + [last];
      assert Proper(s, rest);
      TakeAllAwayLists(s, rest, m);
      TakeAwayLists(s.TakeAllAway(rest), last);
      DropLast(s, rest, last, m);
    }
  }

  /**
    What removing an account leaves: its registered contacts are parted from their metacontacts, then all
    that die with the account are destroyed. Every list keeps, in order, what does not die.
   */
  lemma RemovalLists<M, C>(s: Snapshot<M, C>, ps: seq<Parting<M, C>>, dead: set<C>, m: M)
    requires s.Valid() && Proper(s, ps) && m in s.lists && Parted(ps) <= dead
    ensures m in s.TakeAllAway(ps).Bury(dead).lists
    ensures s.TakeAllAway(ps).Bury(dead).lists[m] == Drop(s.lists[m], dead)
  {
    TakeAllAwayLists(s, ps, m);
    DropMore(s.lists[m], Parted(ps), dead);
    assert Parted(ps) + dead == dead;
    hide Snapshot.TakeAllAway, Drop, Proper, Parted;
  }

  lemma RemovalShrinks<M, C>(s: Snapshot<M, C>, ps: seq<Parting<M, C>>, dead: set<C>)
    requires s.Valid() && Proper(s, ps) && Parted(ps) <= dead
    ensures Homes(s.TakeAllAway(ps).Bury(dead).lists) == Homes(s.lists) - dead
  {
    var r := s.TakeAllAway(ps).Bury(dead);
    forall m | m in s.lists ensures m in r.lists && r.lists[m] == Drop(s.lists[m], dead) {
      RemovalLists(s, ps, dead, m);
    }
    assert r.lists.Keys == s.lists.Keys;
    hide Snapshot.TakeAllAway, Snapshot.Bury, Drop, Proper, Parted;
    forall c | c in Homes(r.lists) ensures c in Homes(s.lists) && c !in dead {
      var m :| m in r.lists && c in r.lists[m];
      HomesIntro(s.lists, m, c);
    }
    forall c | c in Homes(s.lists) && c !in dead ensures c in Homes(r.lists) {
      var m :| m in s.lists && c in s.lists[m];
      HomesIntro(r.lists, m, c);
    }
  }

  /** So nobody lists any of the contacts cs afterwards exactly if those of them that were listed die. */
  lemma RemovalForgets<M, C>(s: Snapshot<M, C>, ps: seq<Parting<M, C>>, dead: set<C>, cs: set<C>)
    requires s.Valid() && Proper(s, ps) && Parted(ps) <= dead
    ensures var r := s.TakeAllAway(ps).Bury(dead);
            Homes(r.lists) !! cs <==> Homes(s.lists) * cs <= dead
  {
    RemovalShrinks(s, ps, dead);
    hide Snapshot.TakeAllAway, Snapshot.Bury, Proper, Parted;
  }

  lemma DropLast<M, C>(s: Snapshot<M, C>, rest: seq<Parting<M, C>>, last: Parting<M, C>, m: M)
    requires m in s.lists && (last.contact in s.lists[m] ==> m == last.owner)
    ensures Drop(s.lists[m], Parted(rest + [last])) ==
            if m == last.owner then Without(Drop(s.lists[m], Parted(rest)), last.contact)
            else Drop(s.lists[m], Parted(rest))
  {
    var ps := rest + [last];
    assert Parted(ps) == Parted(rest) + {last.contact};
    DropOneMore(s.lists[m], Parted(rest), last.contact);
    hide Parted;
    if m != last.owner {
      DropAgree(s.lists[m], Parted(rest), Parted(ps));
    }
  }

  lemma TakeAwayLists<M, C>(s: Snapshot<M, C>, p: Parting<M, C>)
    requires s.Valid() && p.owner in s.lists && p.owner in s.places
    ensures s.TakeAway(p).lists == s.lists[p.owner := Without(s.lists[p.owner], p.contact)]
    ensures s.TakeAway(p).listing.metaContacts ==
            if Without(s.lists[p.owner], p.contact) == [] then Without(s.listing.metaContacts, p.owner)
            else s.listing.metaContacts
  {
    var t := s.(lists := s.lists[p.owner := Without(s.lists[p.owner], p.contact)]);
    ReapMeaning(t, p.owner);
  }

  /** Reaping takes the emptied metacontact off the list and nobody else, whatever happens to its group. */
  lemma ReapMeaning<M, C>(s: Snapshot<M, C>, owner: M)
    requires s.Valid() && owner in s.lists && owner in s.places
    ensures var r := s.Reap(owner);
            && r.listing.metaContacts == Without(s.listing.metaContacts, owner)
            && r.listing.selected ==
               (if owner in s.listing.metaContacts then Without(s.listing.selected, owner) else s.listing.selected)
            && (s.lists[owner] == [] ==> r.told == s.told)
  {
    hide Without, Drop, NoDup;
    assert Sound(s.places[owner]);
    var group := s.places[owner].groups[0];
    var u := s.Delist(owner);
    var members := s.Members(s.listing.metaContacts, group);
    ContactsOfOne(s.lists, owner);
    if |members| == 1 && owner in members && group != TopLevel {
      LastMemberGone(s, u, owner, group);
      RemoveEmptyGroup(u, group);
    }
  }

  /** The group that goes with an emptied metacontact: its first one, if nobody else listed is in it. */
  ghost function GoesAlong<M, C>(s: Snapshot<M, C>, owner: M): set<Group>
    requires s.Valid() && owner in s.places
  {
    assert Sound(s.places[owner]);
    var group := s.places[owner].groups[0];
    if owner in s.listing.metaContacts && group != TopLevel
       && forall m | m in s.listing.metaContacts && group in s.places[m].groups :: m == owner
    then {group} else {}
  }

  /** Reaping removes exactly that group, from the list and from the selection. */
  lemma ReapGroups<M, C>(s: Snapshot<M, C>, owner: M)
    requires s.Valid() && owner in s.lists && owner in s.places
    ensures s.Reap(owner).groups == Drop(s.groups, GoesAlong(s, owner))
    ensures s.Reap(owner).listing.selectedGroups == Drop(s.listing.selectedGroups, GoesAlong(s, owner))
  {
    assert Sound(s.places[owner]);
    var group := s.places[owner].groups[0];
    var u := s.Delist(owner);
    var members := s.Members(s.listing.metaContacts, group);
    OnlyMember(s, owner, group);
    DropOneMore(s.groups, {}, group);
    DropOneMore(s.listing.selectedGroups, {}, group);
    assert {} + {group} == {group};
    hide Without, Drop, NoDup;
    if |members| == 1 && owner in members && group != TopLevel {
      LastMemberGone(s, u, owner, group);
      RemoveEmptyGroup(u, group);
    }
  }

  lemma OnlyMember<M, C>(s: Snapshot<M, C>, owner: M, g: Group)
    requires s.Valid() && owner in s.places && g in s.places[owner].groups
    ensures var members := s.Members(s.listing.metaContacts, g);
            |members| == 1 && owner in members <==>
              owner in s.listing.metaContacts
              && forall m | m in s.listing.metaContacts && g in s.places[m].groups :: m == owner
  {
    var members := s.Members(s.listing.metaContacts, g);
    if owner in members && forall m | m in members :: m == owner {
      AllTheSame(members, owner);
    }
    if |members| == 1 && owner in members {
      Singleton(members, owner);
    }
  }

  /** TakeAway in two steps: u is the state after the first. */
  lemma TakeAwayParts<M, C>(s: Snapshot<M, C>, p: Parting<M, C>, u: Snapshot<M, C>)
    requires s.Valid() && p.owner in s.lists && p.owner in s.places
    requires u == s.Part(p)
    ensures u.Valid() && p.owner in u.lists && p.owner in u.places
    ensures s.TakeAway(p) == if u.lists[p.owner] != [] then u else u.Reap(p.owner)
  {
  }

  /** Reap in two steps. */
  lemma ReapParts<M, C>(s: Snapshot<M, C>, owner: M)
    requires s.Valid() && owner in s.lists && owner in s.places
    ensures s.places[owner].groups != [] && s.Delist(owner).Valid()
    ensures var group := s.places[owner].groups[0];
            var members := s.Members(s.listing.metaContacts, group);
            s.Reap(owner) ==
              if |members| == 1 && owner in members then s.Delist(owner).RemoveGroup(group) else s.Delist(owner)
  {
    assert Sound(s.places[owner]);
  }

  /** Exactly the listed metacontacts whose contacts all go are dropped from the list. */
  lemma {:induction false} TakeAllAwayListing<M, C>(s: Snapshot<M, C>, ps: seq<Parting<M, C>>)
    requires s.Valid() && Proper(s, ps)
    ensures s.TakeAllAway(ps).listing.metaContacts == Drop(s.listing.metaContacts, AllAmong(s, Parted(ps)))
    decreases |ps|
  {
    if ps == [] {
      assert AllAmong(s, {}) == {} by {
        assert forall m | m in s.lists && s.lists[m] != [] :: s.lists[m][0] in s.lists[m];
      }
      assert Parted(ps) == {};
    } else {
      var rest, last := ps[..|ps| - 1], ps[|ps| - 1];
      assert ps == rest + [last];
      assert Proper(s, rest);
      TakeAllAwayListing(s, rest);
      TakeAllAwayLists(s, rest, last.owner);
      var t := s.TakeAllAway(rest);
      TakeAwayLists(t, last);
      AllAmongStep(s, rest, last);
      DropOneMore(s.listing.metaContacts, AllAmong(s, Parted(rest)), last.owner);
    }
  }

  lemma AllAmongStep<M, C>(s: Snapshot<M, C>, rest: seq<Parting<M, C>>, last: Parting<M, C>)
    requires Proper(s, rest + [last])
    ensures AllAmong(s, Parted(rest + [last])) ==
      if Without(Drop(s.lists[last.owner], Parted(rest)), last.contact) == []
      then AllAmong(s, Parted(rest)) + {last.owner} else AllAmong(s, Parted(rest))
  {
    var ps := rest + [last];
    assert last in ps;
    assert Parted(ps) == Parted(rest) + {last.contact};
    var left := Without(Drop(s.lists[last.owner], Parted(rest)), last.contact);
    assert (forall c | c in s.lists[last.owner] :: c in Parted(ps)) <==> left == [] by {
      assert left != [] ==> left[0] in left;
    }
  }

  /** The same metacontacts leave the selection. */
  lemma {:induction false} TakeAllAwaySelected<M, C>(s: Snapshot<M, C>, ps: seq<Parting<M, C>>)
    requires s.Valid() && Proper(s, ps)
    ensures var r := s.TakeAllAway(ps).listing;
            r == s.listing.RemoveAll(AllAmong(s, Parted(ps))).(selectedGroups := r.selectedGroups)
    decreases |ps|
  {
    if ps == [] {
      AllAmongNone(s);
      RemoveNone(s.listing);
    } else {
      var rest, last := ps[..|ps| - 1], ps[|ps| - 1];
      assert ps == rest + [last];
      assert Proper(s, rest);
      TakeAllAwaySelected(s, rest);
      TakeAllAwayLists(s, rest, last.owner);
      TakeAwaySelected(s.TakeAllAway(rest), last);
      AllAmongStep(s, rest, last);
      RemoveOneMore(s.listing, AllAmong(s, Parted(rest)), last.owner);
      hide *;
    }
  }

  lemma AllAmongNone<M, C>(s: Snapshot<M, C>)
    ensures AllAmong(s, Parted<M, C>([])) == {}
  {
    assert forall m | m in s.lists && s.lists[m] != [] :: s.lists[m][0] in s.lists[m];
  }

  lemma TakeAwaySelected<M, C>(s: Snapshot<M, C>, p: Parting<M, C>)
    requires s.Valid() && p.owner in s.lists && p.owner in s.places
    ensures var r := s.TakeAway(p).listing;
            r == (if Without(s.lists[p.owner], p.contact) == [] then s.listing.Remove(p.owner) else s.listing)
                 .(selectedGroups := r.selectedGroups)
  {
    var t := s.(lists := s.lists[p.owner := Without(s.lists[p.owner], p.contact)]);
    ReapMeaning(t, p.owner);
    hide Without, Snapshot.Reap, NoDup;
  }

  /**
    The i-th parting empties the last listed metacontact of a group, which is the first group of that
    metacontact: what makes a group go.
   */
  ghost predicate LastOut<M, C>(s: Snapshot<M, C>, ps: seq<Parting<M, C>>, i: nat)
    requires s.Valid() && Proper(s, ps) && i < |ps|
  {
    assert ps[i] in ps;
    var owner := ps[i].owner;
    assert Sound(s.places[owner]);
    var group := s.places[owner].groups[0];
    && owner in s.listing.metaContacts && group != TopLevel
    && forall m | m in s.listing.metaContacts && group in s.places[m].groups :: m in AllAmong(s, Parted(ps[..i + 1]))
  }

  /** The groups that go with the contacts taken away. */
  ghost function GoneGroups<M, C>(s: Snapshot<M, C>, ps: seq<Parting<M, C>>): set<Group>
    requires s.Valid() && Proper(s, ps)
  {
    set i | 0 <= i < |ps| && LastOut(s, ps, i) :: FirstGroup(s, ps, i)
  }

  ghost function FirstGroup<M, C>(s: Snapshot<M, C>, ps: seq<Parting<M, C>>, i: nat): Group
    requires s.Valid() && Proper(s, ps) && i < |ps|
  {
    assert ps[i] in ps;
    assert Sound(s.places[ps[i].owner]);
    s.places[ps[i].owner].groups[0]
  }

  /**
    Nobody changes groups and nobody is told to delete itself. Exactly those groups go whose listed
    members all go, when the last of them to be emptied has the group as its first; they leave the
    selection too.
   */
  lemma {:induction false} TakeAllAwayGroups<M, C>(s: Snapshot<M, C>, ps: seq<Parting<M, C>>)
    requires s.Valid() && Proper(s, ps)
    ensures var r := s.TakeAllAway(ps);
            && r.told == s.told && r.places == s.places
            && r.groups == Drop(s.groups, GoneGroups(s, ps))
            && r.listing.selectedGroups == Drop(s.listing.selectedGroups, GoneGroups(s, ps))
    decreases |ps|
  {
    if ps == [] {
      assert GoneGroups(s, ps) == {};
    } else {
      var rest, last := ps[..|ps| - 1], ps[|ps| - 1];
      assert ps == rest + [last];
      assert Proper(s, rest);
      TakeAllAwayGroups(s, rest);
      TakeAwayGroups(s.TakeAllAway(rest), last);
      GoneStep(s, rest, last);
      assert s.TakeAllAway(ps) == s.TakeAllAway(rest).TakeAway(last);
      var more := GoneWith(s.TakeAllAway(rest), last);
      DropMore(s.groups, GoneGroups(s, rest), more);
      DropMore(s.listing.selectedGroups, GoneGroups(s, rest), more);
      hide *;
    }
  }

  /** The group that goes when one contact is taken away. */
  ghost function GoneWith<M, C>(s: Snapshot<M, C>, p: Parting<M, C>): set<Group>
    requires s.Valid() && p.owner in s.lists && p.owner in s.places
  {
    if s.Part(p).lists[p.owner] == [] then GoesAlong(s, p.owner) else {}
  }

  lemma TakeAwayGroups<M, C>(s: Snapshot<M, C>, p: Parting<M, C>)
    requires s.Valid() && p.owner in s.lists && p.owner in s.places
    ensures var r, gone := s.TakeAway(p), GoneWith(s, p);
            && r.told == s.told && r.places == s.places
            && r.groups == Drop(s.groups, gone) && r.listing.selectedGroups == Drop(s.listing.selectedGroups, gone)
  {
    ReapMeaning(s.Part(p), p.owner);
    ReapGroups(s.Part(p), p.owner);
    hide Snapshot.Reap, Without;
  }

  /** One more parting: the group that goes now is one more that goes. */
  lemma GoneStep<M, C>(s: Snapshot<M, C>, rest: seq<Parting<M, C>>, last: Parting<M, C>)
    requires s.Valid() && Proper(s, rest) && Proper(s, rest + [last])
    ensures last.owner in s.TakeAllAway(rest).lists && last.owner in s.TakeAllAway(rest).places
    ensures GoneGroups(s, rest + [last]) == GoneGroups(s, rest) + GoneWith(s.TakeAllAway(rest), last)
  {
    var ps := rest + [last];
    assert last in ps;
    forall i | 0 <= i < |rest|
      ensures LastOut(s, ps, i) == LastOut(s, rest, i) && FirstGroup(s, ps, i) == FirstGroup(s, rest, i)
    {
      assert ps[..i + 1] == rest[..i + 1];
    }
    LastStep(s, rest, last);
    assert FirstGroup(s, ps, |rest|) == s.places[last.owner].groups[0];
  }

  lemma LastStep<M, C>(s: Snapshot<M, C>, rest: seq<Parting<M, C>>, last: Parting<M, C>)
    requires s.Valid() && Proper(s, rest) && Proper(s, rest + [last])
    ensures last.owner in s.TakeAllAway(rest).lists && last.owner in s.TakeAllAway(rest).places
    ensures GoneWith(s.TakeAllAway(rest), last) ==
            if LastOut(s, rest + [last], |rest|) then {FirstGroup(s, rest + [last], |rest|)} else {}
  {
    var ps, t, o := rest + [last], s.TakeAllAway(rest), last.owner;
    assert last in ps && ps[|rest|] == last && ps[..|rest| + 1] == ps;
    TakeAllAwayLists(s, rest, o);
    TakeAllAwayListing(s, rest);
    AllAmongStep(s, rest, last);
    NotYetOut(s, rest, last);
    GoesAlongLater(s, t, AllAmong(s, Parted(rest)), o);
    hide Snapshot.TakeAllAway, Proper, AllAmong, Parted, Drop, Without, GoesAlong, Snapshot.Valid;
  }

  /** GoesAlong, in terms of the metacontacts that were listed before those of gone went. */
  lemma GoesAlongLater<M, C>(s: Snapshot<M, C>, t: Snapshot<M, C>, gone: set<M>, owner: M)
    requires s.Valid() && t.Valid() && t.places == s.places && owner in s.places && owner !in gone
    requires t.listing.metaContacts == Drop(s.listing.metaContacts, gone)
    ensures Sound(s.places[owner])
    ensures var group := s.places[owner].groups[0];
            GoesAlong(t, owner) ==
              if owner in s.listing.metaContacts && group != TopLevel
                 && forall m | m in s.listing.metaContacts && group in s.places[m].groups :: m in gone + {owner}
              then {group} else {}
  {
    hide Drop, NoDup;
  }

  lemma NotYetOut<M, C>(s: Snapshot<M, C>, rest: seq<Parting<M, C>>, last: Parting<M, C>)
    requires Proper(s, rest + [last])
    ensures last.owner in s.lists && last.owner !in AllAmong(s, Parted(rest))
  {
    var ps := rest + [last];
    assert ps[|rest|] == last && last in ps;
    assert forall i | 0 <= i < |rest| :: ps[i] == rest[i];
  }

  /** Nobody who is still listed is in a group that goes, and the top level never goes. */
  lemma GoneGroupsAreLeft<M, C>(s: Snapshot<M, C>, ps: seq<Parting<M, C>>, g: Group)
    requires s.Valid() && Proper(s, ps) && g in GoneGroups(s, ps)
    ensures g != TopLevel && forall m | m in s.TakeAllAway(ps).listing.metaContacts :: g !in s.places[m].groups
  {
    var i :| 0 <= i < |ps| && LastOut(s, ps, i) && FirstGroup(s, ps, i) == g;
    TakeAllAwayListing(s, ps);
    assert Parted(ps[..i + 1]) <= Parted(ps);
    assert ps[i] in ps;
  }
}
