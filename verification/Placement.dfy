/**
  Which groups a metacontact is in (libkopete/kopetemetacontact.cpp:938-1024, 1112-1129), as functions
  of the two fields those operations touch. The methods of MetaContact are proved to compute them.
 */
module Placement {
  import opened Basics
  import opened Lists

  /** A group, by identity. The three special groups are singletons of the program. */
  datatype Group = TopLevel | Temporary | Offline | Normal(id: nat)

  datatype Place = Place(temporary: bool, groups: seq<Group>)

  /** What the rest of the program relies on. */
  ghost predicate Sound(p: Place) {
    && p.groups != []
    && NoDup(p.groups)
    && (p.temporary ==> p.groups == [Temporary])
  }

  /** A metacontact as its constructor leaves it. */
  const FRESH := Place(false, [TopLevel])

  function AddTo(p: Place, to: Option<Group>): Place {
    if to.None? || to.value in p.groups then p
    else if p.temporary && to.value != Temporary then p
    else p.(groups := Without(p.groups, TopLevel) + [to.value])
  }

  function RemoveFrom(p: Place, group: Option<Group>): Place {
    if group.None? || group.value !in p.groups || (p.temporary && group.value == Temporary) then p
    else
      var rest := Without(p.groups, group.value);
      p.(groups := if rest == [] then [TopLevel] else rest)
  }

  function MoveTo(p: Place, from: Option<Group>, to: Option<Group>): Place {
    if from.None? || from.value !in p.groups then AddTo(p, to)
    else if from == to then p
    else if to.None? || to.value in p.groups then RemoveFrom(p, from)
    else if to.value == Offline then p
    else if p.temporary && to.value != Temporary then p
    else p.(groups := Without(p.groups, from.value) + [to.value])
  }

  /** The loop of setTemporary: leave every group of the list but the Temporary one. */
  function LeaveAllButTemporary(p: Place, gs: seq<Group>): Place
    decreases |gs|
  {
    if gs == [] then p
    else LeaveAllButTemporary(if gs[0] != Temporary then RemoveFrom(p, Some(gs[0])) else p, gs[1..])
  }

  function SetTemporary(p: Place, isTemporary: bool, group: Option<Group>): Place {
    var q := p.(temporary := isTemporary);
    if isTemporary then
      var r := AddTo(q, Some(Temporary));
      LeaveAllButTemporary(r, r.groups)
    else MoveTo(q, Some(Temporary), if group.Some? then group else Some(TopLevel))
  }

  datatype Op =
    | Add(to: Option<Group>)
    | Remove(from: Option<Group>)
    | Move(from: Option<Group>, to: Option<Group>)
    | Mark(isTemporary: bool, group: Option<Group>)

  function Apply(p: Place, op: Op): Place {
    match op
    case Add(to) => AddTo(p, to)
    case Remove(from) => RemoveFrom(p, from)
    case Move(from, to) => MoveTo(p, from, to)
    case Mark(t, g) => SetTemporary(p, t, g)
  }

  function Run(p: Place, ops: seq<Op>): Place
    decreases |ops|
  {
    if ops == [] then p else Run(Apply(p, ops[0]), ops[1..])
  }

  /** The loop ends in the Temporary group alone, whatever list of groups it started from. */
  lemma {:induction false} LeavingEndsInTemporary(p: Place, gs: seq<Group>)
    requires p.temporary && Temporary in p.groups && NoDup(p.groups)
    requires forall g | g in p.groups && g != Temporary :: g in gs
    ensures LeaveAllButTemporary(p, gs) == Place(true, [Temporary])
    decreases |gs|
  {
    if gs == [] {
      assert forall i | 0 <= i < |p.groups| :: p.groups[i] in p.groups;
      assert forall i | 0 <= i < |p.groups| :: p.groups[i] == Temporary;
      var last := |p.groups| - 1;
      assert p.groups[last] == p.groups[0];
      assert last == 0;
    } else {
      var q := if gs[0] != Temporary then RemoveFrom(p, Some(gs[0])) else p;
      assert gs == [gs[0]] + gs[1..];
      LeavingEndsInTemporary(q, gs[1..]);
    }
  }

  /** One operation keeps the invariant; marking as temporary establishes its last clause. */
  lemma ApplyKeepsSound(p: Place, op: Op)
    requires Sound(p)
    ensures Sound(Apply(p, op))
    ensures op.Mark? && op.isTemporary ==> Apply(p, op) == Place(true, [Temporary])
  {
    if op.Mark? && op.isTemporary {
      var r := AddTo(p.(temporary := true), Some(Temporary));
      assert NoDup(r.groups) && Temporary in r.groups;
      LeavingEndsInTemporary(r, r.groups);
    }
  }

  /** Every state reachable from any sound one, in particular from a fresh metacontact, is sound. */
  lemma {:induction false} RunKeepsSound(p: Place, ops: seq<Op>)
    requires Sound(p)
    ensures Sound(Run(p, ops))
    decreases |ops|
  {
    if ops != [] {
      ApplyKeepsSound(p, ops[0]);
      RunKeepsSound(Apply(p, ops[0]), ops[1..]);
    }
  }

  lemma FreshRunIsSound(ops: seq<Op>)
    ensures Sound(Run(FRESH, ops))
  {
    RunKeepsSound(FRESH, ops);
  }

  /** Only setTemporary moves a temporary metacontact: every other run leaves it as it is. */
  lemma {:induction false} TemporaryStaysPut(p: Place, ops: seq<Op>)
    requires Sound(p) && p.temporary
    requires forall op | op in ops :: !op.Mark?
    ensures Run(p, ops) == p
    decreases |ops|
  {
    if ops != [] {
      assert ops[0] in ops;
      assert Apply(p, ops[0]) == p;
      assert forall op | op in ops[1..] :: op in ops;
      TemporaryStaysPut(p, ops[1..]);
    }
  }

  /**
    Clearing the temporary mark takes the metacontact out of the Temporary group, into the group
    asked for (top level by default), unless that group is the Offline or the Temporary one.
   */
  lemma ClearingTheMark(p: Place, group: Option<Group>)
    requires Sound(p) && p.temporary
    ensures var q := SetTemporary(p, false, group);
            var target := if group.Some? then group.value else TopLevel;
            && !q.temporary
            && (Temporary in q.groups <==> target == Offline || target == Temporary)
            && q.groups == [if target == Offline then Temporary else target]
  {
    assert Without([Temporary], Temporary) == [];
  }

  lemma {:induction false} WithoutLast<T>(s: seq<T>, x: T)
    requires x !in s
    ensures Without(s + [x], x) == s
  {
    if s == [] {
      assert s + [x] == [x];
    } else {
      assert (s + [x])[1..] == s[1..] + [x] && s == [s[0]] + s[1..];
      WithoutLast(s[1..], x);
    }
  }

  /**
    Removing a group undoes adding it exactly when the metacontact was not at top level besides being
    in other groups: the top level is given up on the way and not restored.
   */
  lemma AddThenRemove(p: Place, g: Group)
    requires Sound(p) && !p.temporary && g !in p.groups
    ensures RemoveFrom(AddTo(p, Some(g)), Some(g)) == p <==> TopLevel !in p.groups || p.groups == [TopLevel]
  {
    var rest := Without(p.groups, TopLevel);
    WithoutLast(rest, g);
    assert p.groups != [];
    if rest == [] && TopLevel in p.groups {
      assert |p.groups| == 1 && p.groups == [p.groups[0]];
      assert p.groups[0] in p.groups;
    }
  }

  /**
    Moving out of a group it is in, into a group that may be entered, or, without such a target, out
    only: the metacontact leaves the one and is in the other, which comes last if it is new, and its
    other groups stay in their order. Only the top level is not left when it is the last group.
   */
  lemma MoveLeaves(p: Place, from: Group, to: Option<Group>)
    requires Sound(p) && !p.temporary && from in p.groups && to != Some(from)
    requires to == None || to.value in p.groups || to.value != Offline
    ensures var q := MoveTo(p, Some(from), to);
            && !q.temporary
            && (from in q.groups <==> from == TopLevel && to == None && p.groups == [TopLevel])
            && (to != None ==> to.value in q.groups)
            && (forall g | g != from && to != Some(g) ::
                  g in q.groups <==> g in p.groups || (g == TopLevel && to == None && p.groups == [from]))
            && (to == None && p.groups == [from] ==> q.groups == [TopLevel])
            && (to == None && p.groups != [from] ==> q.groups == Drop(p.groups, {from}))
            && (to != None ==> Drop(q.groups, {from, to.value}) == Drop(p.groups, {from, to.value}))
            && (to != None && to.value !in p.groups ==> q.groups[|q.groups| - 1] == to.value)
            && (to != None && to.value in p.groups ==> q.groups == Drop(p.groups, {from}))
  {
    var rest := Without(p.groups, from);
    WithoutIsDrop(p.groups, from);
    if rest == [] {
      OnlyGroup(p.groups, from);
    }
    if to != None {
      DropMore(p.groups, {from}, {from, to.value});
      assert {from} + {from, to.value} == {from, to.value};
      if to.value !in p.groups {
        DropMore(rest + [to.value], {to.value}, {from});
        WithoutIsDrop(rest + [to.value], to.value);
        WithoutLast(rest, to.value);
        DropMore(p.groups, {from}, {from});
        DropMore(p.groups, {from}, {to.value});
        assert {to.value} + {from} == {from, to.value} && {from} + {to.value} == {from, to.value};
        assert {from} + {from} == {from};
      }
    }
  }

  lemma OnlyGroup(groups: seq<Group>, g: Group)
    requires g in groups && Without(groups, g) == [] && NoDup(groups)
    ensures groups == [g]
  {
    assert forall i | 0 <= i < |groups| :: groups[i] in groups && groups[i] == g;
    assert |groups| == 1;
  }

  /**
    A move is refused exactly when source and target are the same, when the target is the Offline group
    and not held already, and when it would only leave the top level as the last group.
   */
  lemma MoveRefused(p: Place, from: Group, to: Option<Group>)
    requires Sound(p) && !p.temporary && from in p.groups
    ensures MoveTo(p, Some(from), to) == p <==>
              || to == Some(from)
              || (to == Some(Offline) && Offline !in p.groups)
              || (from == TopLevel && to == None && p.groups == [TopLevel])
  {
    if to != Some(from) && (to == None || to.value in p.groups || to.value != Offline) {
      MoveLeaves(p, from, to);
    }
  }

  /**
    From nowhere, or from a group it is not in, moving is adding: a new group, the Offline one included,
    comes last, the top level is given up, and the other groups stay in their order.
   */
  lemma MoveAdds(p: Place, from: Option<Group>, to: Option<Group>)
    requires Sound(p) && !p.temporary && (from == None || from.value !in p.groups)
    ensures var q := MoveTo(p, from, to);
            && q == AddTo(p, to)
            && (q == p <==> to == None || to.value in p.groups)
            && (q != p ==>
                  && q.groups[|q.groups| - 1] == to.value
                  && (TopLevel in q.groups <==> to.value == TopLevel)
                  && Drop(q.groups, {to.value}) == Drop(p.groups, {TopLevel}))
  {
    var rest := Without(p.groups, TopLevel);
    WithoutIsDrop(p.groups, TopLevel);
    if to != None && to.value !in p.groups {
      WithoutLast(rest, to.value);
      WithoutIsDrop(rest + [to.value], to.value);
    }
  }

  /** Leaving a group is moving to nowhere. */
  lemma RemoveIsMoveOut(p: Place, g: Group)
    requires Sound(p) && !p.temporary
    ensures RemoveFrom(p, Some(g)) == if g in p.groups then MoveTo(p, Some(g), None) else p
  {
  }

  /** Clearing a mark that is not set moves out of the Temporary group, if it is in that one. */
  lemma ClearingInGroup(p: Place, group: Option<Group>)
    requires Sound(p) && !p.temporary && Temporary in p.groups
    ensures var q, target := SetTemporary(p, false, group), if group == None then TopLevel else group.value;
            if target == Temporary || (target == Offline && Offline !in p.groups) then q == p
            else
              && Temporary !in q.groups && target in q.groups
              && forall g | g in p.groups && g != Temporary :: g in q.groups
  {
    var target := if group == None then TopLevel else group.value;
    if target != Temporary && (target != Offline || Offline in p.groups) {
      MoveLeaves(p, Temporary, Some(target));
    }
  }

  /** Otherwise it adds the group asked for, or the top level, to those it is in. */
  lemma ClearingNoMark(p: Place, group: Option<Group>)
    requires Sound(p) && !p.temporary && Temporary !in p.groups
    ensures var target := if group == None then TopLevel else group.value;
            && target in SetTemporary(p, false, group).groups
            && (SetTemporary(p, false, group) == p <==> target in p.groups)
  {
    MoveAdds(p, Some(Temporary), Some(if group == None then TopLevel else group.value));
  }

  /** Moving to another group and back only puts the first group behind the others. */
  lemma MoveThereAndBack(p: Place, a: Group, b: Group)
    requires Sound(p) && !p.temporary && a in p.groups && b !in p.groups && a != Offline && b != Offline
    ensures MoveTo(MoveTo(p, Some(a), Some(b)), Some(b), Some(a)) == p.(groups := Without(p.groups, a) + [a])
  {
    WithoutLast(Without(p.groups, a), b);
  }
}
