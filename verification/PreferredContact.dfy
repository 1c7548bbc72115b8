/**
  The child a metacontact is reached through (libkopete/kopetemetacontact.cpp:341-395). A child is
  described by what the choice looks at; connected is false for a child without an account.
 */
module PreferredContact {
  import opened Basics
  import opened OnlineStatuses
  import opened Placement

  datatype Child = Child(hasSession: bool, reachable: bool, connected: bool, status: OnlineStatus, priority: nat)

  predicate Usable(c: Child) {
    c.connected && c.reachable
  }

  /** A strictly better child: by status type, then by account priority, then by weight. */
  predicate Beats(c: Child, d: Child) {
    if c.status.status == d.status.status then
      c.priority > d.priority || (c.priority == d.priority && c.status.weight > d.status.weight)
    else Rank(c.status.status) > Rank(d.status.status)
  }

  lemma BeatsIsStrictWeakOrder(a: Child, b: Child, c: Child)
    ensures !Beats(a, a)
    ensures Beats(a, b) && Beats(b, c) ==> Beats(a, c)
    ensures !Beats(a, b) && !Beats(b, c) ==> !Beats(a, c)
  {
    assert forall x: StatusType, y: StatusType :: Rank(x) == Rank(y) ==> x == y;
  }

  /** The first of the first n children with an open session, or n. */
  ghost function FirstOpen(cs: seq<Child>, n: nat): (f: nat)
    requires n <= |cs|
    ensures f <= n && (f < n ==> cs[f].hasSession) && forall j | 0 <= j < f :: !cs[j].hasSession
  {
    if n == 0 then 0
    else
      var f := FirstOpen(cs, n - 1);
      if f < n - 1 || cs[n - 1].hasSession then f else n
  }

  /** The first of the first n children after f that is usable and better than f, or n. */
  ghost function FirstRescue(cs: seq<Child>, f: nat, n: nat): (g: nat)
    requires f < n <= |cs|
    ensures f < g <= n && (g < n ==> Usable(cs[g]) && Beats(cs[g], cs[f]))
    ensures forall j | f < j < g :: !(Usable(cs[j]) && Beats(cs[j], cs[f]))
  {
    if n == f + 1 then n
    else
      var g := FirstRescue(cs, f, n - 1);
      if g < n - 1 || (Usable(cs[n - 1]) && Beats(cs[n - 1], cs[f])) then g else n
  }

  /** The usable children with a session between positions f and n. */
  ghost function Open(cs: seq<Child>, f: nat, n: nat): set<nat>
    requires n <= |cs|
  {
    set j | f < j < n && cs[j].hasSession && Usable(cs[j])
  }

  ghost function AllUsable(cs: seq<Child>, n: nat): set<nat>
    requires n <= |cs|
  {
    set j | 0 <= j < n && Usable(cs[j])
  }

  lemma OpenStep(cs: seq<Child>, f: nat, n: nat)
    requires n < |cs|
    ensures f < n ==>
      Open(cs, f, n + 1) == if cs[n].hasSession && Usable(cs[n]) then Open(cs, f, n) + {n} else Open(cs, f, n)
    ensures f >= n ==> Open(cs, f, n + 1) == {}
    ensures AllUsable(cs, n + 1) == if Usable(cs[n]) then AllUsable(cs, n) + {n} else AllUsable(cs, n)
  {
  }

  /**
    The children, among the first n, between which the choice is made. Without any session these are
    the usable ones. Otherwise the first child with a session takes part, reachable or not, together
    with the usable children that have a session; but if it is not reachable, only what comes after
    the first usable child that beats it counts, and it is alone if there is none.
   */
  ghost function Candidates(cs: seq<Child>, n: nat): set<nat>
    requires n <= |cs|
  {
    var f := FirstOpen(cs, n);
    if f == n then AllUsable(cs, n)
    else if cs[f].reachable then {f} + Open(cs, f, n)
    else
      var g := FirstRescue(cs, f, n);
      if g == n then {f} else {g} + Open(cs, g, n)
  }

  /** k is the first candidate that no candidate beats. */
  ghost predicate FirstBest(cs: seq<Child>, candidates: set<nat>, k: nat)
    requires forall j | j in candidates :: j < |cs|
  {
    && k in candidates
    && (forall j | j in candidates :: !Beats(cs[j], cs[k]))
    && (forall j | j in candidates && j < k :: Beats(cs[k], cs[j]))
  }

  /**
    What that means: no candidate has a higher status type; none of the same type an account of higher
    priority; none of the same type and priority a greater weight; and the first such one is k.
   */
  lemma FirstBestMeans(cs: seq<Child>, candidates: set<nat>, k: nat)
    requires forall j | j in candidates :: j < |cs|
    ensures FirstBest(cs, candidates, k) <==>
              && k in candidates
              && forall j | j in candidates ::
                   var c, d := cs[k], cs[j];
                   && Rank(d.status.status) <= Rank(c.status.status)
                   && (d.status.status == c.status.status ==> d.priority <= c.priority)
                   && (d.status.status == c.status.status && d.priority == c.priority ==>
                         d.status.weight <= c.status.weight && (d.status.weight == c.status.weight ==> k <= j))
  {
    assert forall x: StatusType, y: StatusType :: Rank(x) == Rank(y) ==> x == y;
  }

  /** What the loop knows after i children. */
  ghost predicate Stands(cs: seq<Child>, i: nat, contact: Option<nat>, hasOpenView: bool) {
    && i <= |cs|
    && (contact.Some? ==> contact.value < i)
    && (contact.None? <==> Candidates(cs, i) == {})
    && (contact.Some? ==> forall j | j in Candidates(cs, i) :: j < |cs|)
    && (contact.Some? ==> FirstBest(cs, Candidates(cs, i), contact.value))
    && hasOpenView == (FirstOpen(cs, i) < i)
    && (hasOpenView ==> contact.Some? && (cs[contact.value].reachable <==>
         cs[FirstOpen(cs, i)].reachable || FirstRescue(cs, FirstOpen(cs, i), i) < i))
  }

  /** The contact chosen once child i has been looked at. */
  function Next(cs: seq<Child>, i: nat, contact: Option<nat>, hasOpenView: bool): Option<nat>
    requires i < |cs| && (contact.Some? ==> contact.value < |cs|) && (hasOpenView ==> contact.Some?)
  {
    if cs[i].hasSession && !hasOpenView then Some(i)
    else if !Usable(cs[i]) || (!cs[i].hasSession && hasOpenView && cs[contact.value].reachable) then contact
    else if contact.None? || Beats(cs[i], cs[contact.value]) then Some(i)
    else contact
  }

  lemma NextStands(cs: seq<Child>, i: nat, contact: Option<nat>, hasOpenView: bool)
    requires i < |cs| && Stands(cs, i, contact, hasOpenView)
    ensures Stands(cs, i + 1, Next(cs, i, contact, hasOpenView), hasOpenView || cs[i].hasSession)
  {
    CandidatesStep(cs, i);
    CandidatesBelow(cs, i);
    RescueStep(cs, i);
    if contact.Some? {
      BestStep(cs, Candidates(cs, i), contact.value, i);
    }
    hide Candidates, FirstOpen, FirstRescue, FirstBest, Beats;
  }

  /** preferredContact: null exactly when there is no candidate, the first best candidate otherwise. */
  method Preferred(cs: seq<Child>) returns (contact: Option<nat>)
    ensures contact.None? <==> Candidates(cs, |cs|) == {}
    ensures contact.Some? ==> FirstBest(cs, Candidates(cs, |cs|), contact.value)
  {
    contact := None;
    var hasOpenView := false;
    for i := 0 to |cs|
      invariant Stands(cs, i, contact, hasOpenView)
    {
      NextStands(cs, i, contact, hasOpenView);
      assert (contact.Some? ==> contact.value < i) && (hasOpenView ==> contact.Some?);
      hide Stands, Candidates;
      var c := cs[i];
      if c.hasSession {
        if !hasOpenView {
          contact := Some(i);
          hasOpenView := true;
          if c.reachable {
            continue;
          }
        }
      } else if hasOpenView && cs[contact.value].reachable {
        continue;
      }
      if !c.connected || !c.reachable {
        continue;
      }
      if contact.None? {
        contact := Some(i);
        continue;
      }
      if Rank(c.status.status) > Rank(cs[contact.value].status.status) {
        contact := Some(i);
      } else if c.status.status == cs[contact.value].status.status {
        if c.priority > cs[contact.value].priority {
          contact := Some(i);
        } else if c.priority == cs[contact.value].priority && c.status.weight > cs[contact.value].status.weight {
          contact := Some(i);
        }
      }
    }
  }

  /** A later candidate takes over exactly when it beats the best so far. */
  lemma BestStep(cs: seq<Child>, candidates: set<nat>, k: nat, n: nat)
    requires n < |cs| && (forall j | j in candidates :: j < n) && FirstBest(cs, candidates, k)
    ensures FirstBest(cs, candidates + {n}, if Beats(cs[n], cs[k]) then n else k)
  {
    forall j | j in candidates
      ensures Beats(cs[n], cs[k]) ==> !Beats(cs[j], cs[n]) && Beats(cs[n], cs[j])
      ensures !Beats(cs[n], cs[k]) ==> !Beats(cs[j], cs[k])
    {
      BeatsIsStrictWeakOrder(cs[j], cs[n], cs[k]);
      BeatsIsStrictWeakOrder(cs[n], cs[k], cs[j]);
      BeatsIsStrictWeakOrder(cs[n], cs[j], cs[k]);
    }
  }

  lemma CandidatesBelow(cs: seq<Child>, n: nat)
    requires n <= |cs|
    ensures forall j | j in Candidates(cs, n) :: j < n
    ensures n < |cs| ==> FirstBest(cs, {n}, n)
    ensures FirstOpen(cs, n) < n ==> Candidates(cs, n) != {}
  {
    var f := FirstOpen(cs, n);
    if f < n {
      assert f in Candidates(cs, n) || FirstRescue(cs, f, n) in Candidates(cs, n);
    }
  }

  /** How the first session and its rescue move with one more child. */
  lemma RescueStep(cs: seq<Child>, n: nat)
    requires n < |cs|
    ensures var f := FirstOpen(cs, n);
            && FirstOpen(cs, n + 1) == (if f < n || cs[n].hasSession then f else n + 1)
            && (f < n ==>
                  var g := FirstRescue(cs, f, n);
                  FirstRescue(cs, f, n + 1) == if g < n || (Usable(cs[n]) && Beats(cs[n], cs[f])) then g else n + 1)
            && (f == n && cs[n].hasSession ==> FirstRescue(cs, n, n + 1) == n + 1)
  {
  }

  /** One more child: who joins or replaces the candidates. */
  lemma CandidatesStep(cs: seq<Child>, n: nat)
    requires n < |cs|
    ensures var f := FirstOpen(cs, n);
            Candidates(cs, n + 1) ==
              if f == n then
                if cs[n].hasSession then {n} else if Usable(cs[n]) then Candidates(cs, n) + {n} else Candidates(cs, n)
              else if cs[f].reachable || FirstRescue(cs, f, n) < n then
                if cs[n].hasSession && Usable(cs[n]) then Candidates(cs, n) + {n} else Candidates(cs, n)
              else if Usable(cs[n]) && Beats(cs[n], cs[f]) then {n}
              else {f}
  {
    var f := FirstOpen(cs, n);
    RescueStep(cs, n);
    hide Open, AllUsable, FirstOpen, FirstRescue, Usable, Beats;
    if f == n {
      OpenStep(cs, n, n);
    } else if cs[f].reachable {
      ReachableStep(cs, f, n);
    } else {
      RescuedStep(cs, f, n);
    }
  }

  lemma ReachableStep(cs: seq<Child>, f: nat, n: nat)
    requires n < |cs| && f == FirstOpen(cs, n) < n && cs[f].reachable
    ensures Candidates(cs, n + 1) ==
      if cs[n].hasSession && Usable(cs[n]) then Candidates(cs, n) + {n} else Candidates(cs, n)
  {
    RescueStep(cs, n);
    OpenStep(cs, f, n);
    hide Open, AllUsable, FirstOpen, FirstRescue, Usable, Beats;
    assert {f} + (Open(cs, f, n) + {n}) == ({f} + Open(cs, f, n)) + {n};
  }

  lemma RescuedStep(cs: seq<Child>, f: nat, n: nat)
    requires n < |cs| && f == FirstOpen(cs, n) < n && !cs[f].reachable
    ensures Candidates(cs, n + 1) ==
              if FirstRescue(cs, f, n) < n then
                if cs[n].hasSession && Usable(cs[n]) then Candidates(cs, n) + {n} else Candidates(cs, n)
              else if Usable(cs[n]) && Beats(cs[n], cs[f]) then {n}
              else {f}
  {
    var g := FirstRescue(cs, f, n);
    RescueStep(cs, n);
    OpenStep(cs, g, n);
    hide Open, AllUsable, FirstOpen, FirstRescue, Usable, Beats;
    if g < n {
      assert {g} + (Open(cs, g, n) + {n}) == ({g} + Open(cs, g, n)) + {n};
    }
  }

  /**
    An unreachable child is chosen exactly when the first child with a session is unreachable and no
    usable child after it beats it; so with every session on a reachable child the choice is reachable.
   */
  lemma UnreachableChoice(cs: seq<Child>, k: nat)
    requires k < |cs| && FirstBest(cs, Candidates(cs, |cs|), k)
    ensures var f := FirstOpen(cs, |cs|);
            !cs[k].reachable <==>
              f < |cs| && !cs[f].reachable && forall j | f < j < |cs| :: !(Usable(cs[j]) && Beats(cs[j], cs[f]))
  {
  }

  /**
    When the first child with a session is unreachable and a usable child after it beats it, the choice is
    the first such child, or a usable child with a session behind that one.
   */
  lemma RescuedChoice(cs: seq<Child>, g: nat, k: nat)
    requires k < |cs| && FirstBest(cs, Candidates(cs, |cs|), k)
    requires var f := FirstOpen(cs, |cs|);
             && f < g < |cs| && !cs[f].reachable && Usable(cs[g]) && Beats(cs[g], cs[f])
             && forall j | f < j < g :: !(Usable(cs[j]) && Beats(cs[j], cs[f]))
    ensures cs[k].reachable && cs[k].connected && (k == g || (k > g && cs[k].hasSession))
    ensures forall j | g < j < |cs| && cs[j].hasSession && cs[j].reachable && cs[j].connected :: !Beats(cs[j], cs[k])
  {
    var f := FirstOpen(cs, |cs|);
    var first := FirstRescue(cs, f, |cs|);
    assert first == g;
    forall j | g < j < |cs| && cs[j].hasSession && cs[j].reachable && cs[j].connected ensures !Beats(cs[j], cs[k]) {
      assert j in Candidates(cs, |cs|);
    }
  }

  /**
    If every reachable child is connected: without sessions the choice is among the reachable children,
    and none is chosen exactly when none is reachable; when the first child with a session is
    reachable, the choice is among the reachable children with a session.
   */
  lemma PlainCases(cs: seq<Child>)
    requires forall c | c in cs :: c.reachable ==> c.connected
    ensures var f := FirstOpen(cs, |cs|);
            && (f == |cs| ==> Candidates(cs, |cs|) == set j | 0 <= j < |cs| && cs[j].reachable)
            && (f < |cs| && cs[f].reachable ==>
                  Candidates(cs, |cs|) == set j | 0 <= j < |cs| && cs[j].reachable && cs[j].hasSession)
  {
    assert forall j | 0 <= j < |cs| :: cs[j] in cs;
  }
}
