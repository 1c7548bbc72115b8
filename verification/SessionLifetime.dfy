/** When a chat session schedules its own deletion: the reference count, the permission and the view. */
module SessionLifetime {
  import opened Basics

  datatype Lifetime = Lifetime(refcount: nat, canBeDeleted: bool, view: bool, scheduled: bool)

  /** left counts the members of the session once a destroyed one is gone. */
  datatype Op =
    | Ref
    | Deref
    | SetCanBeDeleted(allowed: bool)
    | View(created: bool)
    | ViewDestroyed
    | MemberDestroyed(left: nat)
    | UserDestroyed

  const NEW_SESSION := Lifetime(0, true, false, false)

  function Apply(s: Lifetime, op: Op): Lifetime {
    match op
    case Ref => s.(refcount := (s.refcount + 1) % UINT_RANGE)
    case Deref =>
      var r := (s.refcount - 1) % UINT_RANGE;
      s.(refcount := r, scheduled := s.scheduled || (r < 1 && s.canBeDeleted && !s.view))
    case SetCanBeDeleted(b) =>
      s.(canBeDeleted := b, scheduled := s.scheduled || (s.refcount < (if b then 1 else 0) && !s.view))
    case View(created) => s.(view := s.view || created)
    case ViewDestroyed => s.(view := false, scheduled := s.scheduled || (s.canBeDeleted && s.refcount < 1))
    case MemberDestroyed(left) => s.(scheduled := s.scheduled || left == 0)
    case UserDestroyed => s.(scheduled := true)
  }

  predicate Deletable(s: Lifetime) {
    s.refcount == 0 && s.canBeDeleted && !s.view
  }

  function RunOps(s: Lifetime, ops: seq<Op>): Lifetime
    decreases ops
  {
    if ops == [] then s else RunOps(Apply(s, ops[0]), ops[1..])
  }

  /** No reference is taken while the counter is at its largest value. */
  ghost predicate NoWrap(s: Lifetime, ops: seq<Op>)
    decreases ops
  {
    ops == [] || (!(ops[0] == Ref && s.refcount == UINT_RANGE - 1) && NoWrap(Apply(s, ops[0]), ops[1..]))
  }

  /** The destruction of the last member or of the user, which schedules deletion whatever stands against it. */
  predicate Bereaves(op: Op) {
    op == UserDestroyed || op == MemberDestroyed(0)
  }

  /** Deletion is scheduled exactly by a bereavement, or by one of the closing calls with nothing against it. */
  lemma ScheduledExactlyWhen(s: Lifetime, op: Op)
    requires s.refcount < UINT_RANGE && !s.scheduled
    ensures Apply(s, op).scheduled <==>
              || Bereaves(op)
              || (Deletable(Apply(s, op)) && (op == Deref || op == SetCanBeDeleted(true) || op == ViewDestroyed))
  {
  }

  /** A session that something stands against is scheduled exactly by a bereavement. */
  lemma HeldUpButBereaved(s: Lifetime, op: Op)
    requires s.refcount < UINT_RANGE && !s.scheduled && !Deletable(Apply(s, op))
    ensures Apply(s, op).scheduled <==> Bereaves(op)
  {
    ScheduledExactlyWhen(s, op);
  }

  /** Whichever call makes the last of the three conditions true schedules deletion, a wrapping ref() aside. */
  lemma LastConditionSchedules(s: Lifetime, op: Op)
    requires s.refcount < UINT_RANGE && !Deletable(s) && Deletable(Apply(s, op))
    ensures Apply(s, op).scheduled <==> s.scheduled || !(op == Ref && s.refcount == UINT_RANGE - 1)
  {
  }

  /** Over any run: a session that was held up and ends with nothing against deletion has scheduled it. */
  lemma {:induction false} HeldUpThenScheduled(s: Lifetime, ops: seq<Op>)
    requires s.refcount < UINT_RANGE && NoWrap(s, ops)
    requires s.scheduled || !Deletable(s)
    requires Deletable(RunOps(s, ops))
    ensures RunOps(s, ops).scheduled
    decreases ops
  {
    if ops != [] {
      var t := Apply(s, ops[0]);
      if !s.scheduled && Deletable(t) {
        LastConditionSchedules(s, ops[0]);
      }
      HeldUpThenScheduled(t, ops[1..]);
    }
  }

  // ---------- a session is what was done to it ----------

  /** ref() less deref() calls. */
  function Net(ops: seq<Op>): int {
    if ops == [] then 0
    else (if ops[0] == Ref then 1 else if ops[0] == Deref then -1 else 0) + Net(ops[1..])
  }

  /** A view has been made, and not been destroyed since. */
  ghost predicate ViewStands(ops: seq<Op>) {
    exists i :: 0 <= i < |ops| && ops[i] == View(true) && forall j | i < j < |ops| :: ops[j] != ViewDestroyed
  }

  /** Deletion was last allowed, or last forbidden. */
  ghost predicate LastSaid(ops: seq<Op>, allowed: bool) {
    exists i :: 0 <= i < |ops| && ops[i] == SetCanBeDeleted(allowed)
             && forall j | i < j < |ops| :: ops[j] != SetCanBeDeleted(!allowed)
  }

  /**
    Over any run: the count is what it was, moved by every ref() and deref(), modulo the width of the
    counter; there is a view exactly if one was made, or there at the start, and not destroyed since; and
    deletion is allowed as was last said, or as it was if nothing was.
   */
  lemma HistoryDecides(s: Lifetime, ops: seq<Op>)
    requires s.refcount < UINT_RANGE
    ensures var r := RunOps(s, ops);
            && r.refcount == (s.refcount + Net(ops)) % UINT_RANGE
            && (r.view <==> ViewStands(ops) || (s.view && ViewDestroyed !in ops))
            && (r.canBeDeleted <==>
                  LastSaid(ops, true) || (s.canBeDeleted && SetCanBeDeleted(false) !in ops))
            && (s.scheduled ==> r.scheduled)
  {
    hide *;
    CountOverRun(s, ops);
    ViewOverRun(s, ops);
    SaidOverRun(s, ops);
  }

  lemma {:induction false} CountOverRun(s: Lifetime, ops: seq<Op>)
    requires s.refcount < UINT_RANGE
    ensures var r := RunOps(s, ops);
            r.refcount == (s.refcount + Net(ops)) % UINT_RANGE && (s.scheduled ==> r.scheduled)
    decreases ops
  {
    if ops != [] {
      OneOp(s, ops);
      CountOverRun(Apply(s, ops[0]), ops[1..]);
      CountMoves(s.refcount, ops[0], Net(ops[1..]));
      hide RunOps, Net;
    }
  }

  lemma {:induction false} ViewOverRun(s: Lifetime, ops: seq<Op>)
    ensures RunOps(s, ops).view <==> ViewStands(ops) || (s.view && ViewDestroyed !in ops)
    decreases ops
  {
    if ops != [] {
      OneOp(s, ops);
      ViewOverRun(Apply(s, ops[0]), ops[1..]);
      ViewFirst(ops);
      assert ops == [ops[0]] + ops[1..];
      hide RunOps, ViewStands;
    }
  }

  lemma {:induction false} SaidOverRun(s: Lifetime, ops: seq<Op>)
    ensures RunOps(s, ops).canBeDeleted <==>
            LastSaid(ops, true) || (s.canBeDeleted && SetCanBeDeleted(false) !in ops)
    decreases ops
  {
    if ops != [] {
      OneOp(s, ops);
      SaidOverRun(Apply(s, ops[0]), ops[1..]);
      SaidFirst(ops, true);
      assert ops == [ops[0]] + ops[1..];
      hide RunOps, LastSaid;
    }
  }

  lemma OneOp(s: Lifetime, ops: seq<Op>)
    requires ops != []
    ensures RunOps(s, ops) == RunOps(Apply(s, ops[0]), ops[1..])
    ensures Net(ops) == (if ops[0] == Ref then 1 else if ops[0] == Deref then -1 else 0) + Net(ops[1..])
  {
  }

  lemma CountMoves(n: nat, op: Op, more: int)
    requires n < UINT_RANGE
    ensures var m := (if op == Ref then 1 else if op == Deref then -1 else 0);
            ((n + m) % UINT_RANGE + more) % UINT_RANGE == (n + (m + more)) % UINT_RANGE
  {
  }

  lemma ViewFirst(ops: seq<Op>)
    requires ops != []
    ensures ViewStands(ops) <==> ViewStands(ops[1..]) || (ops[0] == View(true) && ViewDestroyed !in ops[1..])
  {
    var rest := ops[1..];
    if i :| 0 <= i < |rest| && rest[i] == View(true) && forall j | i < j < |rest| :: rest[j] != ViewDestroyed {
      assert ops[i + 1] == View(true) && forall j | i + 1 < j < |ops| :: ops[j] == rest[j - 1];
    }
    if i :| 0 <= i < |ops| && ops[i] == View(true) && forall j | i < j < |ops| :: ops[j] != ViewDestroyed {
      assert forall j | 0 <= j < |rest| :: rest[j] == ops[j + 1];
      if i > 0 {
        assert rest[i - 1] == View(true);
      }
    }
  }

  lemma SaidFirst(ops: seq<Op>, b: bool)
    requires ops != []
    ensures LastSaid(ops, b) <==>
            LastSaid(ops[1..], b) || (ops[0] == SetCanBeDeleted(b) && SetCanBeDeleted(!b) !in ops[1..])
  {
    var rest, no := ops[1..], SetCanBeDeleted(!b);
    if i :| 0 <= i < |rest| && rest[i] == SetCanBeDeleted(b) && (forall j | i < j < |rest| :: rest[j] != no) {
      assert ops[i + 1] == rest[i] && forall j | i + 1 < j < |ops| :: ops[j] == rest[j - 1];
    }
    if i :| 0 <= i < |ops| && ops[i] == SetCanBeDeleted(b) && (forall j | i < j < |ops| :: ops[j] != no) {
      assert forall j | 0 <= j < |rest| :: rest[j] == ops[j + 1];
      if i > 0 {
        assert rest[i - 1] == SetCanBeDeleted(b);
      }
    }
  }

  class ChatSession {
    var refcount: nat
    var mCanBeDeleted: bool
    var view: bool
    var scheduled: bool

    ghost function State(): Lifetime
      reads this
    {
      Lifetime(refcount, mCanBeDeleted, view, scheduled)
    }

    constructor ()
      ensures State() == NEW_SESSION
    {
      refcount, mCanBeDeleted, view, scheduled := 0, true, false, false;
    }

    /** setCanBeDeleted: the unsigned count is never below zero, so forbidding deletion never schedules it. */
    method DoSetCanBeDeleted(b: bool)
      modifies this
      ensures State() == Apply(old(State()), SetCanBeDeleted(b))
    {
      mCanBeDeleted := b;
      if refcount < (if b then 1 else 0) && !view {
        scheduled := true;
      }
    }

    method DoRef()
      modifies this
      ensures State() == Apply(old(State()), Ref)
    {
      refcount := (refcount + 1) % UINT_RANGE;
    }

    method DoDeref()
      modifies this
      ensures State() == Apply(old(State()), Deref)
    {
      refcount := (refcount - 1) % UINT_RANGE;
      if refcount < 1 && mCanBeDeleted && !view {
        scheduled := true;
      }
    }

    /** view(true), where created says whether the view plugin made one. */
    method CreateView(created: bool)
      modifies this
      ensures State() == Apply(old(State()), View(created))
    {
      if !view {
        view := created;
      }
    }

    method SlotViewDestroyed()
      modifies this
      ensures State() == Apply(old(State()), ViewDestroyed)
    {
      view := false;
      if mCanBeDeleted && refcount < 1 {
        scheduled := true;
      }
    }

    /** slotContactDestroyed, for a contact that is a member; left members remain. */
    method SlotContactDestroyed(left: nat)
      modifies this
      ensures State() == Apply(old(State()), MemberDestroyed(left))
    {
      if left == 0 {
        scheduled := true;
      }
    }

    method SlotMyselfDestroyed()
      modifies this
      ensures State() == Apply(old(State()), UserDestroyed)
    {
      scheduled := true;
    }
  }
}
