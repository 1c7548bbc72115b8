/** The chat session and the members model as objects, each operation proved to be one step of the room. */
module ChatRoom {
  import opened Lists
  import opened MemberOrder
  import opened MembersModel

  class ChatSessionMembersListModel<C(==, !new)> {
    var contacts: seq<C>

    constructor ()
      ensures contacts == []
    {
      contacts := [];
    }

    /** key is what the session says of each contact at this moment. */
    method SlotContactAdded(contact: C, key: C -> Key)
      modifies this
      ensures contacts == Put(old(contacts), contact, key)
    {
      var index := GetInsertIndex(contacts, key, contact);
      contacts := contacts[..index] + [contact] + contacts[index..];
    }

    method SlotContactRemoved(contact: C)
      modifies this
      ensures contacts == RemoveFirst(old(contacts), contact)
    {
      var index := IndexOf(contacts, contact);
      if index == -1 {
        return;
      }
      contacts := contacts[..index] + contacts[index + 1..];
    }

    /** slotContactStatusChanged and slotContactNickNameChanged */
    method SlotContactChanged(contact: C, key: C -> Key)
      modifies this
      ensures contacts == Put(RemoveFirst(old(contacts), contact), contact, key)
    {
      SlotContactRemoved(contact);
      SlotContactAdded(contact, key);
    }

    method SetChatSession(session: ChatSession<C>, rebalance: Tree<C> -> Tree<C>)
      requires session.model == this
      requires forall t: Tree<C> :: InOrder(rebalance(t)) == InOrder(t)
      modifies this, session
      ensures session.model == this
      ensures session.State() == Step(old(session.State()), Attach)
    {
      session.connected := true;
      contacts := [];
      contacts := InsertMultiple(contacts, session.contacts, session.KeysNow(), rebalance);
      assert [] + session.contacts == session.contacts;
      SlotContactAdded(session.myself, session.KeysNow());
    }
  }

  lemma NotFirst<C>(s: seq<C>, x: C)
    requires s != [] && s[0] != x
    ensures RemoveFirst(s, x) == [s[0]] + RemoveFirst(s[1..], x)
  {
  }

  lemma NoneLeft<C>(s: seq<C>, x: C)
    requires s == []
    ensures RemoveFirst(s, x) == []
  {
  }

  lemma First<C>(s: seq<C>, x: C)
    requires s != [] && s[0] == x
    ensures RemoveFirst(s, x) == s[1..]
  {
  }

  /** QList::indexOf, and what removing at that index leaves. */
  method IndexOf<C(==)>(s: seq<C>, x: C) returns (index: int)
    ensures index == -1 ==> RemoveFirst(s, x) == s
    ensures index != -1 ==> 0 <= index < |s| && s[index] == x && RemoveFirst(s, x) == s[..index] + s[index + 1..]
  {
    hide RemoveFirst;
    index := 0;
    while index < |s| && s[index] != x
      invariant 0 <= index <= |s|
      invariant RemoveFirst(s, x) == s[..index] + RemoveFirst(s[index..], x)
    {
      NotFirst(s[index..], x);
      assert s[index..][1..] == s[index + 1..];
      assert s[..index] + [s[index]] == s[..index + 1];
      index := index + 1;
    }
    if index == |s| {
      NoneLeft(s[index..], x);
      index := -1;
    } else {
      First(s[index..], x);
      assert s[index..][1..] == s[index + 1..];
    }
  }

  class ChatSession<C(==, !new)> {
    const myself: C
    const model: ChatSessionMembersListModel<C>
    var contacts: seq<C>
    var isEmpty: bool
    var contactStatus: map<C, int>
    var connected: bool
    var closing: bool
    // What the contacts themselves report.
    var own: C -> int
    var names: C -> Name

    ghost function State(): Room<C>
      reads this, model
    {
      Room(myself, contacts, isEmpty, contactStatus, own, names, closing, connected, model.contacts)
    }

    function KeysNow(): C -> Key
      reads this
    {
      Keys(contactStatus, own, names)
    }

    /** A session for user and others; no members model is connected yet. */
    constructor (user: C, others: seq<C>, own: C -> int, names: C -> Name)
      ensures fresh(model)
      ensures State() == AddAll(Room(user, [], others == [], map[], own, names, false, false, []), others)
    {
      myself := user;
      contacts := [];
      isEmpty := others == [];
      contactStatus := map[];
      connected := false;
      closing := false;
      this.own := own;
      this.names := names;
      model := new ChatSessionMembersListModel();
      new;
      ghost var start := State();
      for i := 0 to |others|
        invariant fresh(model)
        invariant AddAll(State(), others[i..]) == AddAll(start, others)
      {
        assert others[i..][0] == others[i] && others[i..][1..] == others[i + 1..];
        AddContact(others[i]);
      }
    }

    method AddContact(c: C)
      modifies this, model
      ensures State() == Step(old(State()), Add(c))
    {
      if c !in contacts {
        if |contacts| == 1 && isEmpty {
          var former := contacts[0];
          contacts := [c];
          if connected {
            model.SlotContactAdded(c, KeysNow());
            model.SlotContactRemoved(former);
          }
        } else {
          contacts := contacts + [c];
          if connected {
            model.SlotContactAdded(c, KeysNow());
          }
        }
      }
      isEmpty := false;
    }

    method AddContactWithStatus(c: C, initialStatus: int)
      modifies this, model
      ensures State() == Step(old(State()), AddWithStatus(c, initialStatus))
    {
      if c !in contactStatus {
        contactStatus := contactStatus[c := initialStatus];
      }
      AddContact(c);
    }

    method RemoveContact(c: C)
      modifies this, model
      ensures State() == Step(old(State()), Remove(c))
    {
      if c !in contacts {
        return;
      }
      if |contacts| == 1 {
        isEmpty := true;
      } else {
        contacts := Without(contacts, c);
      }
      contactStatus := contactStatus - {c};
      if connected {
        model.SlotContactRemoved(c);
      }
    }

    method SlotContactDestroyed(c: C)
      modifies this, model
      ensures State() == Step(old(State()), Destroyed(c))
    {
      if c !in contacts {
        return;
      }
      contacts := Without(contacts, c);
      if connected {
        model.SlotContactRemoved(c);
      }
      if contacts == [] {
        closing := true;
      }
    }

    /** A contact announced a change of status; members and the user are connected to this slot. */
    method SlotOnlineStatusChanged(c: C)
      modifies model
      ensures State() == Step(old(State()), Reannounce(c))
    {
      if connected && (c in contacts || c == myself) {
        model.SlotContactChanged(c, KeysNow());
      }
    }

    /** What contacts say of themselves changes, for any number of them at once, and nobody is told yet. */
    method ContactsChange(own: C -> int)
      modifies this`own
      ensures State() == Step(old(State()), Rekey(own))
    {
      this.own := own;
    }

    /** One contact changes its own status and announces it. */
    method ContactReports(c: C, weight: int)
      modifies this, model
      ensures State() == Step(old(State()), OwnStatus(c, weight))
    {
      var before := own;
      ContactsChange(x => if x == c then weight else before(x));
      SlotOnlineStatusChanged(c);
    }

    method SetContactOnlineStatus(c: C, weight: int)
      modifies this, model
      ensures State() == Step(old(State()), SessionStatus(c, weight))
    {
      contactStatus := contactStatus[c := weight];
      if connected {
        model.SlotContactChanged(c, KeysNow());
      }
    }

    /** The contact's name changes; only members are connected to slotDisplayNameChanged. */
    method SlotDisplayNameChanged(c: C, name: Name)
      modifies this, model
      ensures State() == Step(old(State()), Rename(c, name))
    {
      var before := names;
      names := x => if x == c then name else before(x);
      if connected && c in contacts {
        model.SlotContactChanged(c, KeysNow());
      }
    }
  }

  function AddAll<C(==)>(r: Room<C>, others: seq<C>): Room<C>
    decreases others
  {
    if others == [] then r else AddAll(AddMember(r, others[0]), others[1..])
  }

  /** A new session has each of the others once, so the list first shown for it is sorted and complete. */
  lemma {:induction false} NewSessionIsProper<C>(r: Room<C>, others: seq<C>)
    requires NoDup(r.members) && !r.isEmpty && r.myself !in r.members && r.myself !in others
    ensures var q := AddAll(r, others);
            Proper(q) && (forall c :: c in q.members <==> c in r.members || c in others)
    decreases others
  {
    if others != [] {
      NewSessionIsProper(AddMember(r, others[0]), others[1..]);
      assert others == [others[0]] + others[1..];
    }
  }

  /** From a new session, through any run of announced events, the shown list stays good. */
  lemma SessionRunIsGood<C>(user: C, others: seq<C>, own: C -> int, names: C -> Name, es: seq<Event<C>>)
    requires user !in others
    requires var r := AddAll(Room(user, [], others == [], map[], own, names, false, false, []), others);
             AllAnnounced(Step(r, Attach), es)
    ensures var r := AddAll(Room(user, [], others == [], map[], own, names, false, false, []), others);
            Good(Run(Step(r, Attach), es))
  {
    var start := Room(user, [], others == [], map[], own, names, false, false, []);
    var r := AddAll(start, others);
    if others != [] {
      NewSessionIsProper(start, others);
    }
    AttachIsGood(r);
    RunKeepsGood(Step(r, Attach), es);
  }
}
