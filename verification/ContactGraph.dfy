/**
  The contact graph: contacts, the metacontacts that list them, the accounts that register them and
  the contact list (libkopete/kopetecontact.cpp, kopetemetacontact.cpp, kopeteaccount.cpp,
  kopetecontactlist.cpp, kopeteaccountmanager.cpp). A signal is a call to the receivers that the
  connect calls name; a deleteLater is a flag. The contact list carries, as ghost state, the objects
  in existence.
 */
module ContactGraph {
  import opened Basics
  import opened Lists
  import opened OnlineStatuses
  import opened Placement
  import opened Rewiring

  /** Whether s is the highest status type among some statuses, Unknown when there are none. */
  ghost predicate Highest(s: StatusType, seen: set<StatusType>) {
    && (s == Unknown || s in seen)
    && (forall x | x in seen :: Rank(x) <= Rank(s))
  }

  lemma HighestIsUnique(s: StatusType, t: StatusType, seen: set<StatusType>)
    requires Highest(s, seen) && Highest(t, seen)
    ensures s == t
  {
    assert Rank(s) == Rank(t);
  }

  class Account {
    /** protocol()->accountOfflineStatus(). */
    const offlineStatus: OnlineStatus
    /** The contacts registered with this account, by contact id. */
    var contacts: map<string, Contact>
    var myself: Contact?
    /** The contacts connected to isConnectedChanged: every contact built for this account. */
    var listeners: seq<Contact>
    var deleted: bool

    constructor (offlineStatus: OnlineStatus)
      ensures this.offlineStatus == offlineStatus
      ensures contacts == map[] && myself == null && listeners == [] && !deleted
    {
      this.offlineStatus := offlineStatus;
      contacts, myself, listeners, deleted := map[], null, [], false;
    }

    ghost predicate Wired(people: set<Contact>)
      reads this`myself, this`contacts, this`listeners
    {
      && (myself != null ==> myself in people && myself.account == this && myself !in contacts.Values)
      && (forall c | c in listeners :: c in people && c.account == this)
      && (forall k | k in contacts :: contacts[k] in people && contacts[k].account == this)
      && (forall k | k in contacts :: contacts[k].contactId == k)
    }

    /** Every contact built for this account is registered with it, or is its own. */
    predicate AllKnown()
      reads this`contacts, this`listeners, this`myself
    {
      forall c | c in listeners :: c in contacts.Values || c == myself
    }

    /** The contacts that are deleted with the account. */
    ghost function Dying(): set<Contact>
      reads this`contacts, this`myself
    {
      contacts.Values + (if myself == null then {} else {myself})
    }

    predicate IsConnected()
      reads this`myself, (if myself == null then {} else {myself})`onlineStatus
    {
      myself != null && myself.onlineStatus.IsDefinitelyOnline()
    }

    /** registerContact: refuses a second contact with the same id. */
    method RegisterContact(c: Contact) returns (ok: bool)
      modifies this`contacts
      ensures ok == (c.contactId !in old(contacts))
      ensures contacts == if ok then old(contacts)[c.contactId := c] else old(contacts)
    {
      ok := c.contactId !in contacts;
      if ok {
        contacts := contacts[c.contactId := c];
      }
    }

    /** contactDestroyed, which is connected for a registered contact only. */
    method ContactDestroyed(c: Contact)
      modifies this`contacts
      ensures contacts == if c.contactId in old(contacts) && old(contacts)[c.contactId] == c
              then old(contacts) - {c.contactId} else old(contacts)
    {
      if c.contactId in contacts && contacts[c.contactId] == c {
        contacts := contacts - {c.contactId};
      }
    }

    /** The metacontacts that list some contact of cs other than myself. */
    ghost function ShownBy(cs: seq<Contact>, list: ContactList): set<MetaContact>
      reads this`myself, list`metas, list.metas`contacts
    {
      set m | m in list.metas && exists c :: c in cs && c != myself && c in m.contacts
    }

    /** The metacontacts that list some contact, other than myself, built for this account. */
    ghost function Watching(list: ContactList): set<MetaContact>
      reads this`myself, this`listeners, list`metas, list.metas`contacts
    {
      ShownBy(listeners, list)
    }

    /**
      Whether appointing c as myself leaves every cache right: the metacontact that lists c is refreshed
      in the course of it, because the account is connected by that and has another contact there, or it
      caches the highest of its children with c's own report shown.
     */
    ghost predicate Fits(c: Contact, list: ContactList)
      requires list.Woven()
      reads list`metas, list`people, list`accounts, list.metas`contacts, list.metas`onlineStatus
      reads list.people`metaContact, list.people`stray, list.people`onlineStatus
      reads list.accounts`myself, list.accounts`contacts, list.accounts`listeners, c`onlineStatus
    {
      forall m | m in list.metas && c in m.contacts ::
        || (c.onlineStatus.IsDefinitelyOnline() && exists x :: x in m.contacts && x != c && x.account == this)
        || Highest(m.onlineStatus, m.ShownBeside(c) + {c.onlineStatus.status})
    }

    /** setMyself, called once; an account's own contact belongs to the user's metacontact and is not registered. */
    method SetMyself(c: Contact, list: ContactList)
      requires list.Linked() && list.CoherentExcept({}) && this in list.accounts
      requires myself == null && c in list.people && c.account == this && c !in contacts.Values
      modifies this`myself, list`overtaken, list.metas`onlineStatus, list.metas`refreshed
      ensures list.Linked() && list.CoherentExcept({}) && myself == c
      ensures list.overtaken == old(list.overtaken) + if old(Fits(c, list)) then {} else c.Showing(list)
      ensures old(list.overtaken) == {} ==> (list.Coherent() <==> old(Fits(c, list)))
    {
      myself := c;
      AppointmentKeepsCaches(Appointment(list, this, c));
      if IsConnected() {
        EmitIsConnectedChanged(list, c.Showing(list) - Watching(list));
      }
      AppointmentFits(Appointment(list, this, c));
      hide Fits, Highest, MetaContact.Exact, NoDup;
      Overtake(c, list);
    }

    /** Bookkeeping: if the metacontact listing c has been left with a wrong cache, that is put on record. */
    ghost method Overtake(c: Contact, list: ContactList)
      requires list.Linked() && c in list.people && list.CoherentExcept(c.Showing(list))
      modifies list`overtaken, list.metas`refreshed
      ensures list.Linked() && list.CoherentExcept({})
      ensures list.overtaken ==
        old(list.overtaken) + (if old(AllExact(c.Showing(list), list)) then {} else c.Showing(list))
      ensures old(list.overtaken) == {} ==> (list.Coherent() <==> old(AllExact(c.Showing(list), list)))
    {
      OneShowing(c, list);
      var m := c.metaContact;
      if m != null && c in m.contacts && !m.Exact() {
        Spoil(m, list);
      }
      hide MetaContact.Exact, MetaContact.Holds, Contact.Anchored, Account.Wired, NoDup;
    }

    ghost method Spoil(m: MetaContact, list: ContactList)
      requires list.Linked() && m in list.metas && list.CoherentExcept({m}) && !m.Exact() && m.contacts != []
      modifies list`overtaken, m`refreshed
      ensures list.Linked() && list.CoherentExcept({}) && !list.Coherent()
      ensures list.overtaken == old(list.overtaken) + {m}
    {
      hide MetaContact.Holds, Contact.Anchored, Account.Wired, NoDup, Highest;
      m.refreshed := false;
      list.overtaken := list.overtaken + {m};
      assert m.Counts({}) && !m.Exact();
    }

    /** Each of these metacontacts caches the highest status its children show. */
    static ghost predicate AllExact(ms: set<MetaContact>, list: ContactList)
      requires list.Woven() && ms <= list.metas
      reads list`metas, list`people, list`accounts
      reads list.metas`contacts, list.metas`onlineStatus
      reads list.people`metaContact, list.people`stray, list.people`onlineStatus
      reads list.accounts`myself, list.accounts`contacts, list.accounts`listeners
    {
      forall m | m in ms :: m.Exact()
    }

    lemma ListenersExist(list: ContactList)
      requires list.Linked() && this in list.accounts
      ensures forall c | c in listeners :: c in list.people && c.account == this
    {
      assert Wired(list.people);
    }

    /** One listener's turn; its announcement is heard by the metacontacts in hearing. */
    method AnnounceOne(c: Contact, list: ContactList, ghost stale: set<MetaContact>, ghost hearing: set<MetaContact>)
      requires list.Linked() && c in list.people && c.account == this
      requires hearing <= list.metas && list.CoherentExcept(stale + hearing)
      requires forall m | m in list.metas :: m in hearing <==> c in m.contacts && c != myself
      modifies list.metas`onlineStatus, list.metas`refreshed
      ensures list.Linked() && list.CoherentExcept(stale)
      ensures forall m | m in list.metas && m !in hearing ::
        m.onlineStatus == old(m.onlineStatus) && m.refreshed == old(m.refreshed)
      ensures forall m | m in hearing :: m.refreshed
    {
      HearingShows(c, list, hearing);
      hide *;
      assert c == myself ==> stale + hearing == stale;
      c.SlotAccountIsConnectedChanged(list, stale);
    }

    lemma HearingShows(c: Contact, list: ContactList, hearing: set<MetaContact>)
      requires hearing <= list.metas
      requires forall m | m in list.metas :: m in hearing <==> c in m.contacts && c != myself
      ensures hearing == if c == myself then {} else c.Showing(list)
    {
    }

    /** Who hears each listener, and who hears some listener from each one on. */
    lemma Turns(list: ContactList) returns (hearing: seq<set<MetaContact>>, left: seq<set<MetaContact>>)
      ensures |hearing| == |listeners| && |left| == |listeners| + 1
      ensures left[0] == Watching(list) && left[|listeners|] == {}
      ensures forall i | 0 <= i < |listeners| :: hearing[i] <= list.metas && left[i] == left[i + 1] + hearing[i]
      ensures forall i | 0 <= i <= |listeners| :: left[i] <= left[0]
      ensures forall i, m | 0 <= i < |listeners| && m in list.metas ::
        m in hearing[i] <==> listeners[i] in m.contacts && listeners[i] != myself
    {
      hearing, left := [], [{}];
      assert listeners[|listeners|..] == [];
      for n := |listeners| downto 0
        invariant |hearing| == |listeners| - n && |left| == |hearing| + 1 && left[|hearing|] == {}
        invariant left[0] == ShownBy(listeners[n..], list)
        invariant forall i | 0 <= i < |hearing| ::
          hearing[i] == ShownBy([listeners[n + i]], list) && left[i] == left[i + 1] + hearing[i]
        invariant forall i | 0 <= i < |left| :: left[i] <= left[0]
      {
        assert listeners[n..] == [listeners[n]] + listeners[n + 1..];
        hearing := [ShownBy([listeners[n]], list)] + hearing;
        left := [ShownBy(listeners[n..], list)] + left;
      }
      assert listeners[0..] == listeners;
      forall i, m | 0 <= i < |listeners| && m in list.metas
        ensures m in hearing[i] <==> listeners[i] in m.contacts && listeners[i] != myself
      {
        assert listeners[i] in [listeners[i]];
      }
    }

    /** isConnectedChanged(): every listening contact re-announces its status, in turn. */
    method EmitIsConnectedChanged(list: ContactList, ghost stale: set<MetaContact>)
      requires list.Linked() && this in list.accounts && list.CoherentExcept(stale + Watching(list))
      modifies list.metas`onlineStatus, list.metas`refreshed
      ensures list.Linked() && list.CoherentExcept(stale)
      ensures forall m | m in list.metas && m !in Watching(list) :: m.onlineStatus == old(m.onlineStatus)
      ensures forall m | m in Watching(list) :: m.refreshed
    {
      ListenersExist(list);
      ghost var hearing, left := Turns(list);
      ghost var watching := left[0];
      hide *;
      for i := 0 to |listeners|
        invariant list.Linked() && list.CoherentExcept(stale + left[i])
        invariant forall m | m in list.metas && m !in watching :: m.onlineStatus == old(m.onlineStatus)
        invariant forall m: MetaContact | m in watching && m !in left[i] :: m.refreshed
      {
        assert stale + left[i] == stale + left[i + 1] + hearing[i];
        AnnounceOne(listeners[i], list, stale + left[i + 1], hearing[i]);
      }
      assert stale + left[|listeners|] == stale;
    }

    /** slotOnlineStatusChanged: what follows from a status change of myself. */
    method SlotOnlineStatusChanged(newStatus: OnlineStatus, oldStatus: OnlineStatus, list: ContactList,
                                   ghost stale: set<MetaContact>)
      requires list.Linked() && this in list.accounts && myself != null && myself.onlineStatus == newStatus
      requires list.CoherentExcept(stale + myself.Flipped(list, oldStatus)) && myself.account == this
      modifies contacts.Values`onlineStatus, list.metas`onlineStatus, list.metas`refreshed
      ensures list.Linked() && list.CoherentExcept(stale)
      ensures oldStatus.IsDefinitelyOnline() && !newStatus.IsDefinitelyOnline() ==>
        forall c | c in contacts.Values ::
          c.onlineStatus == if OFFLINE.Same(old(c.onlineStatus)) then old(c.onlineStatus) else OFFLINE
      ensures !oldStatus.IsDefinitelyOnline() || newStatus.IsDefinitelyOnline() ==>
        forall c | c in contacts.Values :: c.onlineStatus == old(c.onlineStatus)
      decreases 1
    {
      var wasOffline := !oldStatus.IsDefinitelyOnline();
      var isOffline := !newStatus.IsDefinitelyOnline();
      if !wasOffline && isOffline {
        SetAllContactsStatus(OFFLINE, list, stale + Watching(list));
      }
      if wasOffline != isOffline {
        EmitIsConnectedChanged(list, stale);
      }
    }

    lemma RegisteredExist(list: ContactList)
      requires list.Linked() && this in list.accounts
      ensures forall c | c in contacts.Values :: c in list.people && c.account == this
      ensures myself !in contacts.Values && list.Woven()
    {
      assert Wired(list.people);
      assert myself == null ==> myself !in contacts.Values;
    }

    /** setAllContactsStatus, in whatever order the hash yields the registered contacts. */
    method SetAllContactsStatus(status: OnlineStatus, list: ContactList, ghost stale: set<MetaContact>)
      requires list.Linked() && this in list.accounts && !IsConnected() && list.CoherentExcept(stale)
      modifies contacts.Values`onlineStatus, list.metas`onlineStatus, list.metas`refreshed
      ensures list.Linked() && list.CoherentExcept(stale)
      ensures forall c | c in contacts.Values ::
        c.onlineStatus == if status.Same(old(c.onlineStatus)) then old(c.onlineStatus) else status
      decreases 0, 2
    {
      hide *;
      var todo := contacts.Values;
      RegisteredExist(list);
      while todo != {}
        invariant todo <= contacts.Values
        invariant list.Linked() && list.Woven() && list.CoherentExcept(stale)
        invariant forall c | c in contacts.Values ::
          c.onlineStatus == if c in todo || status.Same(old(c.onlineStatus)) then old(c.onlineStatus) else status
      {
        var c :| c in todo;
        SetContactStatus(c, status, list, stale);
        todo := todo - {c};
      }
    }

    method SetContactStatus(c: Contact, status: OnlineStatus, list: ContactList, ghost stale: set<MetaContact>)
      requires list.Linked() && c in list.people && c.account == this && c != myself && list.CoherentExcept(stale)
      modifies c`onlineStatus, list.metas`onlineStatus, list.metas`refreshed
      ensures list.Linked() && list.Woven() && list.CoherentExcept(stale)
      ensures c.onlineStatus == if status.Same(old(c.onlineStatus)) then old(c.onlineStatus) else status
      decreases 0, 1
    {
      c.SetOnlineStatus(status, list, stale);
    }
  }

  class Contact {
    const contactId: string
    const account: Account
    var metaContact: MetaContact?
    /** The status the protocol last reported, shown only while the account is connected. */
    var onlineStatus: OnlineStatus
    /** A DeleteContactTask has been started for this contact. */
    var deleteTaskStarted: bool
    var deleteScheduled: bool
    /** Points at a metacontact that does not list it: a duplicate, or a contact of a removed account. */
    ghost var stray: bool

    /**
      A contact is registered unless its parent is the metacontact of the user; a duplicate id keeps
      the parent link but is listed nowhere.
     */
    constructor (account: Account, contactId: string, parent: MetaContact?, list: ContactList)
      requires list.Linked() && list.CoherentExcept({})
      requires account in list.accounts && (parent != null ==> parent in list.metas)
      modifies account`contacts, account`listeners, list`people
      modifies (if parent == null then {} else {parent})`contacts
      modifies (if parent == null then {} else {parent})`onlineStatus
      modifies (if parent == null then {} else {parent})`refreshed
      ensures list.Linked() && list.CoherentExcept({})
      ensures list.people == old(list.people) + {this}
      ensures this.account == account && this.contactId == contactId && metaContact == parent
      ensures onlineStatus == EMPTY && !deleteTaskStarted && !deleteScheduled
      ensures var duplicate := (parent == null || parent != list.myself) && contactId in old(account.contacts);
              && stray == (duplicate && parent != null)
              && (parent != null ==>
                    parent.contacts == if duplicate then old(parent.contacts) else old(parent.contacts) + [this])
      ensures account.contacts == if parent == list.myself || contactId in old(account.contacts)
              then old(account.contacts) else old(account.contacts)[contactId := this]
      ensures account.listeners == old(account.listeners) + [this]
    {
      this.account, this.contactId, metaContact := account, contactId, parent;
      onlineStatus, deleteTaskStarted, deleteScheduled := EMPTY, false, false;
      stray := parent != null;
      new;
      Enter(list);
    }

    /** The registering half of the constructor. */
    method Enter(list: ContactList)
      requires list.Linked() && list.CoherentExcept({})
      requires this !in list.people && account in list.accounts
      requires stray == (metaContact != null) && (metaContact != null ==> metaContact in list.metas)
      modifies account`contacts, account`listeners, list`people, this`metaContact, this`stray
      modifies Ends(null)`contacts, Ends(null)`onlineStatus, Ends(null)`refreshed
      ensures list.Linked() && list.CoherentExcept({})
      ensures list.people == old(list.people) + {this} && metaContact == old(metaContact)
      ensures stray == (metaContact != null && old(IsDuplicate(list)))
      ensures account.contacts == if old(Registers(list) && !IsDuplicate(list))
              then old(account.contacts)[contactId := this] else old(account.contacts)
      ensures account.listeners == old(account.listeners) + [this]
      ensures metaContact != null ==>
        metaContact.contacts == if stray then old(metaContact.contacts) else old(metaContact.contacts) + [this]
    {
      var duplicate := false;
      if metaContact == null || metaContact != list.myself {
        var ok := account.RegisterContact(this);
        duplicate := !ok;
      }
      account.listeners := account.listeners + [this];
      list.people := list.people + {this};
      BirthKeepsGraph(Birth(list, account, this));
      if !duplicate && metaContact != null {
        JoinMetaContact(metaContact, list);
      }
    }

    /**
      ~Contact: the account forgets the contact, if it is the registered one, and the metacontact that
      lists it takes it off its list. A metacontact left without contacts stays in the contact list. An
      account whose own contact is destroyed keeps pointing at it.
     */
    method Destroy(list: ContactList)
      requires list.Linked() && list.CoherentExcept({}) && this in list.people
      modifies account`contacts, account`listeners, list`people, this`deleteScheduled
      modifies Ends(null)`contacts, Ends(null)`onlineStatus, Ends(null)`refreshed
      ensures list.Linked() <==> this != account.myself
      ensures this != account.myself ==> list.CoherentExcept({})
      ensures deleteScheduled && list.people == old(list.people) - {this}
      ensures account.contacts == if contactId in old(account.contacts) && old(account.contacts)[contactId] == this
              then old(account.contacts) - {contactId} else old(account.contacts)
      ensures account.listeners == Without(old(account.listeners), this)
      ensures metaContact != null ==> metaContact.contacts == Without(old(metaContact.contacts), this)
    {
      ParentExists(this, list);
      hide Without, NoDup, MetaContact.Exact, Highest;
      ghost var owner := account;
      Vanish(list);
      if this != account.myself {
        DeathKeepsGraph(Death(list, account, this));
      } else {
        assert !owner.Wired(list.people);
      }
    }

    /** The receivers of contactDestroyed, and the end of the connections of the contact. */
    method Vanish(list: ContactList)
      modifies account`contacts, account`listeners, list`people, this`deleteScheduled
      modifies Ends(null)`contacts, Ends(null)`onlineStatus, Ends(null)`refreshed
      ensures deleteScheduled && list.people == old(list.people) - {this}
      ensures account.contacts == if contactId in old(account.contacts) && old(account.contacts)[contactId] == this
              then old(account.contacts) - {contactId} else old(account.contacts)
      ensures account.listeners == Without(old(account.listeners), this)
      ensures metaContact != null && this in old(metaContact.contacts) ==>
        metaContact.contacts == Without(old(metaContact.contacts), this) && metaContact.Exact()
      ensures metaContact != null && this !in old(metaContact.contacts) ==>
        metaContact.contacts == old(metaContact.contacts) && metaContact.onlineStatus == old(metaContact.onlineStatus)
        && metaContact.refreshed == old(metaContact.refreshed)
    {
      hide Without, NoDup, Highest;
      deleteScheduled := true;
      account.ContactDestroyed(this);
      if metaContact != null && this in metaContact.contacts {
        metaContact.RemoveContact(this);
      }
      account.listeners := Without(account.listeners, this);
      list.people := list.people - {this};
    }

    /** Contacts of the user are never registered. */
    ghost predicate Registers(list: ContactList)
      reads this`metaContact
    {
      metaContact == null || metaContact != list.myself
    }

    ghost predicate IsDuplicate(list: ContactList)
      reads this`metaContact, account`contacts
    {
      Registers(list) && contactId in account.contacts
    }

    /** A contact's side of the link: its metacontact lists it, unless it is a stray. */
    ghost predicate Anchored(metas: set<MetaContact>, accounts: set<Account>)
      reads this`metaContact, this`stray, accounts`listeners, metas`contacts
    {
      && (metaContact != null ==> metaContact in metas && (this in metaContact.contacts <==> !stray))
      && account in accounts && this in account.listeners
    }

    /** Contact::onlineStatus(): masked by the connectivity of the account. */
    function Visible(): OnlineStatus
      reads this`onlineStatus, account`myself
      reads (if account.myself == null then {} else {account.myself})`onlineStatus
    {
      if this == account.myself || account.IsConnected() then onlineStatus else account.offlineStatus
    }

    /** The metacontacts that list this contact: at most one. */
    ghost function Showing(list: ContactList): set<MetaContact>
      reads list`metas, list.metas`contacts
    {
      set m | m in list.metas && this in m.contacts
    }

    /** The metacontacts put out of date when a new status of myself connects or disconnects the account. */
    ghost function Flipped(list: ContactList, oldStatus: OnlineStatus): set<MetaContact>
      reads this`onlineStatus, account`myself, account`listeners, list`metas, list.metas`contacts
    {
      if this == account.myself && oldStatus.IsDefinitelyOnline() != onlineStatus.IsDefinitelyOnline()
      then account.Watching(list) else {}
    }

    /** The part of onlineStatusChanged that reaches the metacontact listing this contact. */
    method NotifyMetaContact(list: ContactList, ghost stale: set<MetaContact>)
      requires list.Linked() && this in list.people && list.CoherentExcept(stale + Showing(list))
      modifies list.metas`onlineStatus, list.metas`refreshed
      ensures list.Linked() && list.CoherentExcept(stale)
      ensures forall m | m in list.metas && this !in m.contacts :: m.onlineStatus == old(m.onlineStatus)
      ensures forall m | m in list.metas :: m.refreshed == (old(m.refreshed) || this in m.contacts)
    {
      OneShowing(this, list);
      if metaContact != null && this in metaContact.contacts {
        metaContact.UpdateOnlineStatus();
      }
    }

    /**
      setOnlineStatus, with everything it sets off. A status that compares equal to the present one is
      ignored. When myself of a connected account goes offline, every registered contact is forced to
      Offline, and by no other change of myself; going either way, every contact re-announces itself. What
      a contact of an account that is not connected reports is kept, and changes no cache.
     */
    method SetOnlineStatus(status: OnlineStatus, list: ContactList, ghost stale: set<MetaContact>)
      requires list.Linked() && this in list.people && list.CoherentExcept(stale)
      modifies this`onlineStatus, list.metas`onlineStatus, list.metas`refreshed
      modifies (if this == account.myself then account.contacts.Values else {})`onlineStatus
      ensures list.Linked() && list.CoherentExcept(stale)
      ensures onlineStatus == if status.Same(old(onlineStatus)) then old(onlineStatus) else status
      ensures this == account.myself && old(onlineStatus).IsDefinitelyOnline() && !onlineStatus.IsDefinitelyOnline() ==>
        forall c | c in account.contacts.Values ::
          c.onlineStatus == if OFFLINE.Same(old(c.onlineStatus)) then old(c.onlineStatus) else OFFLINE
      ensures this == account.myself ==>
        !old(onlineStatus).IsDefinitelyOnline() || onlineStatus.IsDefinitelyOnline() ==>
        forall c | c in account.contacts.Values :: c.onlineStatus == old(c.onlineStatus)
      ensures (this != account.myself && !account.IsConnected()) || status.Same(old(onlineStatus)) ==>
        forall m | m in list.metas :: m.onlineStatus == old(m.onlineStatus)
      decreases if this == account.myself then 2 else 0, 0
    {
      if status.Same(onlineStatus) {
        return;
      }
      var oldStatus := onlineStatus;
      onlineStatus := status;
      ReportKeepsCaches(Report(list, this, stale));
      if this == account.myself || account.IsConnected() {
        NotifyMetaContact(list, stale + Flipped(list, oldStatus));
        if this == account.myself {
          account.SlotOnlineStatusChanged(status, oldStatus, list, stale);
        }
      }
    }

    method SlotAccountIsConnectedChanged(list: ContactList, ghost stale: set<MetaContact>)
      requires list.Linked() && this in list.people
      requires list.CoherentExcept(if this == account.myself then stale else stale + Showing(list))
      modifies list.metas`onlineStatus, list.metas`refreshed
      ensures list.Linked() && list.CoherentExcept(stale)
      ensures forall m | m in list.metas && (this !in m.contacts || this == account.myself) ::
        m.onlineStatus == old(m.onlineStatus)
      ensures forall m | m in list.metas ::
        m.refreshed == (old(m.refreshed) || (this in m.contacts && this != account.myself))
    {
      if this == account.myself {
        return;
      }
      NotifyMetaContact(list, stale);
    }

    /** The first half of setMetaContact: leave the parent, which goes off the list if that empties it. */
    method LeaveMetaContact(list: ContactList)
      requires list.Linked() && list.CoherentExcept({})
      requires this in list.people && metaContact != null
      modifies this`stray, list`contacts, list`selectedMetaContacts, list`selectedGroups
      modifies metaContact`contacts, metaContact`onlineStatus, metaContact`refreshed, metaContact`deleteScheduled
      ensures list.Linked() && list.CoherentExcept({}) && stray
      ensures metaContact.contacts == Without(old(metaContact.contacts), this)
      ensures list.Listed() ==
        if metaContact.contacts == [] then old(list.Listed()).Remove(metaContact) else old(list.Listed())
      ensures metaContact.contacts == [] && metaContact in old(list.contacts) ==> metaContact.deleteScheduled
    {
      var before := metaContact;
      before.RemoveContact(this);
      stray := true;
      if before.contacts == [] {
        list.RemoveMetaContact(before);
      }
      RelinkKeepsGraph(Relink(list, this, before));
    }

    /** The second half: a contact listed nowhere joins m, or stays out when m is null. */
    method JoinMetaContact(m: MetaContact?, list: ContactList)
      requires list.Linked() && list.CoherentExcept({})
      requires this in list.people && (metaContact == null || stray) && (m != null ==> m in list.metas)
      modifies this`metaContact, this`stray
      modifies (if m == null then {} else {m})`contacts
      modifies (if m == null then {} else {m})`onlineStatus
      modifies (if m == null then {} else {m})`refreshed
      ensures list.Linked() && list.CoherentExcept({}) && !stray
      ensures metaContact == m
      ensures m != null ==> m.contacts == old(m.contacts) + [this]
    {
      metaContact := m;
      stray := false;
      if m != null {
        m.AddContact(this);
      }
      RelinkKeepsGraph(Relink(list, this, m));
    }

    /** The metacontacts a move to m concerns. */
    ghost function Ends(m: MetaContact?): set<MetaContact>
      reads this`metaContact
    {
      (if m == null then {} else {m}) + (if metaContact == null then {} else {metaContact})
    }

    /**
      setMetaContact: moves this contact to m, or out of the contact list when m is null. No contact
      other than this one is touched, and of this one only the parent link.
     */
    method SetMetaContact(m: MetaContact?, list: ContactList)
      requires list.Linked() && list.CoherentExcept({})
      requires this in list.people && (m != null ==> m in list.metas)
      modifies this`metaContact, this`stray
      modifies list`contacts, list`selectedMetaContacts, list`selectedGroups
      modifies Ends(m)`contacts, Ends(m)`onlineStatus, Ends(m)`refreshed, Ends(m)`deleteScheduled
      ensures list.Linked() && list.CoherentExcept({})
      ensures metaContact == m
      ensures old(metaContact) == m ==> unchanged(list, Ends(m), this)
      ensures old(metaContact) != m ==> !stray
      ensures old(metaContact) != m && m != null ==> m.contacts == old(m.contacts) + [this]
      ensures old(metaContact) != m && old(metaContact) != null ==>
        old(metaContact).contacts == Without(old(metaContact.contacts), this)
      ensures var emptied := old(metaContact) != m && old(metaContact) != null && old(metaContact).contacts == [];
              && list.Listed() == (if emptied then old(list.Listed()).Remove(old(metaContact)) else old(list.Listed()))
              && (emptied && old(metaContact) in old(list.contacts) ==> old(metaContact).deleteScheduled)
    {
      var before := metaContact;
      if before == m {
        return;
      }
      if before != null {
        LeaveMetaContact(list);
      }
      JoinMetaContact(m, list);
    }
  }

  lemma ParentExists(c: Contact, list: ContactList)
    requires list.Linked() && c in list.people
    ensures c.metaContact != null ==> c.metaContact in list.metas
    ensures c.account in list.accounts
  {
    assert c.Anchored(list.metas, list.accounts);
  }

  /** At most one metacontact lists a contact. */
  lemma OneShowing(c: Contact, list: ContactList)
    requires list.Linked() && c in list.people
    ensures forall m | m in c.Showing(list) :: m == c.metaContact
    ensures c.metaContact != null && c in c.metaContact.contacts ==> c.Showing(list) == {c.metaContact}
    ensures !(c.metaContact != null && c in c.metaContact.contacts) ==> c.Showing(list) == {}
  {
    assert c.Anchored(list.metas, list.accounts);
    forall m | m in c.Showing(list) ensures m == c.metaContact {
      assert m.Holds(list.people);
    }
  }

  /** A contact c that has just been made the account's own. */
  datatype Appointment = Appointment(list: ContactList, account: Account, c: Contact)

  /** Which caches an appointment can put out of date, before anybody is told. */
  twostate lemma AppointmentKeepsCaches(p: Appointment)
    requires old(p.list.Linked() && p.list.CoherentExcept({})) && p.account in p.list.accounts
    requires p.c in p.list.people && p.c.account == p.account && p.c !in p.account.contacts.Values
    requires old(p.account.myself) == null && p.account.myself == p.c
    requires p.list.metas == old(p.list.metas) && p.list.people == old(p.list.people)
    requires p.list.accounts == old(p.list.accounts) && p.list.overtaken == old(p.list.overtaken)
    requires p.list.contacts == old(p.list.contacts)
    requires forall x | x in p.list.metas ::
      x.contacts == old(x.contacts) && x.onlineStatus == old(x.onlineStatus) && x.refreshed == old(x.refreshed)
    requires forall y | y in p.list.people ::
      y.metaContact == old(y.metaContact) && y.stray == old(y.stray) && y.onlineStatus == old(y.onlineStatus)
    requires forall a | a in p.list.accounts ::
      a.contacts == old(a.contacts) && a.listeners == old(a.listeners) && (a != p.account ==> a.myself == old(a.myself))
    ensures p.list.Linked()
    ensures p.list.CoherentExcept(
      p.c.Showing(p.list) + if p.account.IsConnected() then p.account.Watching(p.list) else {})
    ensures forall y | y in p.list.people && y != p.c && (y.account != p.account || !p.account.IsConnected()) ::
      y.Visible() == old(y.Visible())
    ensures p.c.Visible() == p.c.onlineStatus
  {
    forall a | a in p.list.accounts ensures a.Wired(p.list.people) {
      assert old(a.Wired(p.list.people));
    }
    forall x | x in p.list.metas ensures x.Holds(p.list.people) {
      assert old(x.Holds(p.list.people));
    }
    forall y | y in p.list.people ensures y.Anchored(p.list.metas, p.list.accounts) {
      assert old(y.Anchored(p.list.metas, p.list.accounts));
    }
    forall x | x in p.list.metas && p.c !in x.contacts
               && !(p.account.IsConnected() && x in p.account.Watching(p.list))
      ensures x.Exact() == old(x.Exact())
    {
      assert x.Holds(p.list.people);
      forall y | y in x.contacts ensures y.Visible() == old(y.Visible()) {
        assert y.Anchored(p.list.metas, p.list.accounts);
      }
      x.ExactKept();
    }
  }

  /** Once everybody has been told, the metacontact listing c is right exactly if the appointment fitted. */
  twostate lemma AppointmentFits(p: Appointment)
    requires old(p.list.Linked()) && p.list.Linked() && old(p.account.myself) == null && p.account.myself == p.c
    requires p.account in p.list.accounts && p.c in p.list.people && p.c.account == p.account
    requires p.list.metas == old(p.list.metas) && p.list.people == old(p.list.people)
    requires p.list.accounts == old(p.list.accounts)
    requires forall x | x in p.list.metas :: x.contacts == old(x.contacts)
    requires forall y | y in p.list.people :: y.onlineStatus == old(y.onlineStatus)
    requires forall a | a in p.list.accounts :: a.listeners == old(a.listeners)
    requires forall y | y in p.list.people && y != p.c && (y.account != p.account || !p.account.IsConnected()) ::
      y.Visible() == old(y.Visible())
    requires forall m | m in p.c.Showing(p.list) && !(p.account.IsConnected() && m in p.account.Watching(p.list)) ::
      m.onlineStatus == old(m.onlineStatus)
    requires p.account.IsConnected() ==> forall m | m in p.account.Watching(p.list) :: m.Exact()
    ensures Account.AllExact(p.c.Showing(p.list), p.list) <==> old(p.account.Fits(p.c, p.list))
  {
    forall m | m in p.c.Showing(p.list)
      ensures m.Exact() <==>
        || (p.c.onlineStatus.IsDefinitelyOnline() && exists x :: x in m.contacts && x != p.c && x.account == p.account)
        || Highest(old(m.onlineStatus), old(m.ShownBeside(p.c)) + {p.c.onlineStatus.status})
    {
      assert m.Holds(p.list.people);
      forall x | x in m.contacts ensures x in x.account.listeners {
        assert x.Anchored(p.list.metas, p.list.accounts);
      }
      assert p.account.IsConnected() == p.c.onlineStatus.IsDefinitelyOnline();
      assert m in p.account.Watching(p.list) <==> exists x :: x in m.contacts && x != p.c && x.account == p.account by {
        assert p.account.Wired(p.list.people);
      }
      if !(p.account.IsConnected() && m in p.account.Watching(p.list)) {
        assert forall x | x in m.contacts && x != p.c :: x.Visible() == old(x.Visible());
        assert (set x | x in m.contacts :: x.Visible().status) == m.ShownBeside(p.c) + {p.c.onlineStatus.status};
        assert m.ShownBeside(p.c) == old(m.ShownBeside(p.c));
      }
    }
  }

  /** A contact c that has just taken over a reported status. */
  datatype Report = Report(list: ContactList, c: Contact, stale: set<MetaContact>)

  /** Which caches a report can put out of date. */
  twostate lemma ReportKeepsCaches(r: Report)
    requires old(r.list.Linked() && r.list.CoherentExcept(r.stale)) && r.c in r.list.people && r.list.Linked()
    requires r.list.metas == old(r.list.metas) && r.list.people == old(r.list.people)
    requires r.list.accounts == old(r.list.accounts) && r.list.overtaken == old(r.list.overtaken)
    requires forall x | x in r.list.metas ::
      x.contacts == old(x.contacts) && x.onlineStatus == old(x.onlineStatus) && x.refreshed == old(x.refreshed)
    requires forall y | y in r.list.people && y != r.c :: y.onlineStatus == old(y.onlineStatus)
    requires forall a | a in r.list.accounts :: a.myself == old(a.myself)
    ensures r.list.CoherentExcept(
      if r.c == r.c.account.myself || r.c.account.IsConnected()
      then r.stale + r.c.Flipped(r.list, old(r.c.onlineStatus)) + r.c.Showing(r.list) else r.stale)
  {
    var a := r.c.account;
    forall x | x in r.list.metas && x.Exact() != old(x.Exact())
      ensures ((r.c == a.myself || a.IsConnected()) && r.c in x.contacts)
              || (r.c == a.myself && a.IsConnected() != old(a.IsConnected()) && x in a.Watching(r.list))
    {
      assert x.Holds(r.list.people);
      if c :| c in x.contacts && c.Visible() != old(c.Visible()) {
        assert c.Anchored(r.list.metas, r.list.accounts);
        assert c.account.Wired(r.list.people);
      } else {
        x.ExactKept();
      }
    }
  }

  /** A contact c just built for an account, not listed anywhere yet. */
  datatype Birth = Birth(list: ContactList, account: Account, c: Contact)

  /** The link and cache invariants across a birth, which may register c. */
  twostate lemma BirthKeepsGraph(b: Birth)
    requires old(b.list.Linked() && b.list.CoherentExcept({}))
    requires b.account in b.list.accounts && b.account == b.c.account
    requires b.list.contacts == old(b.list.contacts) && b.list.metas == old(b.list.metas)
    requires b.list.accounts == old(b.list.accounts) && b.list.overtaken == old(b.list.overtaken)
    requires b.c !in old(b.list.people) && b.list.people == old(b.list.people) + {b.c}
    requires b.c.metaContact != null ==> b.c.stray && b.c.metaContact in b.list.metas
    requires forall x | x in b.list.metas ::
      x.contacts == old(x.contacts) && x.onlineStatus == old(x.onlineStatus) && x.refreshed == old(x.refreshed)
    requires forall y | y in old(b.list.people) ::
      y.metaContact == old(y.metaContact) && y.stray == old(y.stray) && y.onlineStatus == old(y.onlineStatus)
    requires forall a | a in b.list.accounts :: a.myself == old(a.myself) && (a != b.account ==>
      a.contacts == old(a.contacts) && a.listeners == old(a.listeners))
    requires b.account.listeners == old(b.account.listeners) + [b.c]
    requires || b.account.contacts == old(b.account.contacts)
             || (b.c.contactId !in old(b.account.contacts)
                 && b.account.contacts == old(b.account.contacts)[b.c.contactId := b.c])
    ensures b.list.Linked() && b.list.CoherentExcept({})
  {
    var people := b.list.people;
    forall a | a in b.list.accounts ensures a.Wired(people) {
      assert old(a.Wired(b.list.people));
    }
    forall x | x in b.list.metas ensures x.Holds(people) {
      assert old(x.Holds(b.list.people));
    }
    forall y | y in people ensures y.Anchored(b.list.metas, b.list.accounts) {
      assert y != b.c ==> old(y.Anchored(b.list.metas, b.list.accounts));
      assert y == b.c && y.metaContact != null ==> y.metaContact.Holds(old(b.list.people));
    }
    forall x | x in b.list.metas ensures x.Exact() == old(x.Exact()) {
      assert old(x.Holds(b.list.people));
      x.ExactKept();
    }
  }

  /** A contact c just gone from its account, from its metacontact and from those in existence. */
  datatype Death = Death(list: ContactList, account: Account, c: Contact)

  /** The link and cache invariants across a death. */
  twostate lemma DeathKeepsGraph(d: Death)
    requires old(d.list.Linked() && d.list.CoherentExcept({})) && d.c in old(d.list.people) && d.c.account == d.account
    requires d.account in d.list.accounts && d.c != d.account.myself
    requires d.list.contacts == old(d.list.contacts) && d.list.metas == old(d.list.metas)
    requires d.list.accounts == old(d.list.accounts) && d.list.overtaken == old(d.list.overtaken)
    requires d.list.people == old(d.list.people) - {d.c} && d.c.metaContact == old(d.c.metaContact)
    requires forall x | x in d.list.metas ::
      || (x.contacts == old(x.contacts) && x.onlineStatus == old(x.onlineStatus) && x.refreshed == old(x.refreshed)
          && (x == d.c.metaContact ==> d.c !in x.contacts))
      || (x == d.c.metaContact && x.contacts == Without(old(x.contacts), d.c) && x.Exact())
    requires forall y | y in d.list.people ::
      y.metaContact == old(y.metaContact) && y.stray == old(y.stray) && y.onlineStatus == old(y.onlineStatus)
    requires forall a | a in d.list.accounts :: a.myself == old(a.myself) && (a != d.account ==>
      a.contacts == old(a.contacts) && a.listeners == old(a.listeners))
    requires d.account.listeners == Without(old(d.account.listeners), d.c)
    requires d.account.contacts ==
      if d.c.contactId in old(d.account.contacts) && old(d.account.contacts)[d.c.contactId] == d.c
      then old(d.account.contacts) - {d.c.contactId} else old(d.account.contacts)
    ensures d.list.Linked() && d.list.CoherentExcept({})
  {
    var people := d.list.people;
    forall a | a in d.list.accounts ensures a.Wired(people) {
      assert old(a.Wired(d.list.people));
    }
    forall x | x in d.list.metas ensures x.Holds(people) && d.c !in x.contacts {
      assert old(x.Holds(d.list.people));
    }
    forall y | y in people ensures y.Anchored(d.list.metas, d.list.accounts) {
      assert old(y.Anchored(d.list.metas, d.list.accounts));
    }
    forall x | x in d.list.metas && x.contacts == old(x.contacts) && x.onlineStatus == old(x.onlineStatus)
      ensures x.Exact() == old(x.Exact())
    {
      assert x.Holds(people);
      forall y | y in x.contacts ensures y.Visible() == old(y.Visible()) {
        assert y.Anchored(d.list.metas, d.list.accounts);
        assert y.account.Wired(people);
      }
      x.ExactKept();
    }
  }

  /** An account just deleted, with its contacts. */
  datatype Erasure = Erasure(list: ContactList, account: Account)

  /** What has happened: nobody lists the dying any more, and nothing else about the others has changed. */
  twostate predicate Deleted(e: Erasure)
    requires e.account in old(e.list.accounts)
    reads e.list, e.list.metas, e.list.people, e.list.accounts
  {
    && (forall c | c in old(e.account.contacts.Values) :: old(c.stray))
    && e.list.contacts == old(e.list.contacts) && e.list.metas == old(e.list.metas)
    && e.list.overtaken == old(e.list.overtaken)
    && e.list.accounts == old(e.list.accounts) - {e.account}
    && e.list.people == old(e.list.people) - old(e.account.Dying())
    && (forall x | x in e.list.metas ::
      || (x.contacts == old(x.contacts) && old(e.account.myself) !in x.contacts)
      || (old(e.account.myself) != null
          && x.contacts == Without<Contact>(old(x.contacts), old(e.account.myself))))
    && (forall y | y in e.list.people ::
      y.metaContact == old(y.metaContact) && y.stray == old(y.stray) && y.onlineStatus == old(y.onlineStatus))
    && (forall a | a in e.list.accounts ::
      a.myself == old(a.myself) && a.contacts == old(a.contacts) && a.listeners == old(a.listeners))
  }

  /** The link and cache invariants across the deletion: kept exactly if all contacts of the account die with it. */
  twostate lemma ErasureKeepsGraph(e: Erasure)
    requires old(e.list.Linked() && e.list.CoherentExcept({})) && e.account in old(e.list.accounts) && Deleted(e)
    requires forall x | x in e.list.metas ::
      (x.contacts == old(x.contacts) && x.onlineStatus == old(x.onlineStatus) && x.refreshed == old(x.refreshed))
      || x.Exact()
    ensures e.list.Linked() <==> old(e.account.AllKnown())
    ensures e.list.Linked() ==> e.list.CoherentExcept({})
  {
    assert old(e.account.Wired(e.list.people));
    if old(e.account.AllKnown()) {
      ErasureKeepsWoven(e);
      ErasureKeepsCaches(e);
    } else {
      var c :| c in old(e.account.listeners) && c !in old(e.account.contacts.Values) && c != old(e.account.myself);
      assert c in e.list.people && !c.Anchored(e.list.metas, e.list.accounts);
    }
  }

  twostate lemma ErasureKeepsWoven(e: Erasure)
    requires old(e.list.Linked()) && e.account in old(e.list.accounts) && old(e.account.AllKnown()) && Deleted(e)
    ensures e.list.Linked()
  {
    var people := e.list.people;
    forall y | y in people ensures y.account in e.list.accounts && y.Anchored(e.list.metas, e.list.accounts) {
      assert old(y.Anchored(e.list.metas, e.list.accounts));
    }
    forall a | a in e.list.accounts ensures a.Wired(people) {
      assert old(a.Wired(e.list.people));
      assert old(e.account.Wired(e.list.people));
    }
    forall x | x in e.list.metas ensures x.Holds(people) {
      assert old(x.Holds(e.list.people));
      forall c | c in x.contacts ensures c in people {
        assert old(c.Anchored(e.list.metas, e.list.accounts));
      }
    }
  }

  twostate lemma ErasureKeepsCaches(e: Erasure)
    requires old(e.list.Linked() && e.list.CoherentExcept({})) && e.account in old(e.list.accounts) && Deleted(e)
    requires forall x | x in e.list.metas ::
      (x.contacts == old(x.contacts) && x.onlineStatus == old(x.onlineStatus) && x.refreshed == old(x.refreshed))
      || x.Exact()
    requires e.list.Linked()
    ensures e.list.CoherentExcept({})
  {
    var people := e.list.people;
    forall x | x in e.list.metas && x.contacts == old(x.contacts) && x.onlineStatus == old(x.onlineStatus)
      ensures x.Exact() == old(x.Exact())
    {
      assert x.Holds(people);
      forall y | y in x.contacts ensures y.Visible() == old(y.Visible()) {
        assert y.Anchored(e.list.metas, e.list.accounts);
        assert y.account.Wired(people);
      }
      x.ExactKept();
    }
  }

  /** The deletion, as a step of the snapshot. */
  twostate lemma ErasureState(e: Erasure)
    requires old(e.list.Linked()) && e.account in old(e.list.accounts) && Deleted(e)
    requires e.list.Listed() == old(e.list.Listed()) && e.list.groups == old(e.list.groups)
    requires forall x | x in e.list.metas :: x.temporary == old(x.temporary) && x.groups == old(x.groups)
    requires forall y | y in e.list.people :: y.deleteTaskStarted == old(y.deleteTaskStarted)
    ensures e.list.State() == old(e.list.State()).Bury(old(e.account.Dying()))
  {
    ErasureLists(e);
    hide Drop, ContactList.Linked, ContactList.Woven, Account.Dying, ContactList.Listed;
    BuryMeans(old(e.list.State()), e.list.State(), old(e.account.Dying()));
  }

  twostate lemma ErasureLists(e: Erasure)
    requires old(e.list.Linked()) && e.account in old(e.list.accounts) && Deleted(e)
    ensures forall x | x in e.list.metas :: x.contacts == Drop(old(x.contacts), old(e.account.Dying()))
  {
    var dying, own := old(e.account.Dying()), old(e.account.myself);
    assert old(e.account.Wired(e.list.people));
    forall x | x in e.list.metas ensures x.contacts == Drop(old(x.contacts), dying) {
      assert old(x.Holds(e.list.people));
      forall c | c in old(x.contacts) ensures c in dying <==> c == own {
        assert old(c.Anchored(e.list.metas, e.list.accounts));
      }
      DropDying(old(x.contacts), dying, own, x.contacts);
    }
    hide Drop, Without, NoDup;
  }

  lemma DropDying(contacts: seq<Contact>, dying: set<Contact>, own: Contact?, after: seq<Contact>)
    requires forall c | c in contacts :: c in dying <==> c == own
    requires (after == contacts && own !in contacts) || (own != null && after == Without<Contact>(contacts, own))
    ensures after == Drop(contacts, dying)
  {
    if own != null {
      WithoutIsDrop<Contact>(contacts, own);
      DropAgree<Contact>(contacts, dying, {own});
    }
  }

  twostate lemma ErasureKeepsPlaces(e: Erasure)
    requires e.list.metas == old(e.list.metas)
    requires forall x | x in e.list.metas :: x.temporary == old(x.temporary) && x.groups == old(x.groups)
    ensures old(e.list.Placed()) ==> e.list.Placed()
  {
  }

  /** A contact c that has just joined or left the metacontact m, or just let go of its parent. */
  datatype Relink = Relink(list: ContactList, c: Contact, m: MetaContact?)

  /** The link and cache invariants across one such change. */
  twostate lemma RelinkKeepsGraph(r: Relink)
    requires old(r.list.Linked() && r.list.CoherentExcept({})) && r.c in r.list.people
    requires r.list.metas == old(r.list.metas) && r.list.people == old(r.list.people)
    requires r.list.accounts == old(r.list.accounts) && r.list.overtaken == old(r.list.overtaken)
    requires || r.list.contacts == old(r.list.contacts)
             || (r.m != null && r.list.contacts == Without<MetaContact>(old(r.list.contacts), r.m))
    requires r.m != null ==> r.m in r.list.metas && r.m.Exact()
    requires r.m != null ==>
      (r.m.contacts == Without(old(r.m.contacts), r.c) ||
       (r.m.contacts == old(r.m.contacts) + [r.c] && r.c !in old(r.m.contacts)))
    requires forall x | x in r.list.metas && x != r.m ::
      x.contacts == old(x.contacts) && x.onlineStatus == old(x.onlineStatus) && x.refreshed == old(x.refreshed)
    requires forall y | y in r.list.people ::
      && y.onlineStatus == old(y.onlineStatus)
      && (y != r.c ==> y.metaContact == old(y.metaContact) && y.stray == old(y.stray))
    requires forall a | a in r.list.accounts ::
      a.myself == old(a.myself) && a.contacts == old(a.contacts) && a.listeners == old(a.listeners)
    requires r.c.Anchored(r.list.metas, r.list.accounts)
    requires forall x | x in r.list.metas && r.c in x.contacts :: r.c.metaContact == x
    ensures r.list.Linked() && r.list.CoherentExcept({})
  {
    var list := r.list;
    forall x | x in list.metas ensures x.Holds(list.people) {
      assert old(x.Holds(list.people));
    }
    forall y | y in list.people ensures y.Anchored(list.metas, list.accounts) {
      assert old(y.Anchored(list.metas, list.accounts));
    }
    forall a | a in list.accounts ensures a.Wired(list.people) {
      assert old(a.Wired(list.people));
    }
    forall x | x in list.metas && x != r.m ensures x.Exact() == old(x.Exact()) {
      assert old(x.Holds(list.people));
      list.VisibleKept();
      x.ExactKept();
    }
  }

  class MetaContact {
    var contacts: seq<Contact>
    var groups: seq<Group>
    var temporary: bool
    var displayName: string
    var loading: bool
    /** The cached aggregate status. */
    var onlineStatus: StatusType
    var deleteScheduled: bool
    /** updateOnlineStatus has run, and setMyself has not spoiled its result since. */
    ghost var refreshed: bool

    constructor ()
      ensures contacts == [] && Place() == FRESH && displayName == "" && !loading && !deleteScheduled
      ensures onlineStatus == StatusType.Offline && !refreshed
    {
      contacts, groups, temporary, displayName, loading := [], [], false, "", false;
      onlineStatus, deleteScheduled, refreshed := StatusType.Offline, false, false;
      new;
      AddToGroup(Some(TopLevel));
    }

    function Place(): Place
      reads this`temporary, this`groups
    {
      Placement.Place(temporary, groups)
    }

    /** A metacontact's side of the link: what it lists, once each, points back at it. */
    ghost predicate Holds(people: set<Contact>)
      reads this`contacts, people`metaContact
    {
      && NoDup(contacts)
      && (forall c | c in contacts :: c in people && c.metaContact == this)
    }

    /** updateOnlineStatus reads no account that has been deleted. */
    ghost predicate Readable()
      reads this`contacts, (set c | c in contacts :: c.account)`deleted
    {
      forall c | c in contacts :: !c.account.deleted
    }

    /** Whether the cache is expected to be exact. */
    ghost predicate Counts(overtaken: set<MetaContact>)
      reads this`contacts, this`refreshed
    {
      refreshed || (contacts != [] && this !in overtaken)
    }

    /** The cache agrees with what the children show. */
    ghost predicate Exact()
      reads this`contacts, this`onlineStatus, contacts`onlineStatus
      reads (set c | c in contacts :: c.account)`myself
      reads (set c | c in contacts && c.account.myself != null :: c.account.myself)`onlineStatus
    {
      Highest(onlineStatus, set c | c in contacts :: c.Visible().status)
    }

    /** What the children other than c show. */
    ghost function ShownBeside(c: Contact): set<StatusType>
      reads this`contacts, contacts`onlineStatus
      reads (set x | x in contacts :: x.account)`myself
      reads (set x | x in contacts && x.account.myself != null :: x.account.myself)`onlineStatus
    {
      set x | x in contacts && x != c :: x.Visible().status
    }

    /** The cache stays exact while the list, the cache and what the children show stay put. */
    twostate lemma ExactKept()
      requires contacts == old(contacts) && onlineStatus == old(onlineStatus)
      requires forall c | c in contacts :: c.Visible() == old(c.Visible())
      ensures Exact() == old(Exact())
    {
      assert (set c | c in contacts :: c.Visible().status) == old(set c | c in contacts :: c.Visible().status);
    }

    method UpdateOnlineStatus()
      modifies this`onlineStatus, this`refreshed
      ensures Exact() && refreshed
    {
      var most := EMPTY;
      for i := 0 to |contacts|
        invariant most == EMPTY || exists c :: c in contacts[..i] && c.Visible() == most
        invariant forall c | c in contacts[..i] :: Rank(c.Visible().status) <= Rank(most.status)
      {
        assert contacts[..i + 1] == contacts[..i] + [contacts[i]];
        if contacts[i].Visible().Above(most) {
          most := contacts[i].Visible();
        }
      }
      assert contacts[..|contacts|] == contacts;
      onlineStatus := most.status;
      refreshed := true;
    }

    method AddContact(c: Contact)
      modifies this`contacts, this`onlineStatus, this`refreshed
      ensures contacts == if c in old(contacts) then old(contacts) else old(contacts) + [c]
      ensures c in old(contacts) ==> onlineStatus == old(onlineStatus) && refreshed == old(refreshed)
      ensures c !in old(contacts) ==> Exact() && refreshed
    {
      if c !in contacts {
        contacts := contacts + [c];
        UpdateOnlineStatus();
      }
    }

    /** removeContact; the status is refreshed even when c was not listed. */
    method RemoveContact(c: Contact)
      modifies this`contacts, this`onlineStatus, this`refreshed
      ensures contacts == Without(old(contacts), c)
      ensures Exact() && refreshed
    {
      if c in contacts {
        contacts := Without(contacts, c);
      }
      UpdateOnlineStatus();
    }

    /** The first listed metacontact, other than this one, that is not temporary and has this custom name. */
    ghost function Rival(ms: seq<MetaContact>, name: string): (r: MetaContact?)
      reads ms`temporary, ms`displayName
      ensures r != null ==> r in ms && r != this
    {
      if ms == [] then null
      else if !ms[0].temporary && ms[0] != this && ms[0].displayName == name then ms[0]
      else Rival(ms[1..], name)
    }

    /** The metacontact that a new custom name makes this one absorb, if any. */
    ghost function Absorbed(name: string, list: ContactList): (r: MetaContact?)
      reads this`displayName, this`loading, this`temporary, list`contacts
      reads list.contacts`temporary, list.contacts`displayName
      ensures r != null ==> r in list.contacts && r != this
    {
      if name == displayName || loading || temporary || name == "" then null else Rival(list.contacts, name)
    }

    lemma RivalIs(ms: seq<MetaContact>, name: string, i: nat)
      requires i < |ms| && ms[i] != this && !ms[i].temporary && ms[i].displayName == name
      requires forall j | 0 <= j < i :: ms[j] == this || ms[j].temporary || ms[j].displayName != name
      ensures Rival(ms, name) == ms[i]
    {
      if i > 0 {
        assert ms[0] == this || ms[0].temporary || ms[0].displayName != name;
        RivalIs(ms[1..], name, i - 1);
      }
    }

    lemma NoRival(ms: seq<MetaContact>, name: string)
      requires forall m | m in ms :: m == this || m.temporary || m.displayName != name
      ensures Rival(ms, name) == null
    {
    }

    /** Which metacontact is absorbed: the first that is not temporary and has the name, if this one may absorb. */
    lemma AbsorbedIs(name: string, list: ContactList)
      ensures name == displayName || loading || temporary || name == ""
              || (forall m | m in list.contacts :: m == this || m.temporary || m.displayName != name)
              ==> Absorbed(name, list) == null
      ensures forall i | 0 <= i < |list.contacts| && name != displayName && !loading && !temporary && name != ""
                && list.contacts[i] != this && !list.contacts[i].temporary && list.contacts[i].displayName == name
                && (forall j | 0 <= j < i ::
                      list.contacts[j] == this || list.contacts[j].temporary || list.contacts[j].displayName != name) ::
                Absorbed(name, list) == list.contacts[i]
    {
      hide Rival;
      var ms := list.contacts;
      if forall m | m in ms :: m == this || m.temporary || m.displayName != name {
        NoRival(ms, name);
      }
      forall i | 0 <= i < |ms| && ms[i] != this && !ms[i].temporary && ms[i].displayName == name
        && (forall j | 0 <= j < i :: ms[j] == this || ms[j].temporary || ms[j].displayName != name)
        ensures Rival(ms, name) == ms[i]
      {
        RivalIs(ms, name, i);
      }
    }

    /**
      setDisplayName, for a custom name: the first other metacontact of that name that is not temporary is
      merged into this one; nobody is when there is none, when the name is no news or empty, and while this
      one is temporary or being loaded.
     */
    method SetDisplayName(name: string, list: ContactList)
      requires list.Linked() && list.CoherentExcept({}) && this in list.metas
      modifies this`displayName, list`contacts, list`selectedMetaContacts, list`selectedGroups
      modifies list.people`metaContact, list.people`stray
      modifies list.metas`contacts, list.metas`onlineStatus, list.metas`refreshed, list.metas`deleteScheduled
      ensures list.Linked() && list.CoherentExcept({}) && list.NobodyLost() && displayName == name
      ensures list.Rearranged() == old(list.AfterMerge(Absorbed(name, list), this))
      ensures old(name == displayName || loading || temporary || name == ""
                  || (forall m | m in list.contacts :: m == this || m.temporary || m.displayName != name))
              ==> list.Rearranged() == old(list.Rearranged())
      ensures forall i | 0 <= i < |old(list.contacts)|
                && old(name != displayName && !loading && !temporary && name != "" && list.contacts[i] != this
                       && !list.contacts[i].temporary && list.contacts[i].displayName == name)
                && (forall j | 0 <= j < i :: old(list.contacts[j] == this || list.contacts[j].temporary
                                                 || list.contacts[j].displayName != name)) ::
                old(list.contacts)[i] in old(list.metas)
                && list.Rearranged() == old(list.AfterMerge(list.contacts[i], this))
    {
      AbsorbedIs(name, list);
      list.NothingMerged(this);
      list.ListedExist();
      hide ContactList.Linked, ContactList.Woven, ContactList.CoherentExcept, ContactList.AfterMerge, Rival;
      if name == displayName {
        return;
      }
      if loading {
        displayName := name;
        return;
      }
      if !temporary && name != "" {
        AbsorbRival(name, list);
      }
      displayName := name;
    }

    /** The search for a metacontact of the same name. */
    method AbsorbRival(name: string, list: ContactList)
      requires list.Linked() && list.CoherentExcept({}) && this in list.metas
      modifies list`contacts, list`selectedMetaContacts, list`selectedGroups
      modifies list.people`metaContact, list.people`stray
      modifies list.metas`contacts, list.metas`onlineStatus, list.metas`refreshed, list.metas`deleteScheduled
      ensures list.Linked() && list.CoherentExcept({}) && list.NobodyLost()
      ensures list.Rearranged() == old(list.AfterMerge(Rival(list.contacts, name), this))
    {
      ghost var rival := Rival(list.contacts, name);
      list.ListedExist();
      hide ContactList.Linked, ContactList.Woven, ContactList.CoherentExcept, ContactList.AfterMerge, Snapshot.Merge;
      for i := 0 to |list.contacts|
        invariant rival == Rival(list.contacts[i..], name)
      {
        assert list.contacts[i..][1..] == list.contacts[i + 1..];
        var m := list.contacts[i];
        if !m.temporary && m != this && m.displayName == name {
          assert rival == m;
          Absorb(m, list);
          return;
        }
      }
      list.NothingMerged(this);
    }

    /** The merge loop of setDisplayName: it ends because every move shortens the list it reads. */
    method Absorb(m: MetaContact, list: ContactList)
      requires list.Linked() && list.CoherentExcept({}) && this in list.metas && m in list.metas && m != this
      modifies list`contacts, list`selectedMetaContacts, list`selectedGroups
      modifies list.people`metaContact, list.people`stray
      modifies list.metas`contacts, list.metas`onlineStatus, list.metas`refreshed, list.metas`deleteScheduled
      ensures list.Linked() && list.CoherentExcept({}) && list.NobodyLost()
      ensures list.Rearranged() == old(list.AfterMerge(m, this))
    {
      ghost var s := list.State();
      AbsorbLoop(m, list);
      MergeLists(s, m, this, list.Lists());
    }

    method AbsorbLoop(m: MetaContact, list: ContactList)
      requires list.Linked() && list.CoherentExcept({}) && this in list.metas && m in list.metas && m != this
      modifies list`contacts, list`selectedMetaContacts, list`selectedGroups
      modifies list.people`metaContact, list.people`stray
      modifies {m, this}`contacts, {m, this}`onlineStatus, {m, this}`refreshed, {m, this}`deleteScheduled
      ensures list.Linked() && list.CoherentExcept({}) && list.NobodyLost()
      ensures m.contacts == [] && contacts == old(contacts + m.contacts)
      ensures list.Listed() == if old(m.contacts) == [] then old(list.Listed()) else old(list.Listed()).Remove(m)
    {
      ghost var cs, i := m.contacts, 0;
      while m.contacts != []
        invariant 0 <= i <= |cs| && m.contacts == cs[i..] && contacts == old(contacts) + cs[..i]
        invariant list.Linked() && list.CoherentExcept({}) && list.NobodyLost()
        invariant list.Listed() == if 0 < i == |cs| then old(list.Listed()).Remove(m) else old(list.Listed())
        decreases |m.contacts|
      {
        hide Listing.Remove, NoDup;
        AbsorbFirst(m, list);
        i := i + 1;
        assert cs[..i] == cs[..i - 1] + [cs[i - 1]];
      }
      assert cs[..|cs|] == cs;
    }

    method AbsorbFirst(m: MetaContact, list: ContactList)
      requires list.Linked() && list.CoherentExcept({})
      requires this in list.metas && m in list.metas && m != this && m.contacts != []
      modifies list`contacts, list`selectedMetaContacts, list`selectedGroups
      modifies list.people`metaContact, list.people`stray
      modifies {m, this}`contacts, {m, this}`onlineStatus, {m, this}`refreshed, {m, this}`deleteScheduled
      ensures list.Linked() && list.CoherentExcept({}) && list.NobodyLost()
      ensures m.contacts == old(m.contacts)[1..] && contacts == old(contacts) + [old(m.contacts)[0]]
      ensures list.Listed() == if m.contacts == [] then old(list.Listed()).Remove(m) else old(list.Listed())
    {
      assert m.Holds(list.people);
      assert m.contacts[0] in m.contacts;
      assert m.contacts == [m.contacts[0]] + m.contacts[1..];
      m.contacts[0].SetMetaContact(this, list);
    }

    method MoveToGroup(from: Option<Group>, to: Option<Group>)
      modifies this`groups
      ensures Place() == MoveTo(old(Place()), from, to)
    {
      if from.None? || from.value !in groups {
        AddToGroup(to);
        return;
      }
      if from == to {
        return;
      }
      if to.None? || to.value in groups {
        RemoveFromGroup(from);
        return;
      }
      if to.value == Group.Offline {
        return;
      }
      if temporary && to.value != Temporary {
        return;
      }
      groups := Without(groups, from.value);
      groups := groups + [to.value];
    }

    method RemoveFromGroup(group: Option<Group>)
      modifies this`groups
      ensures Place() == RemoveFrom(old(Place()), group)
    {
      if group.None? || group.value !in groups || (temporary && group.value == Temporary) {
        return;
      }
      groups := Without(groups, group.value);
      if groups == [] {
        groups := groups + [TopLevel];
      }
    }

    method AddToGroup(to: Option<Group>)
      modifies this`groups
      ensures Place() == AddTo(old(Place()), to)
    {
      if to.None? || to.value in groups {
        return;
      }
      if temporary && to.value != Temporary {
        return;
      }
      if TopLevel in groups {
        groups := Without(groups, TopLevel);
      }
      groups := groups + [to.value];
    }

    method SetTemporary(isTemporary: bool, group: Option<Group>)
      modifies this`temporary, this`groups
      ensures Place() == Placement.SetTemporary(old(Place()), isTemporary, group)
      ensures Sound(old(Place())) ==> Sound(Place())
    {
      ghost var p := Place();
      temporary := isTemporary;
      if temporary {
        AddToGroup(Some(Temporary));
        var all := groups;
        ghost var r := Place();
        for i := 0 to |all|
          invariant LeaveAllButTemporary(r, all) == LeaveAllButTemporary(Place(), all[i..])
        {
          assert all[i..][1..] == all[i + 1..];
          if all[i] != Temporary {
            RemoveFromGroup(Some(all[i]));
          }
        }
      } else {
        MoveToGroup(Some(Temporary), Some(if group.Some? then group.value else TopLevel));
      }
      if Sound(p) {
        ApplyKeepsSound(p, Mark(isTemporary, group));
      }
    }
  }

  /**
    What an exact cache says: no child shows more than it, and some child shows just that, unless it is
    Unknown. A child shows what it last reported if it is its account's own contact or that one is online,
    and its account's offline status otherwise.
   */
  lemma CacheMeans(m: MetaContact)
    requires m.Exact()
    ensures forall c | c in m.contacts ::
              var own := c.account.myself;
              if c == own || (own != null && own.onlineStatus.IsDefinitelyOnline())
              then Rank(c.onlineStatus.status) <= Rank(m.onlineStatus)
              else Rank(c.account.offlineStatus.status) <= Rank(m.onlineStatus)
    ensures m.onlineStatus == Unknown
            || (exists c ::
                  && c in m.contacts
                  && var own := c.account.myself;
                     if c == own || (own != null && own.onlineStatus.IsDefinitelyOnline())
                     then c.onlineStatus.status == m.onlineStatus
                     else c.account.offlineStatus.status == m.onlineStatus)
  {
    var seen := set c | c in m.contacts :: c.Visible().status;
    forall c | c in m.contacts ensures Rank(c.Visible().status) <= Rank(m.onlineStatus) {
      assert c.Visible().status in seen;
    }
  }

  class ContactList {
    var contacts: seq<MetaContact>
    var groups: seq<Group>
    var selectedMetaContacts: seq<MetaContact>
    var selectedGroups: seq<Group>
    /** The metacontact of the user, never listed. */
    const myself: MetaContact

    ghost var metas: set<MetaContact>
    ghost var people: set<Contact>
    ghost var accounts: set<Account>
    /** The metacontacts whose cache setMyself has spoiled at some time. */
    ghost var overtaken: set<MetaContact>

    constructor (myself: MetaContact)
      requires myself.contacts == [] && !myself.refreshed && Sound(myself.Place())
      ensures Linked() && CoherentExcept({}) && Placed()
      ensures contacts == [] && groups == [] && this.myself == myself
      ensures metas == {myself} && people == {} && accounts == {} && overtaken == {}
    {
      contacts, groups, selectedMetaContacts, selectedGroups := [], [], [], [];
      this.myself := myself;
      metas, people, accounts, overtaken := {myself}, {}, {}, {};
    }

    function Listed(): Listing<MetaContact>
      reads this`contacts, this`selectedMetaContacts, this`selectedGroups
    {
      Listing(contacts, selectedMetaContacts, selectedGroups)
    }

    /** The two directions of the contact/metacontact link, and the accounts' side of the graph. */
    ghost predicate Woven()
      reads this`metas, this`people, this`accounts
      reads metas`contacts, people`metaContact, people`stray
      reads accounts`myself, accounts`contacts, accounts`listeners
    {
      && (forall m | m in metas :: m.Holds(people))
      && (forall c | c in people :: c.Anchored(metas, accounts))
      && (forall a | a in accounts :: a.Wired(people))
    }

    /** The graph is woven, and the list shows known metacontacts, each once. */
    ghost predicate Linked()
      reads this`contacts, this`metas, this`people, this`accounts
      reads metas`contacts, people`metaContact, people`stray
      reads accounts`myself, accounts`contacts, accounts`listeners
    {
      Woven() && (forall m | m in contacts :: m in metas) && NoDup(contacts)
    }

    /** Every metacontact outside stale that ever had a contact caches the best visible status, unless overtaken. */
    ghost predicate CoherentExcept(stale: set<MetaContact>)
      requires Woven()
      reads this`metas, this`people, this`accounts, this`overtaken
      reads metas`contacts, metas`onlineStatus, metas`refreshed
      reads people`metaContact, people`stray, people`onlineStatus
      reads accounts`myself, accounts`contacts, accounts`listeners
    {
      forall m | m in metas && m !in stale && m.Counts(overtaken) :: m.Exact()
    }

    /** Every metacontact that ever had a contact caches the best visible status. */
    ghost predicate Coherent()
      requires Woven()
      reads this`metas, this`people, this`accounts
      reads metas`contacts, metas`onlineStatus, metas`refreshed
      reads people`metaContact, people`stray, people`onlineStatus
      reads accounts`myself, accounts`contacts, accounts`listeners
    {
      forall m | m in metas && (m.contacts != [] || m.refreshed) :: m.Exact()
    }

    /** What the contacts show depends on their reports and on their accounts' own contacts only. */
    twostate lemma VisibleKept()
      requires old(Linked()) && people == old(people) && accounts == old(accounts)
      requires forall c | c in people :: c.onlineStatus == old(c.onlineStatus)
      requires forall a | a in accounts :: a.myself == old(a.myself)
      ensures forall c | c in people :: c.Visible() == old(c.Visible())
    {
    }

    /** Nobody has become a stray, and nobody has lost its metacontact. */
    twostate predicate NobodyLost()
      reads this`people, people`metaContact, people`stray
    {
      && people == old(people)
      && forall c | c in people ::
           (c.stray ==> old(c.stray)) && (c.metaContact == null ==> old(c.metaContact) == null)
    }

    /** The grouping invariant, for every metacontact in existence. */
    ghost predicate Placed()
      reads this`metas, metas`temporary, metas`groups
    {
      forall m | m in metas :: Sound(m.Place())
    }

    /** A metacontact just constructed exists from now on; it is not listed yet. */
    ghost method Adopt(m: MetaContact)
      requires Linked() && CoherentExcept({}) && m !in metas && m.contacts == [] && !m.refreshed
      modifies this`metas
      ensures Linked() && CoherentExcept({}) && metas == old(metas) + {m}
      ensures old(Placed()) && Sound(m.Place()) ==> Placed()
    {
      var known := metas;
      metas := metas + {m};
      forall c | c in people ensures c.Anchored(metas, accounts) {
        assert c.Anchored(known, accounts);
      }
    }

    /** An account just constructed exists from now on. */
    ghost method Open(a: Account)
      requires Linked() && CoherentExcept({}) && a !in accounts
      requires a.contacts == map[] && a.myself == null && a.listeners == []
      modifies this`accounts
      ensures Linked() && CoherentExcept({}) && accounts == old(accounts) + {a}
    {
      var known := accounts;
      accounts := accounts + {a};
      forall c | c in people ensures c.Anchored(metas, accounts) {
        assert c.Anchored(metas, known);
      }
    }

    method AddMetaContact(m: MetaContact)
      requires Linked() && m in metas
      modifies this`contacts
      ensures Linked()
      ensures contacts == if m in old(contacts) then old(contacts) else old(contacts) + [m]
    {
      if m !in contacts {
        contacts := contacts + [m];
      }
    }

    method SetSelectedItems(ms: seq<MetaContact>, gs: seq<Group>)
      modifies this`selectedMetaContacts, this`selectedGroups
      ensures selectedMetaContacts == ms && selectedGroups == gs
    {
      selectedMetaContacts, selectedGroups := ms, gs;
    }

    /** removeMetaContact: a listed metacontact goes, and its contacts are told to delete themselves. */
    method RemoveMetaContact(m: MetaContact)
      modifies this`contacts, this`selectedMetaContacts, this`selectedGroups
      modifies m`deleteScheduled, m.contacts`deleteTaskStarted
      ensures Listed() == old(Listed()).Remove(m)
      ensures m.deleteScheduled == (old(m.deleteScheduled) || m in old(contacts))
      ensures forall c | c in m.contacts :: c.deleteTaskStarted == (old(c.deleteTaskStarted) || m in old(contacts))
    {
      if m !in contacts {
        return;
      }
      if m in selectedMetaContacts {
        selectedMetaContacts := Without(selectedMetaContacts, m);
        SetSelectedItems(selectedMetaContacts, selectedGroups);
      }
      for i := 0 to |m.contacts|
        invariant forall c | c in m.contacts ::
          c.deleteTaskStarted == (old(c.deleteTaskStarted) || c in m.contacts[..i])
        modifies m.contacts`deleteTaskStarted
      {
        m.contacts[i].deleteTaskStarted := true;
      }
      contacts := Without(contacts, m);
      m.deleteScheduled := true;
    }

    /** Group::members: the listed metacontacts that are in g. */
    method Members(g: Group) returns (r: seq<MetaContact>)
      requires Linked()
      ensures r == State().Members(contacts, g)
    {
      r := [];
      ghost var s := State();
      assert forall m | m in contacts :: m in s.places && s.places[m].groups == m.groups;
      hide State, Linked;
      for i := 0 to |contacts|
        invariant r == s.Members(contacts[..i], g)
      {
        assert contacts[..i + 1][..i] == contacts[..i];
        if g in contacts[i].groups {
          r := r + [contacts[i]];
        }
      }
      assert contacts[..|contacts|] == contacts;
    }

    /**
      removeGroup: the members of g leave it, or leave the list when they are in no other group. No
      list of contacts changes; a contact is told to delete itself only if its metacontact goes.
     */
    method RemoveGroup(g: Group)
      requires Linked() && Placed()
      modifies this`contacts, this`groups, this`selectedMetaContacts, this`selectedGroups
      modifies metas`groups, metas`deleteScheduled, people`deleteTaskStarted
      ensures Linked() && Placed()
      ensures State() == old(State()).RemoveGroup(g)
      ensures g != TopLevel ==> g !in groups && forall m | m in contacts :: g !in m.groups
    {
      if g == TopLevel {
        return;
      }
      SoundState();
      RemoveGroupLeavesNobody(State(), g);
      hide Placed, Snapshot.RemoveGroup, Snapshot.Valid;
      DissolveGroup(g);
      SoundState();
    }

    /** removeGroup for any group but the top level. */
    method DissolveGroup(g: Group)
      requires Linked() && State().Valid() && g != TopLevel
      modifies this`contacts, this`groups, this`selectedMetaContacts, this`selectedGroups
      modifies metas`groups, metas`deleteScheduled, people`deleteTaskStarted
      ensures Linked()
      ensures State() == old(State()).RemoveGroup(g)
    {
      ghost var s := State();
      hide Without, Drop, NoDup, Snapshot.RemoveGroup, Snapshot.Members, Snapshot.ExpelAll, Snapshot.Unselect;
      hide Snapshot.Valid;
      if g in selectedGroups {
        SetSelectedItems(selectedMetaContacts, Without(selectedGroups, g));
      }
      Unselected(s, g);
      var members := Members(g);
      ExpelAllIsRemoveGroup(s, State(), g, members);
      ExpelMembers(members, g);
      ForgetGroup(g);
    }

    /** The last step of removeGroup. */
    method ForgetGroup(g: Group)
      requires Linked()
      modifies this`groups
      ensures Linked()
      ensures State() == old(State()).(groups := Without(old(groups), g))
    {
      groups := Without(groups, g);
    }

    lemma Unselected(s: Snapshot<MetaContact, Contact>, g: Group)
      requires Lists() == s.lists && Places() == s.places && groups == s.groups && Told() == s.told
      requires contacts == s.listing.metaContacts && selectedMetaContacts == s.listing.selected
      requires selectedGroups ==
        if g in s.listing.selectedGroups then Without(s.listing.selectedGroups, g) else s.listing.selectedGroups
      ensures State() == s.Unselect(g)
    {
    }

    /** The grouping invariant, object by object and as a property of the snapshot. */
    lemma SoundState()
      requires Linked()
      ensures Placed() <==> State().Valid()
    {
      assert Placed() ==> forall m | m in State().places :: Sound(State().places[m]);
      assert State().Valid() ==> forall m | m in metas :: Sound(State().places[m]);
    }

    /** The loop of removeGroup. */
    method ExpelMembers(members: seq<MetaContact>, g: Group)
      requires Linked() && forall m | m in members :: m in metas
      modifies this`contacts, this`selectedMetaContacts, this`selectedGroups
      modifies metas`groups, metas`deleteScheduled, people`deleteTaskStarted
      ensures Linked()
      ensures State() == old(State()).ExpelAll(members, g)
    {
      ghost var s := State();
      hide Snapshot.Expel;
      for i := 0 to |members|
        invariant Linked()
        invariant State() == s.ExpelAll(members[..i], g)
      {
        assert members[..i + 1][..i] == members[..i];
        ExpelMember(members[i], g);
      }
      assert members[..|members|] == members;
    }

    /** The body of the loop of removeGroup. */
    method ExpelMember(m: MetaContact, g: Group)
      requires Linked() && m in metas
      modifies this`contacts, this`selectedMetaContacts, this`selectedGroups
      modifies metas`groups, metas`deleteScheduled, people`deleteTaskStarted
      ensures Linked()
      ensures State() == old(State()).Expel(m, g)
    {
      PlaceThere(m);
      HeldExist(m);
      hide ContactList.State, Linked, Woven, Snapshot.Delist, RemoveFrom;
      var mcGroups := m.groups;
      if (|mcGroups| == 1 && g in mcGroups) || mcGroups == [] {
        Delist(m);
      } else {
        Leave(m, g);
      }
    }

    lemma PlaceThere(m: MetaContact)
      requires m in metas
      ensures m in State().places && State().places[m] == m.Place()
    {
    }

    /** removeFromGroup, as a step of the snapshot. */
    method Leave(m: MetaContact, g: Group)
      requires Linked() && m in metas
      modifies m`groups
      ensures Linked()
      ensures m in old(State()).places
      ensures var s := old(State()); State() == s.(places := s.places[m := RemoveFrom(s.places[m], Some(g))])
    {
      ghost var s := State();
      hide Without, RemoveFrom, Linked, Woven;
      m.RemoveFromGroup(Some(g));
      assert Lists() == s.lists && Told() == s.told;
    }

    /** removeMetaContact, as a step of the snapshot. */
    method Delist(m: MetaContact)
      requires Linked() && m in metas
      modifies this`contacts, this`selectedMetaContacts, this`selectedGroups
      modifies m`deleteScheduled, m.contacts`deleteTaskStarted
      ensures Linked()
      ensures State() == old(State()).Delist(m)
    {
      ghost var s := State();
      HeldExist(m);
      ContactsOfOne(s.lists, m);
      hide Without, NoDup, Listing.Remove, Linked, Woven, ContactsOf;
      TellContacts(m);
      assert Lists() == s.lists && Places() == s.places;
    }

    method TellContacts(m: MetaContact)
      requires Linked() && m in metas
      modifies this`contacts, this`selectedMetaContacts, this`selectedGroups
      modifies m`deleteScheduled, m.contacts`deleteTaskStarted
      ensures Linked() && Listed() == old(Listed()).Remove(m)
      ensures Told() == old(Told()) + if m in old(contacts) then set c | c in m.contacts else {}
    {
      assert m.Holds(people);
      RemoveMetaContact(m);
    }

    /** A contact is taken off its metacontact for good. */
    method Detach(c: Contact)
      requires Linked() && CoherentExcept({}) && c in people && c.metaContact != null && !c.stray
      modifies c`stray, c.metaContact`contacts, c.metaContact`onlineStatus, c.metaContact`refreshed
      ensures Linked() && CoherentExcept({}) && c.stray
      ensures c.metaContact in metas
      ensures State() == old(State()).(lists := old(Lists())[c.metaContact := Without(old(c.metaContact.contacts), c)])
    {
      hide Without, NoDup;
      ghost var s := State();
      Unlist(c);
      assert Places() == s.places && Told() == s.told;
      assert Lists() == s.lists[c.metaContact := Without(s.lists[c.metaContact], c)];
    }

    method Unlist(c: Contact)
      requires Linked() && CoherentExcept({}) && c in people && c.metaContact != null && !c.stray
      modifies c`stray, c.metaContact`contacts, c.metaContact`onlineStatus, c.metaContact`refreshed
      ensures Linked() && CoherentExcept({}) && c.stray
      ensures c.metaContact in metas && c.metaContact.contacts == Without(old(c.metaContact.contacts), c)
    {
      var mc := c.metaContact;
      mc.RemoveContact(c);
      c.stray := true;
      RelinkKeepsGraph(Relink(this, c, mc));
    }

    /** Every contact of mc moves to dst, in order. */
    method TakeAll(mc: MetaContact, dst: MetaContact)
      requires Linked() && CoherentExcept({}) && mc in metas && dst in metas && mc != dst
      modifies this`contacts, this`selectedMetaContacts, this`selectedGroups
      modifies mc.contacts`metaContact, mc.contacts`stray
      modifies {mc, dst}`contacts, {mc, dst}`onlineStatus, {mc, dst}`refreshed, {mc, dst}`deleteScheduled
      ensures Linked() && CoherentExcept({})
      ensures mc.contacts == [] && dst.contacts == old(dst.contacts + mc.contacts)
      ensures forall c | c in old(mc.contacts) :: c.metaContact == dst && !c.stray
      ensures Listed() == if old(mc.contacts) == [] then old(Listed()) else old(Listed()).Remove(mc)
    {
      var cs := mc.contacts;
      for i := 0 to |cs|
        invariant Linked() && CoherentExcept({})
        invariant mc.contacts == cs[i..] && dst.contacts == old(dst.contacts) + cs[..i]
        invariant Listed() == if 0 < i == |cs| then old(Listed()).Remove(mc) else old(Listed())
        invariant forall c | c in cs[..i] :: c.metaContact == dst && !c.stray
      {
        HeldExist(mc);
        assert cs[i] in mc.contacts;
        hide Linked, Woven, CoherentExcept, Listing.Remove, NoDup;
        cs[i].SetMetaContact(dst, this);
        assert cs[i..] == [cs[i]] + cs[i + 1..];
        assert cs[..i + 1] == cs[..i] + [cs[i]];
      }
      assert cs[..|cs|] == cs;
    }

    /** Who is in which groups. */
    ghost function Places(): map<MetaContact, Place>
      reads this`metas, metas`temporary, metas`groups
    {
      map m | m in metas :: m.Place()
    }

    /** Who lists whom. */
    ghost function Lists(): map<MetaContact, seq<Contact>>
      reads this`metas, metas`contacts
    {
      map m | m in metas :: m.contacts
    }

    /** No metacontact lists a contact of this account. */
    ghost predicate Free(account: Account)
      reads this`metas, metas`contacts
    {
      forall m, c | m in metas && c in m.contacts :: c.account != account
    }

    lemma HomesAre()
      ensures forall c | c in Homes(State().lists) :: exists m :: m in metas && c in m.contacts
      ensures forall m, c | m in metas && c in m.contacts :: c in Homes(State().lists)
      ensures Linked() ==> Homes(State().lists) <= people
    {
      forall m, c | m in metas && c in m.contacts
        ensures c in Homes(State().lists) && (Linked() ==> c in people)
      {
        assert Linked() ==> m.Holds(people);
        HomesIntro(State().lists, m, c);
      }
    }

    /** The contacts for which a DeleteContactTask has been started. */
    ghost function Told(): set<Contact>
      reads this`people, people`deleteTaskStarted
    {
      set c | c in people && c.deleteTaskStarted
    }

    ghost function State(): Snapshot<MetaContact, Contact>
      reads this`contacts, this`selectedMetaContacts, this`selectedGroups, this`groups, this`metas, this`people
      reads metas`contacts, metas`temporary, metas`groups, people`deleteTaskStarted
    {
      Snapshot(Lists(), Places(), Listed(), groups, Told())
    }

    /** What merging can change: who lists whom, what is shown and what is selected. */
    ghost function Rearranged(): (map<MetaContact, seq<Contact>>, Listing<MetaContact>)
      reads this`contacts, this`selectedMetaContacts, this`selectedGroups, this`metas, metas`contacts
    {
      (Lists(), Listed())
    }

    /** What becomes of it when mc, if there is one, is merged into dst. */
    ghost function AfterMerge(mc: MetaContact?, dst: MetaContact)
      : (map<MetaContact, seq<Contact>>, Listing<MetaContact>)
      requires dst in metas && (mc != null ==> mc in metas)
      reads this`contacts, this`selectedMetaContacts, this`selectedGroups, this`groups, this`metas, this`people
      reads metas`contacts, metas`temporary, metas`groups, people`deleteTaskStarted
    {
      if mc == null then Rearranged()
      else
        var s := State().Merge(mc, dst);
        (s.lists, s.listing)
    }

    lemma NothingMerged(dst: MetaContact)
      requires dst in metas
      ensures Rearranged() == AfterMerge(null, dst)
    {
    }

    lemma HeldExist(m: MetaContact)
      requires Linked() && m in metas
      ensures forall c | c in m.contacts :: c in people && c.metaContact == m
    {
      assert m.Holds(people);
    }

    lemma ListedExist()
      requires Linked()
      ensures forall m | m in contacts :: m in metas
    {
    }

    /** mergeMetaContacts, one source after the other. */
    method MergeMetaContacts(src: seq<MetaContact>, dst: MetaContact)
      requires Linked() && CoherentExcept({}) && dst in metas && forall m | m in src :: m in metas
      modifies this`contacts, this`selectedMetaContacts, this`selectedGroups
      modifies people`metaContact, people`stray
      modifies metas`contacts, metas`onlineStatus, metas`refreshed, metas`deleteScheduled
      ensures Linked() && CoherentExcept({}) && NobodyLost()
      ensures Lists() == old(State()).MergeAll(src, dst).lists && Listed() == old(State()).MergeAll(src, dst).listing
    {
      ghost var g := State();
      for i := 0 to |src|
        invariant Linked() && CoherentExcept({}) && NobodyLost()
        invariant Lists() == g.MergeAll(src[..i], dst).lists && Listed() == g.MergeAll(src[..i], dst).listing
      {
        assert src[..i + 1][..i] == src[..i];
        MergeOne(src[i], dst);
      }
      assert src[..|src|] == src;
    }

    /**
      The inner loop of mergeMetaContacts. Merging a metacontact with itself moves nothing, since
      setMetaContact ignores the present parent.
     */
    method MergeOne(mc: MetaContact, dst: MetaContact)
      requires Linked() && CoherentExcept({}) && mc in metas && dst in metas
      modifies this`contacts, this`selectedMetaContacts, this`selectedGroups
      modifies people`metaContact, people`stray
      modifies metas`contacts, metas`onlineStatus, metas`refreshed, metas`deleteScheduled
      ensures Linked() && CoherentExcept({}) && NobodyLost()
      ensures Lists() == old(State()).Merge(mc, dst).lists && Listed() == old(State()).Merge(mc, dst).listing
    {
      HeldExist(mc);
      hide Linked, Woven, CoherentExcept, Listing.Remove, NoDup;
      if mc != dst {
        MergeOther(mc, dst);
      }
    }

    method MergeOther(mc: MetaContact, dst: MetaContact)
      requires Linked() && CoherentExcept({}) && mc in metas && dst in metas && mc != dst
      requires forall c | c in mc.contacts :: c in people
      modifies this`contacts, this`selectedMetaContacts, this`selectedGroups
      modifies mc.contacts`metaContact, mc.contacts`stray
      modifies {mc, dst}`contacts, {mc, dst}`onlineStatus, {mc, dst}`refreshed, {mc, dst}`deleteScheduled
      ensures Linked() && CoherentExcept({}) && NobodyLost()
      ensures Lists() == old(State()).Merge(mc, dst).lists && Listed() == old(State()).Merge(mc, dst).listing
    {
      ghost var s := State();
      hide Linked, Woven, CoherentExcept, Listing.Remove, NoDup;
      TakeAll(mc, dst);
      MergeLists(s, mc, dst, Lists());
    }
  }

  /** Where the removal of an account starts from: the accounts and contacts there are, the list, the account. */
  datatype Outset = Outset(
    accounts: seq<Account>,
    existing: set<Account>,
    people: set<Contact>,
    state: Snapshot<MetaContact, Contact>,
    contacts: map<string, Contact>,
    listeners: seq<Contact>,
    myself: Contact?)
  {
    /** The contacts that die with the account. */
    ghost function Dying(): set<Contact> {
      contacts.Values + (if myself == null then {} else {myself})
    }

    /** It has no others. */
    ghost predicate Known() {
      forall c | c in listeners :: c in Dying()
    }

    /** No metacontact lists others. */
    ghost predicate Enrolled(account: Account) {
      Homes(state.lists) * Ours(account) <= Dying()
    }

    ghost function Ours(account: Account): set<Contact> {
      set c | c in people && c.account == account
    }
  }

  class AccountManager {
    var accounts: seq<Account>
    var accountsToBeRemoved: seq<Account>
    /** The accounts whose isConnectedChanged is connected to removeAccountConnectedChanged. */
    var awaited: set<Account>

    constructor ()
      ensures accounts == [] && accountsToBeRemoved == [] && awaited == {}
    {
      accounts, accountsToBeRemoved, awaited := [], [], {};
    }

    /** Some of them have no metacontact. */
    static ghost predicate Homeless(cs: set<Contact>)
      reads cs`metaContact
    {
      exists c :: c in cs && c.metaContact == null
    }

    /** They are off their metacontacts' lists and about to be deleted. */
    static ghost predicate Dismissed(cs: set<Contact>)
      reads cs`stray, cs`deleteScheduled
    {
      forall c | c in cs :: c.stray && c.deleteScheduled
    }

    /** The list is what s becomes when each contact of cs is parted from the metacontact that listed it. */
    static ghost predicate TakenAway(cs: set<Contact>, list: ContactList, s: Snapshot<MetaContact, Contact>,
                                     partings: seq<Parting<MetaContact, Contact>>)
      reads list, list.metas, list.people, cs
    {
      && s.Valid() && Proper(s, partings) && Parted(partings) == cs
      && list.State() == s.TakeAllAway(partings) && Dismissed(cs)
    }

    lemma NothingTaken(list: ContactList)
      requires list.Linked() && list.Placed()
      ensures TakenAway({}, list, list.State(), [])
    {
      list.SoundState();
      NothingTakenYet(list.State());
    }

    /** registerAccount, apart from the order by priority. */
    method RegisterAccount(account: Account)
      modifies this`accounts
      ensures accounts == if account in old(accounts) then old(accounts) else old(accounts) + [account]
    {
      if account !in accounts {
        accounts := accounts + [account];
      }
    }

    /**
      removeAccount, where agreed is what the account's own removeAccount answers: an account that is not
      connected is queued, however often it is in the queue already; a connected one is waited for, and
      told to disconnect.
     */
    method RemoveAccount(account: Account, agreed: bool)
      modifies this`accountsToBeRemoved, this`awaited
      ensures accountsToBeRemoved ==
        old(accountsToBeRemoved) + if agreed && !account.IsConnected() then [account] else []
      ensures awaited == old(awaited) + if agreed && account.IsConnected() then {account} else {}
    {
      if !agreed {
        return;
      }
      if !account.IsConnected() {
        accountsToBeRemoved := accountsToBeRemoved + [account];
      } else {
        awaited := awaited + {account};
      }
    }

    /** removeAccountConnectedChanged, if it is connected to this account. */
    method RemoveAccountConnectedChanged(account: Account)
      modifies this`accountsToBeRemoved, this`awaited
      ensures var comes := account in old(awaited) && !account.IsConnected();
              && accountsToBeRemoved == old(accountsToBeRemoved) + (if comes then [account] else [])
              && awaited == old(awaited) - (if comes then {account} else {})
    {
      if account in awaited && !account.IsConnected() {
        awaited := awaited - {account};
        accountsToBeRemoved := accountsToBeRemoved + [account];
      }
    }

    /** No account is being removed twice over, and those that are have no contacts that would survive them. */
    ghost predicate Orderly(existing: set<Account>)
      reads this`accountsToBeRemoved, this`awaited, existing`contacts, existing`listeners, existing`myself
    {
      && NoDup(accountsToBeRemoved)
      && (forall a | a in accountsToBeRemoved :: a !in awaited && a in existing && a.AllKnown())
      && (forall a | a in awaited :: a in existing && a.AllKnown())
    }

    /** The account at the head of the queue has been deleted already. */
    ghost predicate HeadGone()
      reads this`accountsToBeRemoved, accountsToBeRemoved`deleted
    {
      accountsToBeRemoved != [] && accountsToBeRemoved[0].deleted
    }

    /** The account that removeAccountInternal is about to remove, if any: not one that is connected again. */
    ghost function Next(): Account?
      reads this`accountsToBeRemoved, accountsToBeRemoved`myself, accountsToBeRemoved`deleted
      reads (set a: Account | a in accountsToBeRemoved && a.myself != null :: a.myself)`onlineStatus
    {
      if accountsToBeRemoved == [] || HeadGone() || accountsToBeRemoved[0].IsConnected() then null
      else accountsToBeRemoved[0]
    }

    ghost function Leaving(): set<Account>
      reads this`accountsToBeRemoved, accountsToBeRemoved`myself, accountsToBeRemoved`deleted
      reads (set a: Account | a in accountsToBeRemoved && a.myself != null :: a.myself)`onlineStatus
    {
      if Next() == null then {} else {Next()}
    }

    /** The contacts that it is about to take away. */
    ghost function Victims(): set<Contact>
      reads this`accountsToBeRemoved, accountsToBeRemoved`myself, accountsToBeRemoved`contacts
      reads accountsToBeRemoved`deleted
      reads (set a: Account | a in accountsToBeRemoved && a.myself != null :: a.myself)`onlineStatus
    {
      if Next() == null then {} else Next().contacts.Values
    }

    /** They, and the account's own contact. */
    ghost function Perishing(): set<Contact>
      reads this`accountsToBeRemoved, accountsToBeRemoved`myself, accountsToBeRemoved`contacts
      reads accountsToBeRemoved`deleted
      reads (set a: Account | a in accountsToBeRemoved && a.myself != null :: a.myself)`onlineStatus
    {
      if Next() == null then {} else Next().Dying()
    }

    /** takeFirst on the queue, and the test of what it yields: it crashes on an account already deleted. */
    method TakeFirst() returns (crashed: bool, account: Account?)
      modifies this`accountsToBeRemoved
      ensures crashed == old(HeadGone()) && account == old(Next())
      ensures accountsToBeRemoved == if old(accountsToBeRemoved) == [] then [] else old(accountsToBeRemoved)[1..]
    {
      crashed, account := false, null;
      if accountsToBeRemoved == [] {
        return;
      }
      var first := accountsToBeRemoved[0];
      accountsToBeRemoved := accountsToBeRemoved[1..];
      if first.deleted {
        crashed := true;
      } else if !first.IsConnected() {
        account := first;
      }
    }

    /**
      removeAccountInternal for the account at the head of the queue. It crashes exactly if that account
      has been deleted already, or a contact registered with it has no metacontact. An account that is
      connected again is left alone. Any other goes, with its registered contacts and its own one; all is
      well afterwards exactly if it had no further contacts, and nobody lists one exactly if nobody did.
     */
    method RemoveAccountInternal(list: ContactList)
      returns (crashed: bool, ghost partings: seq<Parting<MetaContact, Contact>>)
      requires list.Linked() && list.CoherentExcept({}) && list.Placed()
      requires Next() != null ==> Removable(Next(), list)
      modifies this`accounts, this`accountsToBeRemoved, Leaving()`contacts, Leaving()`deleted
      modifies Victims()`stray, Perishing()`deleteScheduled
      modifies list`contacts, list`groups, list`selectedMetaContacts, list`selectedGroups
      modifies list`people, list`accounts, list.people`deleteTaskStarted
      modifies list.metas`contacts, list.metas`onlineStatus, list.metas`refreshed, list.metas`groups
      modifies list.metas`deleteScheduled
      ensures accountsToBeRemoved == if old(accountsToBeRemoved) == [] then [] else old(accountsToBeRemoved)[1..]
      ensures crashed <==> old(HeadGone() || Homeless(Victims()))
      ensures !crashed && old(Next()) == null ==>
        && unchanged(list) && list.State() == old(list.State()) && accounts == old(accounts)
        && list.Linked() && list.CoherentExcept({}) && list.Placed()
      ensures !crashed && old(Next()) != null ==> Gone(old(Next()), list, old(Start(Next(), list)), partings)
    {
      NextLeaves();
      hide *;
      ghost var next := Next();
      assert next != null ==> Removable(next, list);
      var account;
      crashed, account := TakeFirst();
      partings := [];
      if crashed {
        return;
      }
      if account == null {
        NobodyHomeless();
      } else {
        crashed, partings := Discard(account, list);
      }
    }

    lemma NextLeaves()
      ensures Next() == null ==> Victims() == {}
      ensures Next() != null ==>
        Victims() == Next().contacts.Values && Perishing() == Next().Dying() && Leaving() == {Next()}
      ensures HeadGone() ==> Next() == null
    {
    }

    lemma NobodyHomeless()
      ensures !Homeless({})
    {
    }

    ghost function Start(account: Account, list: ContactList): Outset
      reads this`accounts, account`contacts, account`listeners, account`myself
      reads list`contacts, list`selectedMetaContacts, list`selectedGroups, list`groups
      reads list`metas, list`people, list`accounts
      reads list.metas`contacts, list.metas`temporary, list.metas`groups, list.people`deleteTaskStarted
    {
      Outset(accounts, list.accounts, list.people, list.State(), account.contacts, account.listeners, account.myself)
    }

    /**
      The account has been removed, with its registered contacts and its own one. All is well exactly if
      it had no further contacts; nobody lists a contact of it exactly if nobody listed a further one.
     */
    ghost predicate Gone(account: Account, list: ContactList, was: Outset, partings: seq<Parting<MetaContact, Contact>>)
      reads this`accounts, account, list, list.metas, list.people, list.accounts, was.Dying()
    {
      && Removed(account, list, was.people, was.existing, was.Dying())
      && Buried(was.contacts.Values, was.Dying(), list, was.state, partings)
      && accounts == Without(was.accounts, account)
      && (list.Linked() <==> was.Known())
      && (list.Linked() ==> list.CoherentExcept({}) && list.Placed())
      && (list.Free(account) <==> was.Enrolled(account))
    }

    /** Every metacontact lists what it listed, in order, but for those that died. */
    lemma ListsAfter(account: Account, list: ContactList, was: Outset, partings: seq<Parting<MetaContact, Contact>>,
                     m: MetaContact)
      requires Gone(account, list, was, partings) && m in list.metas
      ensures m in was.state.lists && m.contacts == Drop(was.state.lists[m], was.Dying())
    {
      var after := list.State();
      assert m in after.lists && after.lists[m] == m.contacts;
      assert was.contacts.Values <= was.Dying();
      hide Drop, Snapshot.TakeAllAway, Proper, Parted, ContactList.State, Outset.Dying;
      assert m in was.state.lists;
      RemovalLists(was.state, partings, was.Dying(), m);
    }

    /** The account is deleted, and it and those that die with it are not in existence any more. */
    static ghost predicate Removed(account: Account, list: ContactList, people: set<Contact>, accounts: set<Account>,
                                   dying: set<Contact>)
      reads account, list, dying`deleteScheduled
    {
      && account.deleted && account.contacts == map[]
      && list.people == people - dying && list.accounts == accounts - {account}
      && forall c | c in dying :: c.deleteScheduled
    }

    /** What has become of the list: s with the registered contacts taken away, and the dying ones gone. */
    static ghost predicate Buried(cs: set<Contact>, dying: set<Contact>, list: ContactList,
                                  s: Snapshot<MetaContact, Contact>, partings: seq<Parting<MetaContact, Contact>>)
      reads list, list.metas, list.people
    {
      && s.Valid() && Proper(s, partings) && Parted(partings) == cs
      && list.State() == s.TakeAllAway(partings).Bury(dying)
    }

    /** The removal of a disconnected account: first its contacts, then the account itself. */
    method Discard(account: Account, list: ContactList)
      returns (crashed: bool, ghost partings: seq<Parting<MetaContact, Contact>>)
      requires Removable(account, list)
      modifies this`accounts, account`contacts, account`deleted
      modifies account.contacts.Values`stray, account.Dying()`deleteScheduled
      modifies list`contacts, list`groups, list`selectedMetaContacts, list`selectedGroups
      modifies list`people, list`accounts, list.people`deleteTaskStarted
      modifies list.metas`contacts, list.metas`onlineStatus, list.metas`refreshed, list.metas`groups
      modifies list.metas`deleteScheduled
      ensures crashed <==> old(Homeless(account.contacts.Values))
      ensures !crashed ==> Gone(account, list, old(Start(account, list)), partings)
    {
      ghost var was := Start(account, list);
      Begins(account, list, was);
      hide *;
      var cs := account.contacts.Values;
      crashed, partings := TakeAllAway(cs, list, was.state);
      if !crashed {
        Bury(account, list, was, partings);
      }
    }

    lemma Begins(account: Account, list: ContactList, was: Outset)
      requires Removable(account, list) && was == Start(account, list)
      ensures account in list.accounts && Homes(was.state.lists) <= was.people
      ensures Sweeping(account.contacts.Values, account.contacts.Values, list, was.state, [])
    {
      list.HomesAre();
      SweepStarts(account, list);
      hide ContactList.State, ContactList.Linked, Sweeping;
    }

    /** What the removal of an account relies on. */
    static ghost predicate Removable(account: Account, list: ContactList)
      reads account`contacts, list`contacts, list`metas, list`people, list`accounts, list`overtaken
      reads list.metas`contacts, list.metas`onlineStatus, list.metas`refreshed, list.metas`temporary, list.metas`groups
      reads list.people`metaContact, list.people`stray, list.people`onlineStatus
      reads list.accounts`myself, list.accounts`contacts, list.accounts`listeners
    {
      && list.Linked() && list.CoherentExcept({}) && list.Placed() && account in list.accounts
      && forall c | c in account.contacts.Values :: c in list.people && !c.stray
    }

    lemma IsGone(account: Account, list: ContactList, was: Outset, partings: seq<Parting<MetaContact, Contact>>)
      requires Removed(account, list, was.people, was.existing, was.Dying())
      requires Buried(was.contacts.Values, was.Dying(), list, was.state, partings)
      requires accounts == Without(was.accounts, account)
      requires list.Linked() <==> was.Known()
      requires list.Linked() ==> list.CoherentExcept({}) && list.Placed()
      requires list.Free(account) <==> was.Enrolled(account)
      ensures Gone(account, list, was, partings)
    {
    }

    /** The second half: nobody lists its registered contacts any more. */
    method Bury(account: Account, list: ContactList, ghost was: Outset,
                ghost partings: seq<Parting<MetaContact, Contact>>)
      requires account in list.accounts && accounts == was.accounts && list.accounts == was.existing
      requires list.people == was.people && account.contacts == was.contacts
      requires account.listeners == was.listeners && account.myself == was.myself
      requires Homes(was.state.lists) <= was.people
      requires Sweeping(account.contacts.Values, {}, list, was.state, partings)
      modifies this`accounts, account`contacts, account`deleted, account.Dying()`deleteScheduled
      modifies list`people, list`accounts, list.metas`contacts, list.metas`onlineStatus, list.metas`refreshed
      ensures Gone(account, list, was, partings)
    {
      ghost var cs := was.contacts.Values;
      SweepEnds(cs, list, was.state, partings);
      SweptState(cs, list, was.state, partings);
      assert account.Dying() == was.Dying() && (account.AllKnown() <==> was.Known());
      assert cs <= was.Dying();
      hide *;
      Erase(account, list);
      IsBuried(cs, was.Dying(), list, was.state, partings);
      Forgotten(account, list, was, partings);
      IsGone(account, list, was, partings);
    }

    static lemma SweptState(cs: set<Contact>, list: ContactList, s: Snapshot<MetaContact, Contact>,
                            partings: seq<Parting<MetaContact, Contact>>)
      requires TakenAway(cs, list, s, partings)
      ensures s.Valid() && Proper(s, partings) && Parted(partings) == cs && Dismissed(cs)
      ensures list.State() == s.TakeAllAway(partings)
    {
    }

    static lemma IsBuried(cs: set<Contact>, dying: set<Contact>, list: ContactList,
                          s: Snapshot<MetaContact, Contact>, partings: seq<Parting<MetaContact, Contact>>)
      requires s.Valid() && Proper(s, partings) && Parted(partings) == cs
      requires list.State() == s.TakeAllAway(partings).Bury(dying)
      ensures Buried(cs, dying, list, s, partings)
    {
    }

    static lemma Forgotten(account: Account, list: ContactList, was: Outset,
                           partings: seq<Parting<MetaContact, Contact>>)
      requires Buried(was.contacts.Values, was.Dying(), list, was.state, partings)
      requires was.contacts.Values <= was.Dying() && Homes(was.state.lists) <= was.people
      ensures list.Free(account) <==> was.Enrolled(account)
    {
      var ours := was.Ours(account);
      RemovalForgets(was.state, partings, was.Dying(), ours);
      RemovalShrinks(was.state, partings, was.Dying());
      list.HomesAre();
      hide Homes, Snapshot.TakeAllAway, Snapshot.Bury, Proper, Parted, ContactList.State, Outset.Dying;
      var after := Homes(list.State().lists);
      assert after <= was.people;
      assert after !! ours <==> forall c | c in after :: c.account != account;
    }

    /** delete account, once its registered contacts are listed no more: they and its own contact go with it. */
    method Erase(account: Account, list: ContactList)
      requires list.Linked() && list.CoherentExcept({}) && list.Placed() && account in list.accounts
      requires Dismissed(account.contacts.Values)
      modifies this`accounts, account`contacts, account`deleted, account.Dying()`deleteScheduled
      modifies list`people, list`accounts, list.metas`contacts, list.metas`onlineStatus, list.metas`refreshed
      ensures Removed(account, list, old(list.people), old(list.accounts), old(account.Dying()))
      ensures accounts == Without(old(accounts), account)
      ensures list.State() == old(list.State()).Bury(old(account.Dying()))
      ensures list.Linked() <==> old(account.AllKnown())
      ensures list.Linked() ==> list.CoherentExcept({}) && list.Placed()
    {
      ghost var dying := account.Dying();
      DyingExist(account, list);
      hide *;
      accounts := Without(accounts, account);
      Delete(account, list, dying);
      ErasureState(Erasure(list, account));
      ErasureKeepsGraph(Erasure(list, account));
      ErasureKeepsPlaces(Erasure(list, account));
    }

    /** The account's own contact, and then the account with all that die with it, cease to exist. */
    method Delete(account: Account, list: ContactList, ghost dying: set<Contact>)
      requires list.Linked() && account in list.accounts && dying == account.Dying()
      requires Dismissed(account.contacts.Values)
      modifies account`contacts, account`deleted, dying`deleteScheduled
      modifies list`people, list`accounts, list.metas`contacts, list.metas`onlineStatus, list.metas`refreshed
      ensures Removed(account, list, old(list.people), old(list.accounts), dying)
      ensures Deleted(Erasure(list, account))
      ensures forall x | x in list.metas ::
        (x.contacts == old(x.contacts) && x.onlineStatus == old(x.onlineStatus) && x.refreshed == old(x.refreshed))
        || x.Exact()
    {
      hide Without, NoDup, MetaContact.Exact, ContactList.Linked, ContactList.Woven;
      DeleteOwn(account, list);
      list.people := list.people - dying;
      list.accounts := list.accounts - {account};
      account.contacts := map[];
      account.deleted := true;
    }

    /** delete d->myself: the metacontact that lists it takes it off its list. */
    method DeleteOwn(account: Account, list: ContactList)
      requires list.Linked() && account in list.accounts
      modifies account.Dying()`deleteScheduled, list.metas`contacts, list.metas`onlineStatus, list.metas`refreshed
      ensures account.myself != null ==> account.myself.deleteScheduled
      ensures forall c | c in account.contacts.Values :: c.deleteScheduled == old(c.deleteScheduled)
      ensures forall x | x in list.metas ::
        || (x.contacts == old(x.contacts) && x.onlineStatus == old(x.onlineStatus) && x.refreshed == old(x.refreshed)
            && account.myself !in x.contacts)
        || (account.myself != null
            && x.contacts == Without<Contact>(old(x.contacts), account.myself) && x.Exact())
    {
      assert account.Wired(list.people);
      var own := account.myself;
      if own != null {
        own.deleteScheduled := true;
        OneShowing(own, list);
        ParentExists(own, list);
        if own.metaContact != null && own in own.metaContact.contacts {
          own.metaContact.RemoveContact(own);
        }
      }
    }

    static lemma DyingExist(account: Account, list: ContactList)
      requires list.Linked() && account in list.accounts
      ensures account.Dying() <= list.people
    {
      assert account.Wired(list.people);
    }

    static lemma SweepStarts(account: Account, list: ContactList)
      requires list.Linked() && list.CoherentExcept({}) && list.Placed() && account in list.accounts
      requires forall c | c in account.contacts.Values :: !c.stray
      ensures Sweeping(account.contacts.Values, account.contacts.Values, list, list.State(), [])
    {
      list.SoundState();
      NothingTakenYet(list.State());
      AllPlaceable(account, list);
    }

    static lemma SweepEnds(cs: set<Contact>, list: ContactList, s: Snapshot<MetaContact, Contact>,
                           partings: seq<Parting<MetaContact, Contact>>)
      requires Sweeping(cs, {}, list, s, partings)
      ensures list.Linked() && list.Woven() && list.CoherentExcept({}) && list.Placed() && list.State().Valid()
      ensures TakenAway(cs, list, s, partings)
    {
      list.SoundState();
      assert cs - {} == cs;
    }

    /** What the loop of removeAccountInternal needs of each contact: one metacontact, which lists it. */
    static ghost predicate Placeable(c: Contact, s: Snapshot<MetaContact, Contact>)
      reads c`metaContact
    {
      && c.metaContact != null && c.metaContact in s.lists && c.metaContact in s.places
      && c in s.lists[c.metaContact]
      && forall m | m in s.lists && c in s.lists[m] :: m == c.metaContact
    }

    static lemma AllPlaceable(account: Account, list: ContactList)
      requires list.Linked() && account in list.accounts
      requires forall c | c in account.contacts.Values :: !c.stray
      ensures forall c | c in account.contacts.Values ::
        c in list.people && (c.metaContact != null ==> Placeable(c, list.State()))
    {
      assert account.Wired(list.people);
      forall c | c in account.contacts.Values
        ensures c in list.people && (c.metaContact != null ==> Placeable(c, list.State()))
      {
        assert c in list.people;
        assert c.Anchored(list.metas, list.accounts);
        forall m | m in list.metas && c in m.contacts ensures m == c.metaContact {
          assert m.Holds(list.people);
        }
      }
    }

    /** Where the loop of removeAccountInternal stands, with the contacts todo still to be taken away. */
    static ghost predicate Sweeping(cs: set<Contact>, todo: set<Contact>, list: ContactList,
                                    s: Snapshot<MetaContact, Contact>,
                             partings: seq<Parting<MetaContact, Contact>>)
      reads list, list.metas, list.people, list.accounts, cs
    {
      && list.Linked() && list.CoherentExcept({}) && list.State().Valid()
      && s.Valid() && Proper(s, partings) && Owned(s, partings) && Parted(partings) == cs - todo
      && list.State() == s.TakeAllAway(partings)
      && todo <= cs
      && (forall c | c in todo :: c in list.people && !c.stray && (c.metaContact != null ==> Placeable(c, s)))
      && Dismissed(cs - todo) && !Homeless(cs - todo)
    }

    /**
      The loop of removeAccountInternal over the contacts of the account, in whatever order the hash
      yields them. The source dereferences the metacontact of every contact: at one without, it crashes.
     */
    method TakeAllAway(cs: set<Contact>, list: ContactList, ghost s: Snapshot<MetaContact, Contact>)
      returns (crashed: bool, ghost partings: seq<Parting<MetaContact, Contact>>)
      requires Sweeping(cs, cs, list, s, [])
      modifies cs`stray, cs`deleteScheduled
      modifies list`contacts, list`groups, list`selectedMetaContacts, list`selectedGroups
      modifies list.metas`contacts, list.metas`onlineStatus, list.metas`refreshed, list.metas`groups
      modifies list.metas`deleteScheduled, list.people`deleteTaskStarted
      ensures crashed <==> old(Homeless(cs))
      ensures !crashed ==> Sweeping(cs, {}, list, s, partings)
    {
      var todo := cs;
      crashed := false;
      partings := [];
      hide *;
      while todo != {}
        invariant todo <= cs && Sweeping(cs, todo, list, s, partings) && Homeless(cs) == old(Homeless(cs))
      {
        var c :| c in todo;
        if c.metaContact == null {
          FoundHomeless(cs, c);
          crashed := true;
          return;
        }
        partings := TakeOne(c, cs, todo, list, s, partings);
        todo := todo - {c};
      }
      SweptHadMetaContacts(cs, list, s, partings);
    }

    static lemma SweptHadMetaContacts(cs: set<Contact>, list: ContactList, s: Snapshot<MetaContact, Contact>,
                                      partings: seq<Parting<MetaContact, Contact>>)
      requires Sweeping(cs, {}, list, s, partings)
      ensures !Homeless(cs)
    {
      assert cs - {} == cs;
    }

    static lemma FoundHomeless(cs: set<Contact>, c: Contact)
      requires c in cs && c.metaContact == null
      ensures Homeless(cs)
    {
    }

    /** TakeAway, seen from the start of the loop. */
    method TakeOne(c: Contact, ghost cs: set<Contact>, ghost todo: set<Contact>, list: ContactList,
                   ghost s: Snapshot<MetaContact, Contact>,
                   ghost before: seq<Parting<MetaContact, Contact>>)
      returns (ghost partings: seq<Parting<MetaContact, Contact>>)
      requires Sweeping(cs, todo, list, s, before) && c in todo && c.metaContact != null
      modifies c`stray, c`deleteScheduled, list`contacts, list`groups, list`selectedMetaContacts, list`selectedGroups
      modifies list.metas`contacts, list.metas`onlineStatus, list.metas`refreshed, list.metas`groups
      modifies list.metas`deleteScheduled, list.people`deleteTaskStarted
      ensures Sweeping(cs, todo - {c}, list, s, partings)
    {
      hide Without, NoDup, Drop, Parted, Proper, Owned, Snapshot.Valid, Snapshot.TakeAway, Snapshot.TakeAllAway;
      hide ContactList.State;
      hide ContactList.Linked, ContactList.CoherentExcept, ContactList.Woven, Account.Wired, Contact.Anchored;
      hide MetaContact.Holds;
      partings := TakeNext(c, list, s, before);
      assert cs - (todo - {c}) == cs - todo + {c};
    }

    method TakeNext(c: Contact, list: ContactList, ghost s: Snapshot<MetaContact, Contact>,
                    ghost before: seq<Parting<MetaContact, Contact>>)
      returns (ghost partings: seq<Parting<MetaContact, Contact>>)
      requires list.Linked() && list.CoherentExcept({}) && list.State().Valid()
      requires s.Valid() && Proper(s, before) && Owned(s, before) && c !in Parted(before)
      requires list.State() == s.TakeAllAway(before)
      requires c in list.people && Placeable(c, s) && !c.stray
      modifies c`stray, c`deleteScheduled, list`contacts, list`groups, list`selectedMetaContacts, list`selectedGroups
      modifies list.metas`contacts, list.metas`onlineStatus, list.metas`refreshed, list.metas`groups
      modifies list.metas`deleteScheduled, list.people`deleteTaskStarted
      ensures list.Linked() && list.Woven() && list.CoherentExcept({}) && list.State().Valid()
      ensures Proper(s, partings) && Owned(s, partings) && Parted(partings) == Parted(before) + {c}
      ensures list.State() == s.TakeAllAway(partings)
      ensures c.stray && c.deleteScheduled
    {
      ghost var p: Parting<MetaContact, Contact> := Parting(c, c.metaContact);
      ProperStep(s, before, p);
      TakeAllAwayStep(s, before, p);
      hide *;
      TakeAway(c, c.metaContact, list);
      partings := before + [p];
    }

    /** The loop body of removeAccountInternal: one contact of the removed account, and its metacontact. */
    method TakeAway(c: Contact, mc: MetaContact, list: ContactList)
      requires list.Linked() && list.CoherentExcept({}) && list.State().Valid()
      requires c in list.people && c.metaContact == mc && !c.stray
      modifies c`stray, c`deleteScheduled, list`contacts, list`groups, list`selectedMetaContacts, list`selectedGroups
      modifies list.metas`contacts, list.metas`onlineStatus, list.metas`refreshed, list.metas`groups
      modifies list.metas`deleteScheduled, list.people`deleteTaskStarted
      ensures list.Linked() && list.CoherentExcept({})
      ensures list.State() == old(list.State()).TakeAway(Parting(c, mc))
      ensures c.stray && c.deleteScheduled
    {
      hide *;
      ParentExists(c, list);
      KnownThere(mc, list);
      ghost var s := list.State();
      Dismiss(c, mc, list);
      TakeAwayParts(s, Parting(c, mc), list.State());
      EmptyList(mc, list);
      ReapIfEmpty(mc, list);
    }

    lemma KnownThere(mc: MetaContact, list: ContactList)
      requires mc in list.metas
      ensures mc in list.State().lists && mc in list.State().places
    {
    }

    lemma EmptyList(mc: MetaContact, list: ContactList)
      requires mc in list.metas
      ensures list.State().lists[mc] == mc.contacts
    {
    }

    method ReapIfEmpty(mc: MetaContact, list: ContactList)
      requires list.Linked() && list.CoherentExcept({}) && list.State().Valid() && mc in list.metas
      modifies list`contacts, list`groups, list`selectedMetaContacts, list`selectedGroups
      modifies list.metas`groups, list.metas`deleteScheduled, list.people`deleteTaskStarted
      ensures list.Linked() && list.CoherentExcept({})
      ensures list.State() == if mc.contacts == [] then old(list.State()).Reap(mc) else old(list.State())
    {
      hide ContactList.Linked, ContactList.Woven, ContactList.CoherentExcept, Snapshot.Valid, Snapshot.Reap;
      if mc.contacts == [] {
        Reap(mc, list);
      }
    }

    /** The contact leaves its metacontact and is scheduled for deletion. */
    method Dismiss(c: Contact, mc: MetaContact, list: ContactList)
      requires list.Linked() && list.CoherentExcept({}) && c in list.people && c.metaContact == mc && !c.stray
      requires mc in list.metas
      modifies c`stray, c`deleteScheduled, mc`contacts, mc`onlineStatus, mc`refreshed
      ensures list.Linked() && list.CoherentExcept({}) && c.stray && c.deleteScheduled
      ensures list.State() == old(list.State()).Part(Parting(c, mc))
    {
      EmptyList(mc, list);
      hide ContactList.Linked, ContactList.CoherentExcept, ContactList.Woven, Without;
      list.Detach(c);
      c.deleteScheduled := true;
    }

    static lemma StateAt(mc: MetaContact, list: ContactList)
      requires list.Linked() && mc in list.metas
      ensures var s := list.State();
              && mc in s.lists && mc in s.places && s.places[mc].groups == mc.groups
              && s.listing.metaContacts == list.contacts && mc.contacts == s.lists[mc]
      ensures forall c | c in mc.contacts :: c in list.people
      ensures list.State().Knows(list.contacts)
    {
      list.HeldExist(mc);
    }

    /** An emptied metacontact goes, and its first group with it if it was the only member. */
    method Reap(mc: MetaContact, list: ContactList)
      requires list.Linked() && list.State().Valid() && mc in list.metas && mc.contacts == []
      modifies list`contacts, list`groups, list`selectedMetaContacts, list`selectedGroups
      modifies list.metas`groups, list.metas`deleteScheduled, list.people`deleteTaskStarted
      ensures list.Linked()
      ensures list.State() == old(list.State()).Reap(mc)
    {
      hide *;
      ghost var s := list.State();
      StateAt(mc, list);
      ReapParts(s, mc);
      var group := mc.groups[0];
      var groupMembers := list.Members(group);
      list.Delist(mc);
      if |groupMembers| == 1 && mc in groupMembers {
        list.SoundState();
        list.RemoveGroup(group);
      }
    }
  }
}
