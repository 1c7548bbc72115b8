/**
  Whole runs of the contact graph, from an empty contact list: any sequence of births, appointments,
  moves, merges, renamings, status reports, regroupings, destructions and removals keeps the link, the
  cache and the grouping invariants, until a step reads or leaves behind something that is gone; and it
  is said exactly which steps do.
 */
module ContactRuns {
  import opened Basics
  import opened Lists
  import opened OnlineStatuses
  import opened Placement
  import opened Rewiring
  import opened ContactGraph

  /**
    What can happen. Objects are named by their place in the order of their births. agreed is what the
    account answers when asked to be removed.
   */
  datatype Step =
    | NewMetaContact
    | NewAccount(offline: OnlineStatus)
    | NewContact(account: nat, contactId: string, parent: Option<nat>)
    | Appoint(account: nat, contact: nat)
    | Transfer(contact: nat, to: Option<nat>)
    | Unite(src: seq<nat>, dst: nat)
    | Rename(metaContact: nat, name: string)
    | Announce(contact: nat, status: OnlineStatus)
    | Regroup(metaContact: nat, op: Op)
    | Enlist(metaContact: nat)
    | DropGroup(group: Group)
    | Destroy(contact: nat)
    | RemoveAccount(account: nat, agreed: bool)
    | RemoveNext

  /**
    How a step ends. Crashed: a null or freed pointer has been followed. Broken: not yet, but one has been
    left for a later call to follow: a contact whose account is gone, an account whose own contact is
    gone, or an own contact that is registered as well, which its account will delete twice.
   */
  datatype Fate = Fine | Broken | Crashed

  /** No registered contact is a stray: one that has a metacontact is listed by it. */
  ghost predicate Tidy(list: ContactList)
    reads list`accounts, list.accounts`contacts, list`people, list.people`stray
  {
    NoStrays(list.accounts, list.people)
  }

  ghost predicate NoStrays(accounts: set<Account>, people: set<Contact>)
    reads accounts`contacts, people`stray
  {
    forall a, c | a in accounts && c in a.contacts.Values :: c in people && !c.stray
  }

  /** Every registered contact has a metacontact. */
  ghost predicate Housed(list: ContactList)
    reads list`accounts, list.accounts`contacts, list`people, list.people`metaContact
  {
    AllHoused(list.accounts, list.people)
  }

  ghost predicate AllHoused(accounts: set<Account>, people: set<Contact>)
    reads accounts`contacts, people`metaContact
  {
    forall a, c | a in accounts && c in a.contacts.Values :: c in people && c.metaContact != null
  }

  /** An account without contacts changes nothing of that. */
  lemma NewcomerKeeps(accounts: set<Account>, people: set<Contact>, a: Account)
    requires a.contacts == map[]
    ensures NoStrays(accounts, people) ==> NoStrays(accounts + {a}, people)
    ensures AllHoused(accounts, people) ==> AllHoused(accounts + {a}, people)
  {
  }

  /** While accounts keep their contacts and nobody is lost, both go on holding. */
  twostate lemma NobodyLostKeeps(list: ContactList)
    requires list.NobodyLost() && list.accounts == old(list.accounts)
    requires forall a | a in list.accounts :: a.contacts == old(a.contacts)
    ensures old(Tidy(list)) ==> Tidy(list)
    ensures old(Housed(list)) ==> Housed(list)
  {
  }

  twostate lemma NoNewStrays(list: ContactList)
    requires list.people == old(list.people) && list.accounts == old(list.accounts)
    requires forall a | a in list.accounts :: a.contacts == old(a.contacts)
    requires forall c | c in list.people && c.stray :: old(c.stray)
    ensures old(Tidy(list)) ==> Tidy(list)
  {
  }

  twostate lemma NoneLeftOut(list: ContactList)
    requires list.people == old(list.people) && list.accounts == old(list.accounts)
    requires forall a | a in list.accounts :: a.contacts == old(a.contacts)
    requires forall c | c in list.people && c.metaContact == null :: old(c.metaContact) == null
    ensures old(Housed(list)) ==> Housed(list)
  {
  }

  /** setMetaContact, which leaves everybody else where it was. */
  method DoTransfer(c: Contact, m: MetaContact?, list: ContactList)
    requires list.Linked() && list.CoherentExcept({}) && Tidy(list)
    requires c in list.people && (m != null ==> m in list.metas)
    modifies c`metaContact, c`stray, list`contacts, list`selectedMetaContacts, list`selectedGroups
    modifies list.metas`contacts, list.metas`onlineStatus, list.metas`refreshed, list.metas`deleteScheduled
    ensures list.Linked() && list.CoherentExcept({}) && Tidy(list) && c.metaContact == m
    ensures old(Housed(list)) && m != null ==> Housed(list)
    ensures old(c.metaContact) != m ==>
      Homes(list.Lists()) == if m == null then old(Homes(list.Lists())) - {c} else old(Homes(list.Lists())) + {c}
  {
    hide *;
    ghost var before, from := list.Lists(), c.metaContact;
    ListedByParent(c, list);
    EndsExist(c, m, list);
    c.SetMetaContact(m, list);
    NoNewStrays(list);
    if m != null {
      NoneLeftOut(list);
    }
    if from != m {
      Moved(before, from, m, c, list);
    }
  }

  lemma ListedByParent(c: Contact, list: ContactList)
    requires list.Linked() && c in list.people
    ensures list.Lists().Keys == list.metas
    ensures forall m | m in list.metas :: list.Lists()[m] == m.contacts
    ensures forall m | m in list.Lists() && c in list.Lists()[m] :: m == c.metaContact
    ensures c.metaContact != null ==> c.metaContact in list.metas
  {
    ParentExists(c, list);
    forall m | m in list.metas && c in m.contacts ensures m == c.metaContact {
      assert m.Holds(list.people);
    }
  }

  lemma Moved(before: map<MetaContact, seq<Contact>>, from: MetaContact?, to: MetaContact?, c: Contact,
              list: ContactList)
    requires before.Keys == list.metas && from != to && (to != null ==> to in list.metas)
    requires forall m | m in before && c in before[m] :: m == from
    requires forall m | m in before ::
      m.contacts == if m == from then Without(before[m], c) else if m == to then before[m] + [c] else before[m]
    ensures Homes(list.Lists()) == if to == null then Homes(before) - {c} else Homes(before) + {c}
  {
    var f: Option<MetaContact> := if from == null then None else Some(from);
    var t: Option<MetaContact> := if to == null then None else Some(to);
    MoveConserves(before, list.Lists(), f, t, c);
    hide Homes, Without;
  }

  method DoOpen(offline: OnlineStatus, list: ContactList) returns (a: Account)
    requires list.Linked() && list.CoherentExcept({}) && Tidy(list)
    modifies list`accounts
    ensures fresh(a) && list.accounts == old(list.accounts) + {a} && !a.deleted && a.offlineStatus == offline
    ensures list.Linked() && list.CoherentExcept({}) && Tidy(list) && (old(Housed(list)) ==> Housed(list))
  {
    hide ContactList.CoherentExcept, ContactList.Linked, ContactList.Woven, NoStrays, AllHoused;
    a := new Account(offline);
    NewcomerKeeps(list.accounts, list.people, a);
    list.Open(a);
  }

  method DoUnite(src: seq<MetaContact>, dst: MetaContact, list: ContactList)
    requires list.Linked() && list.CoherentExcept({}) && Tidy(list)
    requires dst in list.metas && forall m | m in src :: m in list.metas
    modifies list`contacts, list`selectedMetaContacts, list`selectedGroups
    modifies list.people`metaContact, list.people`stray
    modifies list.metas`contacts, list.metas`onlineStatus, list.metas`refreshed, list.metas`deleteScheduled
    ensures list.Linked() && list.CoherentExcept({}) && Tidy(list) && (old(Housed(list)) ==> Housed(list))
    ensures forall m | m in src && m != dst :: m.contacts == []
  {
    ghost var s := list.State();
    hide *;
    list.MergeMetaContacts(src, dst);
    Emptied(list, s, src, dst);
    NobodyLostKeeps(list);
  }

  lemma Emptied(list: ContactList, s: Snapshot<MetaContact, Contact>, src: seq<MetaContact>, dst: MetaContact)
    requires dst in s.lists && dst in list.metas && forall m | m in src :: m in s.lists && m in list.metas
    requires list.Lists() == s.MergeAll(src, dst).lists
    ensures forall m | m in src && m != dst :: m.contacts == []
  {
    forall m | m in src && m != dst ensures m.contacts == [] {
      MergeAllEmpties(s, src, dst, m);
      assert list.Lists()[m] == m.contacts;
    }
  }

  method DoRename(m: MetaContact, name: string, list: ContactList)
    requires list.Linked() && list.CoherentExcept({}) && Tidy(list) && m in list.metas
    modifies m`displayName, list`contacts, list`selectedMetaContacts, list`selectedGroups
    modifies list.people`metaContact, list.people`stray
    modifies list.metas`contacts, list.metas`onlineStatus, list.metas`refreshed, list.metas`deleteScheduled
    ensures list.Linked() && list.CoherentExcept({}) && Tidy(list) && (old(Housed(list)) ==> Housed(list))
    ensures m.displayName == name
  {
    hide *;
    m.SetDisplayName(name, list);
    NobodyLostKeeps(list);
  }

  method DoRegroup(m: MetaContact, op: Op, list: ContactList)
    requires list.Placed() && m in list.metas
    modifies m`groups, m`temporary
    ensures list.Placed() && m.Place() == Apply(old(m.Place()), op)
  {
    ApplyKeepsSound(m.Place(), op);
    match op
    case Add(to) => m.AddToGroup(to);
    case Remove(from) => m.RemoveFromGroup(from);
    case Move(from, to) => m.MoveToGroup(from, to);
    case Mark(t, g) => m.SetTemporary(t, g);
  }

  method DoAnnounce(c: Contact, status: OnlineStatus, list: ContactList)
    requires list.Linked() && list.CoherentExcept({}) && c in list.people
    modifies list.people`onlineStatus, list.metas`onlineStatus, list.metas`refreshed
    ensures list.Linked() && list.CoherentExcept({})
    ensures c.onlineStatus == if status.Same(old(c.onlineStatus)) then old(c.onlineStatus) else status
  {
    assert c.Anchored(list.metas, list.accounts);
    assert c.account.Wired(list.people);
    c.SetOnlineStatus(status, list, {});
  }

  /** A contact is born: registered and listed, or without a metacontact, or a stray nobody registered. */
  method DoCreate(account: Account, contactId: string, parent: MetaContact?, list: ContactList) returns (c: Contact)
    requires list.Linked() && list.CoherentExcept({}) && Tidy(list)
    requires account in list.accounts && (parent != null ==> parent in list.metas)
    modifies account`contacts, account`listeners, list`people
    modifies list.metas`contacts, list.metas`onlineStatus, list.metas`refreshed
    ensures list.Linked() && list.CoherentExcept({}) && Tidy(list)
    ensures fresh(c) && list.people == old(list.people) + {c}
    ensures c.account == account && c.metaContact == parent && c.contactId == contactId
    ensures old(Housed(list)) && (parent != null || contactId in old(account.contacts)) ==> Housed(list)
    ensures account.contacts == if parent == list.myself || contactId in old(account.contacts)
            then old(account.contacts) else old(account.contacts)[contactId := c]
    ensures account.listeners == old(account.listeners) + [c]
  {
    hide *;
    ghost var known := contactId in account.contacts;
    c := new Contact(account, contactId, parent, list);
    BornTidy(list, Some(c));
    if parent != null || known {
      BornHoused(list, Some(c));
    }
  }

  twostate lemma BornTidy(list: ContactList, new born: Option<Contact>)
    requires born.Some? && list.accounts == old(list.accounts) && list.people == old(list.people) + {born.value}
    requires forall a, k | a in list.accounts && k in a.contacts ::
      || (k in old(a.contacts) && a.contacts[k] == old(a.contacts[k]))
      || (a.contacts[k] == born.value && !born.value.stray)
    requires forall c | c in old(list.people) :: c.stray == old(c.stray)
    ensures old(Tidy(list)) ==> Tidy(list)
  {
  }

  twostate lemma BornHoused(list: ContactList, new born: Option<Contact>)
    requires born.Some? && list.accounts == old(list.accounts) && list.people == old(list.people) + {born.value}
    requires forall a, k | a in list.accounts && k in a.contacts ::
      || (k in old(a.contacts) && a.contacts[k] == old(a.contacts[k]))
      || (a.contacts[k] == born.value && born.value.metaContact != null)
    requires forall c | c in old(list.people) :: c.metaContact == old(c.metaContact)
    ensures old(Housed(list)) ==> Housed(list)
  {
  }

  /** A contact that has let go of its metacontact matters to the removal of an account if it is registered. */
  twostate lemma LeftOut(list: ContactList, new c: Option<Contact>)
    requires c.Some? && c.value.metaContact == null
    requires list.people == old(list.people) && list.accounts == old(list.accounts) && c.value.account in list.accounts
    requires forall a | a in list.accounts :: a.contacts == old(a.contacts)
    requires forall x | x in list.people && x != c.value :: x.metaContact == old(x.metaContact)
    requires forall a, k | a in list.accounts && k in a.contacts && a.contacts[k] == c.value :: a == c.value.account
    ensures old(Housed(list)) ==> (Housed(list) <==> c.value !in c.value.account.contacts.Values)
  {
  }

  /** ~Contact: all is well afterwards exactly if the contact is not its account's own. */
  method DoDestroy(c: Contact, list: ContactList)
    requires list.Linked() && list.CoherentExcept({}) && Tidy(list) && c in list.people
    modifies c.account`contacts, c.account`listeners, list`people, c`deleteScheduled
    modifies list.metas`contacts, list.metas`onlineStatus, list.metas`refreshed
    ensures list.Linked() <==> c != c.account.myself
    ensures list.Linked() ==> list.CoherentExcept({}) && Tidy(list) && (old(Housed(list)) ==> Housed(list))
    ensures list.people == old(list.people) - {c} && c.deleteScheduled
    ensures c != c.account.myself && old(c.account.AllKnown()) ==> c.account.AllKnown()
  {
    EndsExist(c, null, list);
    assert c.Anchored(list.metas, list.accounts);
    assert c.account.Wired(list.people);
    OnlyItsAccount(c, list);
    ghost var contacts, listeners := c.account.contacts, c.account.listeners;
    c.Destroy(list);
    KnownWithout(contacts, c.account.contacts, listeners, c, c.account.myself);
    hide ContactList.CoherentExcept, ContactList.Linked, ContactList.Woven, Without;
  }

  lemma KnownWithout(before: map<string, Contact>, after: map<string, Contact>, listeners: seq<Contact>, c: Contact,
                     own: Contact?)
    requires after ==
      if c.contactId in before && before[c.contactId] == c then before - {c.contactId} else before
    ensures (forall x | x in listeners :: x in before.Values || x == own) ==>
      forall x | x in Without(listeners, c) :: x in after.Values || x == own
  {
    forall k | k in before && before[k] != c ensures before[k] in after.Values {
      assert k in after && after[k] == before[k];
    }
  }

  /** A contact is registered with its own account or not at all, under its own id. */
  lemma OnlyItsAccount(c: Contact, list: ContactList)
    requires list.Linked() && c in list.people
    ensures c.account in list.accounts
    ensures forall a, k | a in list.accounts && k in a.contacts && a.contacts[k] == c ::
      a == c.account && k == c.contactId
  {
    assert c.Anchored(list.metas, list.accounts);
    forall a | a in list.accounts
      ensures forall k | k in a.contacts && a.contacts[k] == c :: a == c.account && k == c.contactId
    {
      assert a.Wired(list.people);
    }
  }

  /** The accounts in existence are not deleted; one that is queued may be. */
  ghost predicate Alive(list: ContactList, manager: AccountManager)
    reads list`accounts, list.accounts`deleted
    reads manager`accountsToBeRemoved, manager.accountsToBeRemoved`deleted
  {
    && (forall a | a in list.accounts :: !a.deleted)
    && (forall a | a in manager.accountsToBeRemoved :: a in list.accounts || a.deleted)
  }

  /** The invariants of the graph. */
  ghost predicate Intact(list: ContactList, manager: AccountManager)
    reads list, list.metas, list.people, list.accounts
    reads manager`accountsToBeRemoved, manager.accountsToBeRemoved`deleted
  {
    list.Linked() && list.CoherentExcept({}) && list.Placed() && Tidy(list) && Alive(list, manager)
  }

  lemma IntactMeans(list: ContactList, manager: AccountManager)
    requires Intact(list, manager)
    ensures list.Linked() && list.CoherentExcept({}) && list.Placed() && Tidy(list) && Alive(list, manager)
  {
  }

  /** What the fate of removeAccountInternal depends on, and what it starts from. */
  datatype Prior = Prior(
    people: set<Contact>,
    accounts: set<Account>,
    queue: seq<Account>,
    leaver: Option<Account>,
    dying: set<Contact>,
    /** The account has been deleted already, or one of its contacts has no metacontact. */
    crashes: bool,
    /** There is no account to remove, or it leaves no contact behind. */
    whole: bool,
    housed: bool)

  ghost function Before(list: ContactList, manager: AccountManager): Prior
    reads list`people, list`accounts, list.accounts`contacts, list.people`metaContact
    reads manager`accountsToBeRemoved, manager.accountsToBeRemoved`deleted, manager.accountsToBeRemoved`myself
    reads manager.accountsToBeRemoved`contacts, manager.accountsToBeRemoved`listeners
    reads (set a: Account | a in manager.accountsToBeRemoved && a.myself != null :: a.myself)`onlineStatus
    reads manager.Victims()`metaContact
  {
    Prior(list.people, list.accounts, manager.accountsToBeRemoved, Leaver(manager), manager.Perishing(),
          manager.HeadGone() || AccountManager.Homeless(manager.Victims()),
          Leaver(manager).None? || Leaver(manager).value.AllKnown(), Housed(list))
  }

  /** What removeAccountInternal leaves. */
  ghost predicate After(list: ContactList, manager: AccountManager, p: Prior, crashed: bool)
    reads list, list.metas, list.people, list.accounts, p.dying
    reads manager`accountsToBeRemoved, manager.accountsToBeRemoved`deleted
    reads (if p.leaver.Some? then {p.leaver.value} else {})`deleted
  {
    && manager.accountsToBeRemoved == (if p.queue == [] then [] else p.queue[1..])
    && (crashed <==> p.crashes)
    && (!crashed ==> (list.Linked() <==> p.whole) && Gone(list, p.people, p.accounts, p.leaver, p.dying))
    && (!crashed && list.Linked() ==>
          list.CoherentExcept({}) && list.Placed() && Tidy(list) && Alive(list, manager) && (p.housed ==> Housed(list)))
  }

  /**
    removeAccountInternal: it crashes exactly when the account has been deleted already or a contact to
    take away has no metacontact; otherwise all is well afterwards exactly if no contact is left behind.
   */
  method DoRemoveNext(list: ContactList, manager: AccountManager) returns (crashed: bool)
    requires Intact(list, manager)
    modifies manager`accounts, manager`accountsToBeRemoved
    modifies manager.Leaving()`contacts, manager.Leaving()`deleted
    modifies manager.Victims()`stray, manager.Perishing()`deleteScheduled
    modifies list`contacts, list`groups, list`selectedMetaContacts, list`selectedGroups
    modifies list`people, list`accounts, list.people`deleteTaskStarted
    modifies list.metas`contacts, list.metas`onlineStatus, list.metas`refreshed, list.metas`groups
    modifies list.metas`deleteScheduled
    ensures After(list, manager, old(Before(list, manager)), crashed)
  {
    ghost var p, others := Before(list, manager), Others(list, Leaver(manager));
    IntactMeans(list, manager);
    VictimsAreIts(list, manager);
    OthersAreSafe(list, manager);
    StartsAlive(list, manager, p);
    hide *;
    crashed := RemoveAndSpare(list, manager, p, others);
    EndsAlive(list, manager, p, others, crashed);
  }

  lemma StartsAlive(list: ContactList, manager: AccountManager, p: Prior)
    requires Alive(list, manager) && p == Before(list, manager)
    ensures p.leaver == Leaver(manager)
    ensures forall a | a in p.accounts && p.leaver != Some(a) :: !a.deleted && a !in manager.Leaving()
    ensures forall a | a in p.queue && a !in manager.Leaving() :: a in p.accounts || a.deleted
    ensures p.housed == Housed(list)
  {
  }

  lemma EndsAlive(list: ContactList, manager: AccountManager, p: Prior, others: set<Contact>, crashed: bool)
    requires Left(list, manager, p, others, crashed)
    requires forall a | a in p.accounts && p.leaver != Some(a) :: !a.deleted
    requires forall a | a in p.queue && p.leaver != Some(a) :: a in p.accounts || a.deleted
    requires p.housed ==> forall c | c in others :: c.metaContact != null
    ensures After(list, manager, p, crashed)
  {
    if !crashed {
      OthersAreAll(list, others);
    }
    hide ContactList.Linked, ContactList.CoherentExcept, ContactList.Placed, ContactList.Woven, Tidy, Housed, Spared;
  }

  /** The account that removeAccountInternal is about to remove. */
  ghost function Leaver(manager: AccountManager): Option<Account>
    reads manager`accountsToBeRemoved, manager.accountsToBeRemoved`myself, manager.accountsToBeRemoved`deleted
    reads (set a: Account | a in manager.accountsToBeRemoved && a.myself != null :: a.myself)`onlineStatus
  {
    if manager.Next() == null then None else Some(manager.Next())
  }

  /** It, if there is one, and those that die with it do not exist any more. */
  ghost predicate Gone(list: ContactList, people: set<Contact>, accounts: set<Account>, leaver: Option<Account>,
                       dying: set<Contact>)
    reads list`people, list`accounts, dying`deleteScheduled, (if leaver.Some? then {leaver.value} else {})`deleted
  {
    && list.people == people - dying
    && list.accounts == accounts - (if leaver.Some? then {leaver.value} else {})
    && (leaver.Some? ==> leaver.value.deleted)
    && forall c | c in dying :: c.deleteScheduled
  }

  /** After, before it is said what that means for the other accounts. */
  ghost predicate Left(list: ContactList, manager: AccountManager, p: Prior, others: set<Contact>, crashed: bool)
    reads list, list.metas, list.people, list.accounts, p.dying, others, manager`accountsToBeRemoved
    reads (if p.leaver.Some? then {p.leaver.value} else {})`deleted
  {
    && manager.accountsToBeRemoved == (if p.queue == [] then [] else p.queue[1..])
    && (crashed <==> p.crashes)
    && (!crashed ==>
          && (list.Linked() <==> p.whole) && Gone(list, p.people, p.accounts, p.leaver, p.dying)
          && Spared(list, None, others))
    && (!crashed && list.Linked() ==> list.CoherentExcept({}) && list.Placed())
  }

  /** The removal spares the contacts of the other accounts. */
  method RemoveAndSpare(list: ContactList, manager: AccountManager, ghost p: Prior, ghost others: set<Contact>)
    returns (crashed: bool)
    requires p == Before(list, manager) && list.Linked() && list.CoherentExcept({}) && list.Placed()
    requires p.leaver.Some? ==> AccountManager.Removable(p.leaver.value, list)
    requires Spared(list, p.leaver, others) && forall c | c in others :: c !in p.dying
    modifies manager`accounts, manager`accountsToBeRemoved
    modifies manager.Leaving()`contacts, manager.Leaving()`deleted
    modifies manager.Victims()`stray, manager.Perishing()`deleteScheduled
    modifies list`contacts, list`groups, list`selectedMetaContacts, list`selectedGroups
    modifies list`people, list`accounts, list.people`deleteTaskStarted
    modifies list.metas`contacts, list.metas`onlineStatus, list.metas`refreshed, list.metas`groups
    modifies list.metas`deleteScheduled
    ensures Left(list, manager, p, others, crashed)
  {
    hide *;
    NextIs(list, manager, p);
    SparedFrom(list, manager, p, others);
    crashed := RemoveOne(list, manager, p);
    IsLeft(list, manager, p, others, crashed);
  }

  lemma SparedFrom(list: ContactList, manager: AccountManager, p: Prior, others: set<Contact>)
    requires p == Before(list, manager) && Spared(list, p.leaver, others) && forall c | c in others :: c !in p.dying
    ensures forall a | a in p.accounts && p.leaver != Some(a) :: a.contacts.Values <= others && a !in manager.Leaving()
    ensures forall c | c in others :: c in p.people && !c.stray && c !in manager.Victims()
    ensures forall a | a in manager.Leaving() :: p.leaver == Some(a)
  {
    NextIs(list, manager, p);
  }

  /** Left, but for the contacts of the other accounts. */
  ghost predicate Core(list: ContactList, manager: AccountManager, p: Prior, crashed: bool)
    reads list, list.metas, list.people, list.accounts, p.dying, manager`accountsToBeRemoved
    reads (if p.leaver.Some? then {p.leaver.value} else {})`deleted
  {
    && manager.accountsToBeRemoved == (if p.queue == [] then [] else p.queue[1..])
    && (crashed <==> p.crashes)
    && (!crashed ==> (list.Linked() <==> p.whole) && Gone(list, p.people, p.accounts, p.leaver, p.dying))
    && (!crashed && list.Linked() ==> list.CoherentExcept({}) && list.Placed())
  }

  method RemoveOne(list: ContactList, manager: AccountManager, ghost p: Prior) returns (crashed: bool)
    requires p == Before(list, manager) && list.Linked() && list.CoherentExcept({}) && list.Placed()
    requires p.leaver.Some? ==> AccountManager.Removable(p.leaver.value, list)
    modifies manager`accounts, manager`accountsToBeRemoved
    modifies manager.Leaving()`contacts, manager.Leaving()`deleted
    modifies manager.Victims()`stray, manager.Perishing()`deleteScheduled
    modifies list`contacts, list`groups, list`selectedMetaContacts, list`selectedGroups
    modifies list`people, list`accounts, list.people`deleteTaskStarted
    modifies list.metas`contacts, list.metas`onlineStatus, list.metas`refreshed, list.metas`groups
    modifies list.metas`deleteScheduled
    ensures Core(list, manager, p, crashed)
  {
    ghost var was: Option<Outset> := if p.leaver.Some? then Some(manager.Start(p.leaver.value, list)) else None;
    NextIs(list, manager, p);
    hide *;
    ghost var partings;
    crashed, partings := manager.RemoveAccountInternal(list);
    if crashed {
      CrashedCore(list, manager, p);
    } else if p.leaver.Some? {
      GoneMeans(list, manager, p.leaver.value, was.value, partings);
      IsCore(list, manager, p);
    } else {
      NothingGone(list, p);
      IsCore(list, manager, p);
    }
  }

  lemma CrashedCore(list: ContactList, manager: AccountManager, p: Prior)
    requires p.crashes && manager.accountsToBeRemoved == (if p.queue == [] then [] else p.queue[1..])
    ensures Core(list, manager, p, true)
  {
  }

  lemma IsCore(list: ContactList, manager: AccountManager, p: Prior)
    requires !p.crashes && manager.accountsToBeRemoved == (if p.queue == [] then [] else p.queue[1..])
    requires list.Linked() <==> p.whole
    requires list.Linked() ==> list.CoherentExcept({}) && list.Placed()
    requires Gone(list, p.people, p.accounts, p.leaver, p.dying)
    ensures Core(list, manager, p, false)
  {
  }

  lemma NothingGone(list: ContactList, p: Prior)
    requires p.leaver.None? && p.dying == {} && list.people == p.people && list.accounts == p.accounts
    ensures Gone(list, p.people, p.accounts, p.leaver, p.dying)
  {
  }

  lemma IsLeft(list: ContactList, manager: AccountManager, p: Prior, others: set<Contact>, crashed: bool)
    requires Core(list, manager, p, crashed)
    requires forall a | a in p.accounts && p.leaver != Some(a) :: a.contacts.Values <= others
    requires forall c | c in others :: c in p.people && c !in p.dying && !c.stray
    ensures Left(list, manager, p, others, crashed)
  {
    hide ContactList.Linked, ContactList.CoherentExcept, ContactList.Placed, ContactList.Woven;
  }

  lemma NextIs(list: ContactList, manager: AccountManager, p: Prior)
    requires p == Before(list, manager)
    ensures p.people == list.people && p.accounts == list.accounts && p.queue == manager.accountsToBeRemoved
    ensures p.crashes <==> manager.HeadGone() || AccountManager.Homeless(manager.Victims())
    ensures manager.Next() == null <==> p.leaver.None?
    ensures p.leaver.None? ==>
      && manager.Perishing() == p.dying == {} && manager.Victims() == {} && manager.Leaving() == {} && p.whole
    ensures p.leaver.Some? ==>
      var next, was := p.leaver.value, manager.Start(p.leaver.value, list);
      && manager.Next() == next && manager.Leaving() == {next}
      && manager.Perishing() == next.Dying() == p.dying && manager.Victims() == next.contacts.Values <= p.dying
      && was.people == p.people && was.existing == p.accounts && was.Dying() == p.dying && (was.Known() <==> p.whole)
  {
  }

  lemma GoneMeans(list: ContactList, manager: AccountManager, account: Account, was: Outset,
                  partings: seq<Parting<MetaContact, Contact>>)
    requires manager.Gone(account, list, was, partings)
    ensures Gone(list, was.people, was.existing, Some(account), was.Dying())
    ensures list.Linked() <==> was.Known()
    ensures list.Linked() ==> list.CoherentExcept({}) && list.Placed()
  {
  }

  /** The contacts of the accounts other than next are among these, exist and are no strays. */
  ghost predicate Spared(list: ContactList, next: Option<Account>, others: set<Contact>)
    reads list`accounts, list.accounts`contacts, list`people, others`stray
  {
    && (forall a | a in list.accounts && next != Some(a) :: a.contacts.Values <= others)
    && (forall c | c in others :: c in list.people && !c.stray)
  }

  /** The contacts registered with accounts other than next. */
  ghost function Others(list: ContactList, next: Option<Account>): set<Contact>
    reads list`accounts, list.accounts`contacts
  {
    set a, c | a in list.accounts && next != Some(a) && c in a.contacts.Values :: c
  }

  lemma OthersAreAll(list: ContactList, others: set<Contact>)
    requires Spared(list, None, others)
    ensures Tidy(list)
    ensures (forall c | c in others :: c.metaContact != null) ==> Housed(list)
  {
  }

  /** They do not die; and an account to be removed can be. */
  lemma OthersAreSafe(list: ContactList, manager: AccountManager)
    requires list.Linked() && list.CoherentExcept({}) && list.Placed() && Tidy(list) && Alive(list, manager)
    ensures var next := Leaver(manager);
            && (next.Some? ==> AccountManager.Removable(next.value, list))
            && Spared(list, next, Others(list, next))
            && (forall c | c in Others(list, next) :: c !in manager.Perishing())
            && (Housed(list) ==> !AccountManager.Homeless(manager.Victims()))
            && (Housed(list) ==> forall c | c in Others(list, next) :: c.metaContact != null)
  {
    VictimsAreIts(list, manager);
  }

  /** Those that die with an account were built for it. */
  lemma VictimsAreIts(list: ContactList, manager: AccountManager)
    requires list.Linked() && Alive(list, manager)
    ensures manager.Leaving() <= list.accounts && manager.Victims() <= manager.Perishing() <= list.people
    ensures forall a, c | a in list.accounts && c in a.contacts.Values && c in manager.Perishing() ::
      a in manager.Leaving()
    ensures forall c | c in manager.Victims() :: exists a :: a in list.accounts && c in a.contacts.Values
  {
    forall a | a in list.accounts
      ensures a.myself != null ==> a.myself in list.people && a.myself.account == a
      ensures forall c | c in a.contacts.Values :: c in list.people && c.account == a
    {
      assert a.Wired(list.people);
    }
  }

  /** What a contact is to be born to. */
  datatype Request = Request(account: Account, contactId: string, parent: MetaContact?)

  ghost predicate AllFit(fits: seq<bool>) {
    forall i | 0 <= i < |fits| :: fits[i]
  }

  /** Of the steps so far, only appointments have not fitted. */
  ghost predicate NoOthers(steps: seq<Step>, fits: seq<bool>) {
    forall i | 0 <= i < |fits| && i < |steps| && !steps[i].Appoint? :: fits[i]
  }

  function Pick<T>(s: seq<T>, places: seq<nat>): (r: seq<T>)
    requires forall i | 0 <= i < |places| :: places[i] < |s|
    ensures |r| == |places| && forall i | 0 <= i < |r| :: r[i] == s[places[i]]
    ensures forall x | x in r :: x in s
  {
    seq(|places|, i requires 0 <= i < |places| => s[places[i]])
  }

  /** Everything there is, with the objects in the order of their births. */
  class World {
    const list: ContactList
    const manager: AccountManager
    var metas: seq<MetaContact>
    var accounts: seq<Account>
    var people: seq<Contact>

    ghost predicate Good()
      reads this, list, list.metas, list.people, list.accounts, manager
      reads manager.accountsToBeRemoved`deleted, accounts`deleted, people`deleteScheduled
    {
      Sane() && Named()
    }

    ghost predicate Sane()
      reads list, list.metas, list.people, list.accounts, manager`accountsToBeRemoved
      reads manager.accountsToBeRemoved`deleted
    {
      Intact(list, manager)
    }

    /** What can be named exists, or can be seen to exist no more. */
    ghost predicate Named()
      reads this, list`metas, list`accounts, list`people, accounts`deleted, people`deleteScheduled
    {
      && (forall m | m in metas :: m in list.metas)
      && (forall a | a in accounts :: a in list.accounts || a.deleted)
      && (forall c | c in people :: c in list.people || c.deleteScheduled)
    }

    /**
      Nothing lies in wait for the removal of an account: every registered contact has a metacontact, no
      account is being removed twice, and none that is being removed would leave a contact behind.
     */
    ghost predicate Safe()
      reads list`accounts, list.accounts`contacts, list.accounts`listeners, list.accounts`myself
      reads list`people, list.people`metaContact, manager`accountsToBeRemoved, manager`awaited
    {
      Housed(list) && manager.Orderly(list.accounts)
    }

    /** The user's metacontact, an empty contact list and no accounts. */
    constructor ()
      ensures Good() && Safe() && list.overtaken == {}
      ensures fresh(list) && fresh(manager) && fresh(list.metas)
      ensures list.people == {} && list.accounts == {} && metas == [list.myself]
    {
      var user := new MetaContact();
      assert Sound(FRESH);
      list := new ContactList(user);
      manager := new AccountManager();
      metas := [user];
      accounts := [];
      people := [];
    }

    /** A contact that has not been deleted. */
    predicate Usable(c: nat)
      reads this, people
    {
      c < |people| && !people[c].deleteScheduled
    }

    predicate Present(m: nat)
      reads this, metas
    {
      m < |metas| && !metas[m].deleteScheduled
    }

    predicate Open(a: nat)
      reads this, accounts
    {
      a < |accounts| && !accounts[a].deleted
    }

    predicate BeingRemoved(a: Account)
      reads manager`accountsToBeRemoved, manager`awaited
    {
      a in manager.accountsToBeRemoved || a in manager.awaited
    }

    /**
      What a caller can check before a step, so that no removal of an account ever goes wrong: no
      registered contact is left without a metacontact, no account is removed while it is being removed or
      has contacts besides the registered ones and its own, none such is added to one being removed, no own
      contact is deleted by itself, and no registered contact becomes an own one.
     */
    predicate Heedful(step: Step)
      reads this, manager, metas, accounts, people, (set c | c in people :: c.account)`myself
      reads (set c | c in people :: c.account)`contacts
      reads (set a: Account | a in accounts && a.myself != null :: a.myself)`onlineStatus
    {
      match step
      case NewContact(a, id, parent) =>
        Open(a) && (parent == None || Present(parent.value)) ==>
          Harmless(accounts[a], id, if parent == None then null else metas[parent.value])
      case Appoint(a, c) => Open(a) && Usable(c) ==> !Doubles(accounts[a], people[c])
      case Transfer(c, to) => Usable(c) && to == None ==> people[c] !in people[c].account.contacts.Values
      case Destroy(c) => Usable(c) ==> people[c] != people[c].account.myself
      case RemoveAccount(a, agreed) => Open(a) && agreed ==> Removable(accounts[a])
      case _ => true
    }

    /** An account that will leave nobody behind, and is not queued for removal, nor waited for if it would be now. */
    predicate Removable(a: Account)
      reads manager`accountsToBeRemoved, manager`awaited, a`contacts, a`listeners, a`myself
      reads (if a.myself == null then {} else {a.myself})`onlineStatus
    {
      a !in manager.accountsToBeRemoved && (!a.IsConnected() ==> a !in manager.awaited) && a.AllKnown()
    }

    /** How a step ends. */
    ghost function Outcome(step: Step): Fate
      reads this, manager, accounts, people, (set c | c in people :: c.account)`myself
      reads manager.accountsToBeRemoved
      reads (set a: Account | a in manager.accountsToBeRemoved && a.myself != null :: a.myself)`onlineStatus
      reads manager.Victims()`metaContact
    {
      match step
      case Appoint(a, c) => if Open(a) && Usable(c) && Doubles(accounts[a], people[c]) then Broken else Fine
      case Destroy(c) => if Usable(c) && people[c] == people[c].account.myself then Broken else Fine
      case RemoveNext =>
        if manager.HeadGone() || AccountManager.Homeless(manager.Victims()) then Crashed
        else if Leaver(manager).Some? && !Leaver(manager).value.AllKnown() then Broken
        else Fine
      case _ => Fine
    }

    predicate Doubles(account: Account, c: Contact)
      reads account`myself, account`contacts
    {
      account.myself == null && c.account == account && c in account.contacts.Values
    }

    /** setMyself is called once, with an unregistered contact of the account. */
    predicate MayAppoint(account: Account, c: Contact)
      reads account`myself, account`contacts
    {
      account.myself == null && c.account == account && c !in account.contacts.Values
    }

    /** Whether a step leaves every cache as right as it was: all do but some appointments. */
    ghost predicate Fitting(step: Step)
      requires list.Woven()
      reads this, accounts, people, list, list.metas, list.people, list.accounts
    {
      step.Appoint? && Open(step.account) && Usable(step.contact)
      && MayAppoint(accounts[step.account], people[step.contact])
      ==> accounts[step.account].Fits(people[step.contact], list)
    }

    /** What exists now existed before or is new. */
    twostate predicate Grown()
      reads list
    {
      && fresh(list.metas - old(list.metas)) && fresh(list.people - old(list.people))
      && fresh(list.accounts - old(list.accounts))
    }

    /** What a step does, to what it names if that is there and has not been deleted. */
    twostate predicate Done(step: Step)
      reads this, manager, list, metas, accounts, people
    {
      match step
      case NewMetaContact => |metas| == old(|metas|) + 1 && fresh(metas[old(|metas|)])
      case NewAccount(offline) =>
        var n := old(|accounts|);
        |accounts| == n + 1 && fresh(accounts[n]) && accounts[n].offlineStatus == offline
      case NewContact(a, id, parent) =>
        old(a < |accounts| && !accounts[a].deleted
            && (parent == None || (parent.value < |metas| && !metas[parent.value].deleteScheduled))) ==>
          && |people| == old(|people|) + 1
          && var c := people[old(|people|)];
             && fresh(c) && c.account == old(accounts)[a] && c.contactId == id
             && c.metaContact == if parent == None then null else old(metas)[parent.value]
      case Appoint(a, c) =>
        old(a < |accounts| && !accounts[a].deleted && c < |people| && !people[c].deleteScheduled
            && accounts[a].myself == null && people[c].account == accounts[a]
            && people[c] !in accounts[a].contacts.Values) ==>
          NamesKept() && accounts[a].myself == people[c]
      case Transfer(c, to) =>
        old(c < |people| && !people[c].deleteScheduled
            && (to == None || (to.value < |metas| && !metas[to.value].deleteScheduled))) ==>
          NamesKept() && people[c].metaContact == if to == None then null else metas[to.value]
      case Unite(src, dst) =>
        old(dst < |metas| && !metas[dst].deleteScheduled
            && forall i | 0 <= i < |src| :: src[i] < |metas| && !metas[src[i]].deleteScheduled) ==>
          NamesKept() && forall i | 0 <= i < |src| :: metas[src[i]] == metas[dst] || metas[src[i]].contacts == []
      case Rename(m, name) =>
        old(m < |metas| && !metas[m].deleteScheduled) ==> NamesKept() && metas[m].displayName == name
      case Announce(c, status) =>
        old(c < |people| && !people[c].deleteScheduled) ==>
          && NamesKept()
          && var before := old(people[c].onlineStatus);
             people[c].onlineStatus == if status.Same(before) then before else status
      case Regroup(m, op) =>
        old(m < |metas| && !metas[m].deleteScheduled) ==>
          NamesKept() && metas[m].Place() == Apply(old(metas[m].Place()), op)
      case Enlist(m) => old(m < |metas| && !metas[m].deleteScheduled) ==> NamesKept() && metas[m] in list.contacts
      case DropGroup(g) => g != TopLevel ==> g !in list.groups
      case Destroy(c) => old(c < |people| && !people[c].deleteScheduled) ==> NamesKept() && people[c] !in list.people
      case RemoveAccount(a, agreed) =>
        old(a < |accounts| && !accounts[a].deleted) && agreed ==>
          old(accounts)[a] in manager.accountsToBeRemoved || old(accounts)[a] in manager.awaited
      case RemoveNext =>
        var queue := old(manager.accountsToBeRemoved);
        && manager.accountsToBeRemoved == (if queue == [] then [] else queue[1..])
        && (queue != [] && old(!queue[0].IsConnected()) ==> queue[0] !in list.accounts)
    }

    twostate predicate NamesKept()
      reads this
    {
      metas == old(metas) && accounts == old(accounts) && people == old(people)
    }

    method NewMetaContact()
      requires Good()
      modifies this`metas, list`metas
      ensures Good() && Grown() && (old(Safe()) ==> Safe()) && Done(Step.NewMetaContact)
    {
      FreshIsSound();
      hide ContactList.CoherentExcept, ContactList.Linked, ContactList.Woven, ContactList.Placed, Tidy, Safe, Sound;
      hide Named, Alive;
      var m := new MetaContact();
      list.Adopt(m);
      Name(m);
    }

    method Name(m: MetaContact)
      requires m in list.metas && forall x | x in metas :: x in list.metas
      requires forall a | a in accounts :: a in list.accounts || a.deleted
      requires forall c | c in people :: c in list.people || c.deleteScheduled
      modifies this`metas
      ensures Named() && metas == old(metas) + [m]
    {
      metas := metas + [m];
    }

    lemma FreshIsSound()
      ensures Sound(FRESH)
      ensures Named() ==> forall x | x in metas :: x in list.metas
      ensures Named() ==> forall a | a in accounts :: a in list.accounts || a.deleted
      ensures Named() ==> forall c | c in people :: c in list.people || c.deleteScheduled
    {
    }

    method NewAccount(offline: OnlineStatus)
      requires Good()
      modifies this`accounts, list`accounts, manager`accounts
      ensures Good() && Grown() && (old(Safe()) ==> Safe()) && Done(Step.NewAccount(offline))
    {
      FreshIsSound();
      hide ContactList.CoherentExcept, ContactList.Linked, ContactList.Woven, ContactList.Placed, Tidy, Housed, Named;
      hide Alive, AccountManager.Orderly;
      var a := DoOpen(offline, list);
      MoreAlive();
      OrderlyKept(None);
      EnrolAccount(a);
    }

    method EnrolAccount(a: Account)
      requires a in list.accounts && forall x | x in metas :: x in list.metas
      requires forall x | x in accounts :: x in list.accounts || x.deleted
      requires forall c | c in people :: c in list.people || c.deleteScheduled
      modifies this`accounts, manager`accounts
      ensures Named() && accounts == old(accounts) + [a]
    {
      manager.RegisterAccount(a);
      accounts := accounts + [a];
    }

    /** Accounts stay alive, and new ones are. */
    twostate lemma MoreAlive()
      requires manager.accountsToBeRemoved == old(manager.accountsToBeRemoved)
      requires old(list.accounts) <= list.accounts
      requires forall a | a in old(list.accounts) || a in manager.accountsToBeRemoved :: a.deleted == old(a.deleted)
      requires forall a | a in list.accounts && a !in old(list.accounts) :: !a.deleted
      ensures old(Alive(list, manager)) ==> Alive(list, manager)
    {
    }

    /** The queue stays in order while none but one account changes, and that one is as it should be. */
    twostate lemma OrderlyKept(one: Option<Account>)
      requires manager.accountsToBeRemoved == old(manager.accountsToBeRemoved)
      requires manager.awaited == old(manager.awaited)
      requires old(list.accounts) <= list.accounts
      requires forall a | a in old(list.accounts) && one != Some(a) ::
        a.contacts == old(a.contacts) && a.listeners == old(a.listeners) && a.myself == old(a.myself)
      requires one.Some? && BeingRemoved(one.value) && old(one.value.AllKnown()) ==> one.value.AllKnown()
      ensures old(manager.Orderly(list.accounts)) ==> manager.Orderly(list.accounts)
    {
    }

    method NewContact(account: Account, contactId: string, parent: MetaContact?)
      requires Good() && account in list.accounts && (parent != null ==> parent in list.metas)
      modifies this`people, account`contacts, account`listeners, list`people
      modifies list.metas`contacts, list.metas`onlineStatus, list.metas`refreshed
      ensures Good() && Grown() && |people| == old(|people|) + 1
      ensures var c := people[old(|people|)];
              fresh(c) && c.account == account && c.contactId == contactId && c.metaContact == parent
      ensures old(Safe()) ==> (Safe() <==> old(Harmless(account, contactId, parent)))
    {
      FreshIsSound();
      hide Good, Safe, Named, Sane, Harmless;
      GoodIsSane();
      WiredIn(account);
      hide Account.Wired;
      var c := CreateContact(account, contactId, parent);
      StillSafe(Request(account, contactId, parent), Some(c));
      NameContact(c);
      SaneIsGood();
    }

    method CreateContact(account: Account, contactId: string, parent: MetaContact?) returns (c: Contact)
      requires Sane() && account in list.accounts && (parent != null ==> parent in list.metas)
      modifies account`contacts, account`listeners, list`people
      modifies list.metas`contacts, list.metas`onlineStatus, list.metas`refreshed
      ensures Sane() && Grown() && fresh(c) && list.people == old(list.people) + {c} && c.contactId == contactId
      ensures account.contacts == if parent == list.myself || contactId in old(account.contacts)
              then old(account.contacts) else old(account.contacts)[contactId := c]
      ensures account.listeners == old(account.listeners) + [c] && c.metaContact == parent && c.account == account
      ensures old(Housed(list)) && (parent != null || contactId in old(account.contacts)) ==> Housed(list)
    {
      hide ContactList.CoherentExcept, ContactList.Linked, ContactList.Woven, ContactList.Placed, Tidy, Housed, Alive;
      c := DoCreate(account, contactId, parent, list);
    }

    /** A birth leaves all safe exactly if it is harmless. */
    twostate lemma StillSafe(birth: Request, new child: Option<Contact>)
      requires child.Some? && old(birth.account in list.accounts) && list.accounts == old(list.accounts)
      requires child.value.contactId == birth.contactId
      requires manager.accountsToBeRemoved == old(manager.accountsToBeRemoved)
      requires manager.awaited == old(manager.awaited)
      requires forall a | a in list.accounts && a != birth.account ::
        a.contacts == old(a.contacts) && a.listeners == old(a.listeners)
      requires forall a | a in list.accounts :: a.myself == old(a.myself)
      requires birth.account.contacts ==
               if birth.parent == list.myself || birth.contactId in old(birth.account.contacts)
               then old(birth.account.contacts) else old(birth.account.contacts)[birth.contactId := child.value]
      requires birth.account.listeners == old(birth.account.listeners) + [child.value]
      requires child.value.metaContact == birth.parent
      requires old(Housed(list)) && (birth.parent != null || birth.contactId in old(birth.account.contacts)) ==>
        Housed(list)
      requires old(birth.account.Wired(list.people)) && child.value !in old(list.people)
      ensures old(Safe()) ==> (Safe() <==> old(Harmless(birth.account, birth.contactId, birth.parent)))
    {
      var account, c := birth.account, child.value;
      KnownWith(account, old(account.contacts), old(account.listeners), c);
      if birth.contactId !in old(account.contacts) && birth.parent != list.myself {
        assert account.contacts[birth.contactId] == c;
        Unhoused(birth, child);
      } else {
        assert c !in account.contacts.Values && c != account.myself;
      }
      hide Housed, Account.AllKnown;
      assert forall a | a in list.accounts && a != account :: a.AllKnown() == old(a.AllKnown());
    }

    /** A contact that is registered without a metacontact is in the way of a removal. */
    lemma Unhoused(birth: Request, child: Option<Contact>)
      requires child.Some? && birth.account in list.accounts && child.value.metaContact == birth.parent
      ensures birth.parent == null && child.value in birth.account.contacts.Values ==> !Housed(list)
    {
    }

    lemma WiredIn(account: Account)
      requires Sane() && account in list.accounts
      ensures account.Wired(list.people)
    {
    }

    lemma GoodIsSane()
      requires Good()
      ensures Sane() && Named()
    {
    }

    lemma SaneIsGood()
      requires Sane() && Named()
      ensures Good()
    {
    }

    lemma KnownWith(account: Account, contacts: map<string, Contact>, listeners: seq<Contact>, c: Contact)
      requires account.listeners == listeners + [c]
      ensures
        && c.contactId !in contacts && account.contacts == contacts[c.contactId := c]
        && (forall x | x in listeners :: x in contacts.Values || x == account.myself)
        ==> account.AllKnown()
      ensures c !in account.contacts.Values && c != account.myself ==> !account.AllKnown()
    {
      if c.contactId !in contacts && account.contacts == contacts[c.contactId := c] {
        assert account.contacts[c.contactId] == c;
        forall k | k in contacts ensures contacts[k] in account.contacts.Values {
          assert account.contacts[k] == contacts[k];
        }
      }
    }

    /** A new contact gets a metacontact if it gets registered, and does if its account is being removed. */
    predicate Harmless(account: Account, contactId: string, parent: MetaContact?)
      reads this, account`contacts, manager`accountsToBeRemoved, manager`awaited
    {
      && (WillBeKnown(account, contactId, parent) ==> parent != null)
      && (BeingRemoved(account) ==> WillBeKnown(account, contactId, parent))
    }

    /** Whether a new contact gets registered. */
    predicate WillBeKnown(account: Account, contactId: string, parent: MetaContact?)
      reads this, account`contacts
    {
      parent != list.myself && contactId !in account.contacts
    }

    method NameContact(c: Contact)
      requires c in list.people && forall x | x in metas :: x in list.metas
      requires forall a | a in accounts :: a in list.accounts || a.deleted
      requires forall x | x in people :: x in list.people || x.deleteScheduled
      modifies this`people
      ensures Named() && people == old(people) + [c]
    {
      people := people + [c];
    }

    method AppointOne(account: Account, c: Contact) returns (fate: Fate)
      requires Good() && account in list.accounts && c in list.people
      modifies account`myself, list`overtaken, list.metas`onlineStatus, list.metas`refreshed
      ensures fate == if old(Doubles(account, c)) then Broken else Fine
      ensures fate == Fine ==>
        && Good() && Grown() && (old(Safe()) ==> Safe())
        && (old(MayAppoint(account, c)) ==> account.myself == c)
        && (list.overtaken == {} <==>
              old(list.overtaken == {} && (MayAppoint(account, c) ==> account.Fits(c, list))))
    {
      hide ContactList.CoherentExcept, ContactList.Linked, ContactList.Woven, ContactList.Placed, Tidy, Housed;
      hide Account.Fits;
      fate := Fine;
      if Doubles(account, c) {
        account.myself := c;
        fate := Broken;
      } else if MayAppoint(account, c) {
        MisfitShows(account, c, list);
        account.SetMyself(c, list);
      }
    }

    method TransferOne(c: Contact, m: MetaContact?)
      requires Good() && c in list.people && (m != null ==> m in list.metas)
      modifies c`metaContact, c`stray, list`contacts, list`selectedMetaContacts, list`selectedGroups
      modifies list.metas`contacts, list.metas`onlineStatus, list.metas`refreshed, list.metas`deleteScheduled
      ensures Good() && (old(Safe()) ==> (Safe() <==> m != null || c !in c.account.contacts.Values))
      ensures c.metaContact == m
    {
      hide *;
      Opened();
      OnlyItsAccount(c, list);
      DoTransfer(c, m, list);
      if m == null {
        LeftOut(list, Some(c));
      }
      Closed();
    }

    /** What a good and safe world comes to, and what makes one. */
    lemma Opened()
      requires Good()
      ensures list.Linked() && list.CoherentExcept({}) && list.Placed() && Tidy(list) && Alive(list, manager) && Named()
      ensures Safe() <==> Housed(list) && manager.Orderly(list.accounts)
    {
    }

    lemma Closed()
      requires list.Linked() && list.CoherentExcept({}) && list.Placed() && Tidy(list) && Alive(list, manager)
      requires Named()
      ensures Good()
      ensures Safe() <==> Housed(list) && manager.Orderly(list.accounts)
    {
    }

    method DestroyOne(c: Contact)
      requires Good() && c in list.people && c.account in list.accounts
      modifies list`people, c`deleteScheduled, c.account`contacts, c.account`listeners
      modifies list.metas`contacts, list.metas`onlineStatus, list.metas`refreshed
      ensures c != c.account.myself ==>
        Good() && list.people <= old(list.people) - {c} && (old(Safe()) ==> Safe())
    {
      hide ContactList.CoherentExcept, ContactList.Linked, ContactList.Woven, ContactList.Placed, Tidy, Housed;
      hide Named, Alive, AccountManager.Orderly, Account.AllKnown;
      DoDestroy(c, list);
      if c != c.account.myself {
        OrderlyKept(Some(c.account));
        NamedKept();
      }
    }

    /** What can be named still exists, or can be seen not to. */
    twostate lemma NamedKept()
      requires metas == old(metas) && accounts == old(accounts) && people == old(people)
      requires list.metas == old(list.metas)
      requires forall a | a in old(list.accounts) :: a in list.accounts || a.deleted
      requires forall a | a in accounts && old(a.deleted) :: a.deleted
      requires forall c | c in old(list.people) :: c in list.people || c.deleteScheduled
      requires forall c | c in people && old(c.deleteScheduled) :: c.deleteScheduled
      ensures old(Named()) ==> Named()
    {
    }

    /** A status report; an account that goes offline and is waited for joins the queue of those to be removed. */
    method AnnounceOne(c: Contact, status: OnlineStatus)
      requires Good() && c in list.people && c.account in list.accounts
      modifies list.people`onlineStatus, list.metas`onlineStatus, list.metas`refreshed
      modifies manager`accountsToBeRemoved, manager`awaited
      ensures Good() && (old(Safe()) ==> Safe())
      ensures c.onlineStatus == if status.Same(old(c.onlineStatus)) then old(c.onlineStatus) else status
    {
      hide ContactList.CoherentExcept, ContactList.Linked, ContactList.Woven, ContactList.Placed, Tidy, Housed;
      hide OnlineStatus.Same;
      var wasConnected := c.account.IsConnected();
      DoAnnounce(c, status, list);
      if wasConnected != c.account.IsConnected() {
        manager.RemoveAccountConnectedChanged(c.account);
      }
    }

    /** The steps that name one contact. */
    method ContactStep(c: Contact, step: Step) returns (fate: Fate)
      requires Good() && c in list.people
      modifies manager`accountsToBeRemoved, manager`awaited
      modifies list`contacts, list`selectedMetaContacts, list`selectedGroups, list`people
      modifies list.metas, list.people, list.accounts`contacts, list.accounts`listeners
      ensures fate == if step.Destroy? && c == old(c.account.myself) then Broken else Fine
      ensures fate == Fine ==>
        && Good() && Grown()
        && (old(Safe()) ==> (Safe() <==> old(step.Transfer? && step.to == None ==> c !in c.account.contacts.Values)))
        && (step.Transfer? && old(step.to == None || Present(step.to.value)) ==>
              c.metaContact == if step.to == None then null else old(metas)[step.to.value])
        && (step.Announce? ==>
              c.onlineStatus == if step.status.Same(old(c.onlineStatus)) then old(c.onlineStatus) else step.status)
        && (step.Destroy? ==> c !in list.people)
    {
      fate := if step.Destroy? && c == c.account.myself then Broken else Fine;
      hide ContactList.CoherentExcept, ContactList.Linked, ContactList.Woven, ContactList.Placed, Tidy, Safe, Alive;
      hide Named;
      OnlyItsAccount(c, list);
      match step
      case Transfer(_, to) =>
        if to == None || Present(to.value) {
          PresentExists(to);
          var m := if to == None then null else metas[to.value];
          TransferOne(c, m);
        }
      case Announce(_, status) => AnnounceOne(c, status);
      case Destroy(_) => DestroyOne(c);
      case _ =>
    }

    lemma PresentExists(m: Option<nat>)
      requires Named() && (m.Some? ==> m.value < |metas|)
      ensures m.Some? ==> metas[m.value] in list.metas
    {
    }

    method UniteAll(src: seq<MetaContact>, dst: MetaContact)
      requires Good() && dst in list.metas && forall m | m in src :: m in list.metas
      modifies list`contacts, list`selectedMetaContacts, list`selectedGroups
      modifies list.people`metaContact, list.people`stray
      modifies list.metas`contacts, list.metas`onlineStatus, list.metas`refreshed, list.metas`deleteScheduled
      ensures Good() && (old(Safe()) ==> Safe()) && forall m | m in src && m != dst :: m.contacts == []
    {
      hide ContactList.CoherentExcept, ContactList.Linked, ContactList.Woven, ContactList.Placed, Tidy, Housed;
      DoUnite(src, dst, list);
    }

    method RenameOne(m: MetaContact, name: string)
      requires Good() && m in list.metas
      modifies m`displayName, list`contacts, list`selectedMetaContacts, list`selectedGroups
      modifies list.people`metaContact, list.people`stray
      modifies list.metas`contacts, list.metas`onlineStatus, list.metas`refreshed, list.metas`deleteScheduled
      ensures Good() && (old(Safe()) ==> Safe()) && m.displayName == name
    {
      hide ContactList.CoherentExcept, ContactList.Linked, ContactList.Woven, ContactList.Placed, Tidy, Housed;
      DoRename(m, name, list);
    }

    method RegroupOne(m: MetaContact, op: Op)
      requires Good() && m in list.metas
      modifies m`groups, m`temporary
      ensures Good() && (old(Safe()) ==> Safe()) && m.Place() == Apply(old(m.Place()), op)
    {
      hide ContactList.CoherentExcept, ContactList.Linked, ContactList.Woven, ContactList.Placed, Tidy, Housed;
      DoRegroup(m, op, list);
    }

    method EnlistOne(m: MetaContact)
      requires Good() && m in list.metas
      modifies list`contacts
      ensures Good() && (old(Safe()) ==> Safe()) && m in list.contacts
    {
      hide ContactList.CoherentExcept, ContactList.Linked, ContactList.Woven, ContactList.Placed, Tidy, Housed;
      list.AddMetaContact(m);
    }

    method DropOne(g: Group)
      requires Good()
      modifies list`contacts, list`groups, list`selectedMetaContacts, list`selectedGroups
      modifies list.metas`groups, list.metas`deleteScheduled, list.people`deleteTaskStarted
      ensures Good() && (old(Safe()) ==> Safe()) && (g != TopLevel ==> g !in list.groups)
    {
      hide ContactList.CoherentExcept, ContactList.Linked, ContactList.Woven, ContactList.Placed, Tidy, Housed;
      hide ContactList.State, Snapshot.RemoveGroup, Named;
      list.RemoveGroup(g);
    }

    /** The steps that name metacontacts or groups only. */
    method ListStep(step: Step)
      requires Good()
      modifies list`contacts, list`groups, list`selectedMetaContacts, list`selectedGroups, list.metas
      modifies list.people`metaContact, list.people`stray, list.people`deleteTaskStarted
      ensures Good() && (old(Safe()) ==> Safe())
      ensures step.Unite? || step.Rename? || step.Regroup? || step.Enlist? || step.DropGroup? ==> Done(step)
    {
      hide ContactList.CoherentExcept, ContactList.Linked, ContactList.Woven, ContactList.Placed, Tidy, Safe, Alive;
      match step
      case Unite(src, dst) =>
        if Present(dst) && forall i | 0 <= i < |src| :: Present(src[i]) {
          UniteAll(Pick(metas, src), metas[dst]);
        }
      case Rename(m, name) => if Present(m) { RenameOne(metas[m], name); }
      case Regroup(m, op) => if Present(m) { RegroupOne(metas[m], op); }
      case Enlist(m) => if Present(m) { EnlistOne(metas[m]); }
      case DropGroup(g) => DropOne(g);
      case _ =>
    }

    lemma NoDupMore(queue: seq<Account>, a: Account)
      ensures NoDup(queue + [a]) <==> NoDup(queue) && a !in queue
      ensures a in queue + [a]
    {
      var all := queue + [a];
      assert all[|queue|] == a;
      if NoDup(all) {
        forall i, j | 0 <= i < j < |queue| ensures queue[i] != queue[j] {
          assert all[i] == queue[i] && all[j] == queue[j];
        }
        forall i | 0 <= i < |queue| ensures queue[i] != a {
          assert all[i] == queue[i];
        }
      }
    }

    method RemoveOneAccount(a: Account, agreed: bool)
      requires Good() && a in list.accounts
      modifies manager`accountsToBeRemoved, manager`awaited
      ensures Good() && (old(Safe()) ==> (Safe() <==> (agreed ==> old(Removable(a)))))
      ensures agreed ==> BeingRemoved(a)
    {
      hide ContactList.CoherentExcept, ContactList.Linked, ContactList.Woven, ContactList.Placed, Tidy, Housed, Named;
      hide Account.AllKnown;
      NoDupMore(manager.accountsToBeRemoved, a);
      manager.RemoveAccount(a, agreed);
    }

    method RemoveTheNext() returns (fate: Fate)
      requires Good()
      modifies manager`accounts, manager`accountsToBeRemoved, list.accounts`contacts, list.accounts`deleted
      modifies list`contacts, list`groups, list`selectedMetaContacts, list`selectedGroups
      modifies list`people, list`accounts, list.metas
      modifies list.people`stray, list.people`deleteScheduled, list.people`deleteTaskStarted
      ensures fate == old(Outcome(RemoveNext))
      ensures fate.Fine? ==> Good() && Grown() && (old(Safe()) ==> Safe()) && Done(RemoveNext)
    {
      ghost var p := Before(list, manager);
      var whole := Whole();
      hide Good, Safe, Sane, Intact, Named, Whole, Outcome, Before, After;
      hide AccountManager.Leaving, AccountManager.Victims, AccountManager.Perishing;
      Ready(p);
      var crashed := DoRemoveNext(list, manager);
      AfterIs(p, crashed);
      fate := if crashed then Crashed else if whole then Fine else Broken;
      if fate == Fine {
        RemovalKeeps(p);
      }
    }

    lemma AfterIs(p: Prior, crashed: bool)
      requires After(list, manager, p, crashed)
      ensures crashed <==> p.crashes
      ensures !crashed && p.leaver.Some? ==> p.leaver.value.deleted
      ensures !crashed ==> forall c | c in p.dying :: c.deleteScheduled
      ensures !crashed ==>
        && manager.accountsToBeRemoved == (if p.queue == [] then [] else p.queue[1..])
        && list.accounts == p.accounts - (if p.leaver.Some? then {p.leaver.value} else {})
    {
    }

    /** What is known before removeAccountInternal. */
    lemma Ready(p: Prior)
      requires Good() && p == Before(list, manager)
      ensures Intact(list, manager)
      ensures Whole() <==> p.whole
      ensures Outcome(RemoveNext) == if p.crashes then Crashed else if p.whole then Fine else Broken
      ensures manager.Leaving() == (if p.leaver.Some? then {p.leaver.value} else {})
      ensures manager.Leaving() <= list.accounts
      ensures manager.Victims() <= manager.Perishing() <= list.people && manager.Perishing() == p.dying
      ensures p.queue == manager.accountsToBeRemoved
      ensures !p.crashes && p.queue != [] && !p.queue[0].IsConnected() ==> p.leaver == Some(p.queue[0])
    {
      FateIs(p);
      NextIs(list, manager, p);
      VictimsAreIts(list, manager);
    }

    twostate lemma RemovalKeeps(p: Prior)
      requires old(Good()) && p == old(Before(list, manager)) && p.whole && After(list, manager, p, false)
      requires Framed(p)
      ensures Good() && Grown() && (old(Safe()) ==> Safe())
    {
      AfterMeans(p);
      FateWas(p);
      hide ContactList.CoherentExcept, ContactList.Linked, ContactList.Woven, ContactList.Placed, Tidy, Housed, Named;
      hide Alive, AccountManager.Orderly, After, Before, Leaver, AccountManager.Perishing, Gone;
      NamedKept();
      OrderlyLess(p.leaver);
    }

    /** What a removal leaves alone. */
    twostate predicate Framed(p: Prior)
      reads this, list`metas, manager`awaited, accounts`deleted, people`deleteScheduled, p.accounts
    {
      && metas == old(metas) && accounts == old(accounts) && people == old(people)
      && list.metas == old(list.metas) && manager.awaited == old(manager.awaited)
      && (forall a | a in accounts && old(a.deleted) :: a.deleted)
      && (forall c | c in people && old(c.deleteScheduled) :: c.deleteScheduled)
      && (forall a | a in p.accounts && p.leaver != Some(a) ::
            a.contacts == old(a.contacts) && a.listeners == old(a.listeners) && a.myself == old(a.myself))
    }

    twostate lemma FateWas(p: Prior)
      requires p == old(Before(list, manager))
      ensures p.accounts == old(list.accounts) && p.people == old(list.people)
      ensures p.queue == old(manager.accountsToBeRemoved)
      ensures p.housed == old(Housed(list))
      ensures p.leaver.Some? ==> p.queue != [] && p.leaver.value == p.queue[0]
    {
    }

    /** removeAccountInternal will leave no contact of the account behind. */
    predicate Whole()
      reads manager`accountsToBeRemoved, manager.accountsToBeRemoved
      reads (set a: Account | a in manager.accountsToBeRemoved && a.myself != null :: a.myself)`onlineStatus
    {
      manager.accountsToBeRemoved == [] ||
      var head := manager.accountsToBeRemoved[0];
      head.deleted || head.IsConnected() || head.AllKnown()
    }

    lemma FateIs(p: Prior)
      requires p == Before(list, manager)
      ensures Whole() <==> p.whole
      ensures Outcome(RemoveNext) == if p.crashes then Crashed else if p.whole then Fine else Broken
      ensures p.leaver.Some? ==> p.queue != [] && p.leaver.value == p.queue[0]
    {
    }

    lemma AfterMeans(p: Prior)
      requires After(list, manager, p, false) && p.whole
      ensures list.Linked() && list.CoherentExcept({}) && list.Placed() && Tidy(list) && Alive(list, manager)
      ensures p.housed ==> Housed(list)
      ensures manager.accountsToBeRemoved == if p.queue == [] then [] else p.queue[1..]
      ensures list.people == p.people - p.dying && forall c | c in p.dying :: c.deleteScheduled
      ensures list.accounts == p.accounts - (if p.leaver.Some? then {p.leaver.value} else {})
      ensures p.leaver.Some? ==> p.leaver.value.deleted
    {
    }

    /** The rest of the queue is in order without the account at its head. */
    twostate lemma OrderlyLess(leaver: Option<Account>)
      requires manager.awaited == old(manager.awaited)
      requires manager.accountsToBeRemoved ==
        if old(manager.accountsToBeRemoved) == [] then [] else old(manager.accountsToBeRemoved)[1..]
      requires leaver.Some? ==>
        old(manager.accountsToBeRemoved) != [] && leaver.value == old(manager.accountsToBeRemoved)[0]
      requires list.accounts == old(list.accounts) - (if leaver.Some? then {leaver.value} else {})
      requires forall a | a in list.accounts ::
        a.contacts == old(a.contacts) && a.listeners == old(a.listeners) && a.myself == old(a.myself)
      ensures old(manager.Orderly(list.accounts)) ==> manager.Orderly(list.accounts)
    {
    }

    /** A step that a heedful caller takes in a safe state goes well. */
    lemma HeedIsEnough(step: Step)
      requires Good() && Safe() && Heedful(step)
      ensures Outcome(step) == Fine
    {
      if step.RemoveNext? && manager.accountsToBeRemoved != [] {
        assert manager.accountsToBeRemoved[0] in manager.accountsToBeRemoved;
        OthersAreSafe(list, manager);
      }
    }

    /** The steps that give an account a contact. */
    method PeopleStep(step: Step) returns (fate: Fate)
      requires Good() && (step.NewContact? || step.Appoint?)
      modifies this, list, list.metas, list.accounts
      ensures fate == old(Outcome(step))
      ensures fate == Fine ==> Good() && Grown() && (old(Safe()) ==> (Safe() <==> old(Heedful(step)))) && Done(step)
      ensures fate == Fine ==> (list.overtaken == {} <==> old(list.overtaken == {} && Fitting(step)))
    {
      fate := Fine;
      hide ContactList.CoherentExcept, ContactList.Linked, ContactList.Woven, ContactList.Placed, Tidy, Safe, Alive;
      hide Sane, Account.Fits;
      match step
      case NewContact(a, id, parent) =>
        if Open(a) && (parent == None || Present(parent.value)) {
          NewContact(accounts[a], id, if parent == None then null else metas[parent.value]);
        }
      case Appoint(a, c) =>
        if Open(a) && Usable(c) {
          fate := AppointOne(accounts[a], people[c]);
        }
    }

    method NamedStep(c: nat, step: Step) returns (fate: Fate)
      requires Good() && (step.Transfer? || step.Announce? || step.Destroy?) && c == step.contact
      modifies manager, list, list.metas, list.people, list.accounts
      ensures fate == old(Outcome(step))
      ensures fate == Fine ==> Good() && Grown() && (old(Safe()) ==> (Safe() <==> old(Heedful(step)))) && Done(step)
      ensures list.overtaken == old(list.overtaken)
    {
      hide ContactList.CoherentExcept, ContactList.Linked, ContactList.Woven, ContactList.Placed, Tidy, Safe, Alive;
      hide Sane;
      fate := Fine;
      if Usable(c) {
        fate := ContactStep(people[c], step);
      }
    }

    /**
      One step; a step that names something that is not there, or no longer, does nothing. Its fate is
      what can be said of it before, what it does if it goes well is said by Done; and a step from a safe
      state goes well and leaves one exactly if it is heedful.
     */
    method Perform(step: Step) returns (fate: Fate)
      requires Good()
      modifies this, manager, list, list.metas, list.people, list.accounts
      ensures fate == old(Outcome(step))
      ensures fate == Fine ==> Good() && Grown() && Done(step)
      ensures old(Safe()) ==> (fate == Fine && Safe() <==> old(Heedful(step)))
      ensures fate == Fine ==> (list.overtaken == {} <==> old(list.overtaken == {} && Fitting(step)))
    {
      hide *;
      Plainly(step);
      Kinds(step);
      if Safe() && Heedful(step) {
        HeedIsEnough(step);
      }
      fate := Fine;
      if step.NewContact? || step.Appoint? {
        fate := PeopleStep(step);
      } else if step.Transfer? || step.Announce? || step.Destroy? {
        fate := NamedStep(step.contact, step);
      } else if step.RemoveAccount? {
        RemovalStep(step);
      } else if step.RemoveNext? {
        fate := RemoveTheNext();
      } else {
        PlainStep(step);
      }
    }

    /** The steps that concern no contact, and remove no account. */
    predicate Plain(step: Step) {
      || step.NewMetaContact? || step.NewAccount? || step.Unite? || step.Rename? || step.Regroup?
      || step.Enlist? || step.DropGroup?
    }

    /** Which steps cannot go wrong, or spoil a cache. */
    lemma Plainly(step: Step)
      requires Good()
      ensures list.Woven() && (!step.Appoint? ==> Fitting(step))
      ensures Plain(step) ==> Outcome(step) == Fine && Heedful(step)
      ensures step.RemoveAccount? ==> Outcome(step) == Fine
      ensures step.RemoveNext? ==> Heedful(step)
    {
    }

    lemma Kinds(step: Step)
      ensures Plain(step) <==>
              !(step.NewContact? || step.Appoint? || step.Transfer? || step.Announce? || step.Destroy?
                || step.RemoveAccount? || step.RemoveNext?)
    {
    }

    method PlainStep(step: Step)
      requires Good() && Plain(step)
      modifies this, manager, list`contacts, list`groups, list`selectedMetaContacts, list`selectedGroups
      modifies list`metas, list`accounts, list.metas, list.people
      ensures Good() && Grown() && (old(Safe()) ==> Safe()) && Done(step)
    {
      hide ContactList.CoherentExcept, ContactList.Linked, ContactList.Woven, ContactList.Placed, Tidy, Safe, Alive;
      hide Good, Done;
      if step.NewMetaContact? {
        NewMetaContact();
      } else if step.NewAccount? {
        NewAccount(step.offline);
      } else {
        ListStep(step);
      }
    }

    method RemovalStep(step: Step)
      requires Good() && step.RemoveAccount?
      modifies manager`accountsToBeRemoved, manager`awaited
      ensures Good() && Grown() && (old(Safe()) ==> (Safe() <==> old(Heedful(step)))) && Done(step)
    {
      hide ContactList.CoherentExcept, ContactList.Linked, ContactList.Woven, ContactList.Placed, Tidy, Safe, Alive;
      hide Sane;
      if Open(step.account) {
        RemoveOneAccount(accounts[step.account], step.agreed);
      }
    }

    /**
      A run of steps, until it is over or a step does not go well. fits says of every step that went well
      whether it was fitting: all are but some appointments. As long as all are, every cache is right.
     */
    method Run(steps: seq<Step>) returns (fate: Fate, ghost fits: seq<bool>)
      requires Good()
      modifies this, manager, list, list.metas, list.people, list.accounts
      ensures fate == Fine ==> Good() && Grown() && |fits| == |steps| && NoOthers(steps, fits)
      ensures fate == Fine && old(list.overtaken) == {} ==>
        (list.overtaken == {} <==> AllFit(fits)) && (list.overtaken == {} ==> list.Coherent())
    {
      fate, fits := Fine, [];
      ghost var clean := list.overtaken == {};
      assert Stage(steps, fits, clean);
      hide *;
      for i := 0 to |steps|
        invariant Good() && Grown() && |fits| == i && Stage(steps, fits, clean)
      {
        fate, fits := PerformNext(steps, i, fits, clean);
        if fate != Fine {
          return;
        }
      }
      StageMeans(steps, fits, clean);
      GoodIsCoherent();
    }

    /** One step of a run. */
    method PerformNext(steps: seq<Step>, i: nat, ghost done: seq<bool>, ghost clean: bool)
      returns (fate: Fate, ghost fits: seq<bool>)
      requires Good() && i == |done| < |steps| && Stage(steps, done, clean)
      modifies this, manager, list, list.metas, list.people, list.accounts
      ensures fate == Fine ==> Good() && Grown() && |fits| == i + 1 && Stage(steps, fits, clean)
    {
      GoodIsWoven();
      ghost var fit, before := Fitting(steps[i]), list.overtaken;
      fits := done + [fit];
      assert NoOthers(steps, done) && (clean ==> (before == {} <==> AllFit(done)));
      if !steps[i].Appoint? {
        OnlyAppointmentsMisfit(steps[i]);
      }
      hide *;
      fate := Perform(steps[i]);
      if fate == Fine {
        NextStage(steps, done, fit, before, clean);
      }
    }

    /** Every step but an appointment fits; and no cache has been left behind exactly if all did. */
    ghost predicate Stage(steps: seq<Step>, fits: seq<bool>, clean: bool)
      reads list`overtaken
    {
      NoOthers(steps, fits) && (clean ==> (list.overtaken == {} <==> AllFit(fits)))
    }

    lemma StageMeans(steps: seq<Step>, fits: seq<bool>, clean: bool)
      requires Stage(steps, fits, clean)
      ensures NoOthers(steps, fits) && (clean ==> (list.overtaken == {} <==> AllFit(fits)))
    {
    }

    lemma AllFitMore(fits: seq<bool>, fit: bool)
      ensures AllFit(fits + [fit]) <==> AllFit(fits) && fit
    {
      assert (fits + [fit])[|fits|] == fit;
      assert forall i | 0 <= i < |fits| :: (fits + [fit])[i] == fits[i];
    }

    lemma NextStage(steps: seq<Step>, fits: seq<bool>, fit: bool, before: set<MetaContact>, clean: bool)
      requires |fits| < |steps| && NoOthers(steps, fits) && (clean ==> (before == {} <==> AllFit(fits)))
      requires !steps[|fits|].Appoint? ==> fit
      requires list.overtaken == {} <==> before == {} && fit
      ensures Stage(steps, fits + [fit], clean)
    {
      AllFitMore(fits, fit);
      assert forall i | 0 <= i < |fits| :: (fits + [fit])[i] == fits[i];
      hide AllFit;
    }

    lemma GoodIsWoven()
      requires Good()
      ensures list.Woven()
    {
    }

    lemma OnlyAppointmentsMisfit(step: Step)
      requires list.Woven() && !step.Appoint?
      ensures Fitting(step)
    {
    }

    lemma GoodIsCoherent()
      requires Good()
      ensures list.Woven() && (list.overtaken == {} ==> list.Coherent())
    {
    }

    /** No status is ever read of a contact whose account has been deleted. */
    lemma EveryReadIsSafe()
      requires Good()
      ensures forall c | c in list.people :: !c.account.deleted
      ensures forall m | m in list.metas :: m.Readable()
    {
      forall c | c in list.people ensures !c.account.deleted {
        assert c.Anchored(list.metas, list.accounts);
      }
      forall m | m in list.metas ensures m.Readable() {
        assert m.Holds(list.people);
      }
    }

    /**
      The steps of a caller who looks before each of them whether it is heedful: all go well, and he stops
      only where one is not: one that would go wrong, or leave something in wait for a removal.
     */
    method RunHeedfully(steps: seq<Step>) returns (done: nat)
      requires Good() && Safe()
      modifies this, manager, list, list.metas, list.people, list.accounts
      ensures Good() && Safe() && Grown()
      ensures done <= |steps| && (done < |steps| ==> !Heedful(steps[done]))
      ensures old(list.overtaken) == {} && (forall step | step in steps :: !step.Appoint?) ==> list.Coherent()
    {
      done := 0;
      ghost var clean := list.overtaken == {} && forall step | step in steps :: !step.Appoint?;
      hide *;
      while done < |steps|
        invariant Good() && Safe() && Grown() && done <= |steps| && (clean ==> list.overtaken == {})
      {
        if !Heedful(steps[done]) {
          break;
        }
        PerformHeedfully(steps[done]);
        assert steps[done] in steps;
        done := done + 1;
      }
      GoodIsCoherent();
    }

    method PerformHeedfully(step: Step)
      requires Good() && Safe() && Heedful(step)
      modifies this, manager, list, list.metas, list.people, list.accounts
      ensures Good() && Safe() && Grown() && Done(step)
      ensures old(list.overtaken) == {} && !step.Appoint? ==> list.overtaken == {}
    {
      GoodIsWoven();
      if !step.Appoint? {
        OnlyAppointmentsMisfit(step);
      }
      hide *;
      var fate := Perform(step);
    }
  }

  /** A run from nothing. */
  method Play(steps: seq<Step>) returns (world: World, fate: Fate, ghost fits: seq<bool>)
    ensures fate == Fine ==> world.Good() && |fits| == |steps| && NoOthers(steps, fits)
    ensures fate == Fine && AllFit(fits) ==> world.list.Woven() && world.list.Coherent()
  {
    world := new World();
    fate, fits := world.Run(steps);
    if fate == Fine {
      world.GoodIsCoherent();
    }
  }

  /** A heedful run from nothing never goes wrong. */
  method PlayHeedfully(steps: seq<Step>) returns (world: World, done: nat)
    ensures world.Good() && world.Safe()
    ensures done <= |steps| && (done < |steps| ==> !world.Heedful(steps[done]))
  {
    world := new World();
    done := world.RunHeedfully(steps);
  }

  // ---------- the inputs that go wrong ----------

  /** Removing an account one of whose contacts has no metacontact crashes. */
  method RemoveHomeless(account: Account, list: ContactList, manager: AccountManager) returns (crashed: bool)
    requires Intact(list, manager) && account in list.accounts && !account.IsConnected()
    requires manager.accountsToBeRemoved == [] && AccountManager.Homeless(account.contacts.Values)
    modifies manager, list, list.metas, list.people, list.accounts
    ensures crashed
  {
    IntactMeans(list, manager);
    hide ContactList.CoherentExcept, ContactList.Linked, ContactList.Woven, ContactList.Placed, Tidy, Housed;
    hide AccountManager.Homeless;
    manager.RemoveAccount(account, true);
    assert manager.Victims() == account.contacts.Values;
    crashed := RemoveQueued(list, manager);
  }

  /** removeAccountInternal, as far as its fate goes. */
  method RemoveQueued(list: ContactList, manager: AccountManager) returns (crashed: bool)
    requires Intact(list, manager)
    modifies manager, list`contacts, list`groups, list`selectedMetaContacts, list`selectedGroups
    modifies list`people, list`accounts, list.metas, list.people, list.accounts
    ensures crashed <==> old(manager.HeadGone() || AccountManager.Homeless(manager.Victims()))
    ensures !crashed && old(Leaver(manager).Some? && Leaver(manager).value.AllKnown()) ==>
      Intact(list, manager) && old(Leaver(manager)).value.deleted
    ensures !crashed ==> list.people <= old(list.people) && list.accounts <= old(list.accounts)
    ensures manager.accountsToBeRemoved ==
      if old(manager.accountsToBeRemoved) == [] then [] else old(manager.accountsToBeRemoved)[1..]
  {
    ghost var p := Before(list, manager);
    IntactMeans(list, manager);
    VictimsAreIts(list, manager);
    hide ContactList.CoherentExcept, ContactList.Linked, ContactList.Woven, ContactList.Placed, Tidy, Housed, Alive;
    hide AccountManager.Homeless, AccountManager.Leaving, AccountManager.Victims, AccountManager.Perishing;
    crashed := DoRemoveNext(list, manager);
  }

  /** A contact born without a metacontact is registered; removing its account then crashes. */
  method CrashAfterBirth(account: Account, contactId: string, list: ContactList, manager: AccountManager)
    returns (crashed: bool)
    requires Intact(list, manager) && account in list.accounts && !account.IsConnected()
    requires contactId !in account.contacts && manager.accountsToBeRemoved == []
    modifies manager, list, list.metas, list.people, list.accounts
    ensures crashed
  {
    hide ContactList.CoherentExcept, ContactList.Linked, ContactList.Woven, ContactList.Placed, Tidy, Housed;
    var c := DoCreate(account, contactId, null, list);
    assert account.contacts[contactId] == c;
    AccountManager.FoundHomeless(account.contacts.Values, c);
    crashed := RemoveHomeless(account, list, manager);
  }

  /** So does setMetaContact(nullptr) on a registered contact. */
  method CrashAfterTransfer(account: Account, c: Contact, list: ContactList, manager: AccountManager)
    returns (crashed: bool)
    requires Intact(list, manager) && account in list.accounts && !account.IsConnected()
    requires c in account.contacts.Values && manager.accountsToBeRemoved == []
    modifies manager, list, list.metas, list.people, list.accounts
    ensures crashed
  {
    assert c in list.people;
    hide ContactList.CoherentExcept, ContactList.Linked, ContactList.Woven, ContactList.Placed, Tidy, Housed;
    DoTransfer(c, null, list);
    AccountManager.FoundHomeless(account.contacts.Values, c);
    crashed := RemoveHomeless(account, list, manager);
  }

  /** An account asked twice to be removed, before the first request has been seen to, is looked at once deleted. */
  method CrashQueuedTwice(account: Account, list: ContactList, manager: AccountManager)
    returns (first: bool, second: bool)
    requires Intact(list, manager) && account in list.accounts && !account.IsConnected()
    requires manager.accountsToBeRemoved == []
    requires account.AllKnown() && !AccountManager.Homeless(account.contacts.Values)
    modifies manager, list, list.metas, list.people, list.accounts
    ensures !first && second
  {
    hide ContactList.CoherentExcept, ContactList.Linked, ContactList.Woven, ContactList.Placed, Tidy, Housed;
    hide AccountManager.Homeless, Account.AllKnown;
    manager.RemoveAccount(account, true);
    manager.RemoveAccount(account, true);
    assert Leaver(manager) == Some(account) && manager.Victims() == account.contacts.Values;
    hide Intact;
    first := RemoveQueued(list, manager);
    second := RemoveQueued(list, manager);
  }

  /**
    A contact built with a taken id, and then moved, is listed but not registered: the removal of its
    account leaves it listed, and the metacontact that lists it with an account to read that is gone.
   */
  method LeftBehind(account: Account, contactId: string, m1: MetaContact, m2: MetaContact, list: ContactList,
                    manager: AccountManager)
    returns (c: Contact, crashed: bool)
    requires Intact(list, manager) && account in list.accounts && !account.IsConnected()
    requires manager.accountsToBeRemoved == [] && !AccountManager.Homeless(account.contacts.Values)
    requires contactId in account.contacts && m1 in list.metas && m2 in list.metas && m1 != m2
    modifies manager, list, list.metas, list.people, list.accounts
    ensures !crashed && c.account == account && account.deleted
    ensures c in m2.contacts && !m2.Readable() && !list.Linked()
  {
    assert !account.IsConnected();
    hide *;
    c := MovedDuplicate(account, contactId, m1, m2, list, manager);
    NotKnown(account, c, list);
    crashed := RemoveAtOnce(account, m2, c, list, manager);
  }

  method MovedDuplicate(account: Account, contactId: string, m1: MetaContact, m2: MetaContact, list: ContactList,
                        ghost manager: AccountManager)
    returns (c: Contact)
    requires Intact(list, manager) && account in list.accounts && !AccountManager.Homeless(account.contacts.Values)
    requires contactId in account.contacts && m1 in list.metas && m2 in list.metas && m1 != m2
    modifies list`people, list`contacts, list`selectedMetaContacts, list`selectedGroups
    modifies list.metas`contacts, list.metas`onlineStatus, list.metas`refreshed, list.metas`deleteScheduled
    modifies account`contacts, account`listeners
    ensures fresh(c) && c.account == account && list.people == old(list.people) + {c}
    ensures Intact(list, manager) && c in m2.contacts && account.listeners == old(account.listeners) + [c]
    ensures account.contacts == old(account.contacts) && !AccountManager.Homeless(account.contacts.Values)
  {
    hide *;
    c := BornDuplicate(account, contactId, m1, list, manager);
    MoveThere(c, m2, list, manager);
  }

  method BornDuplicate(account: Account, contactId: string, m: MetaContact, list: ContactList,
                       ghost manager: AccountManager)
    returns (c: Contact)
    requires Intact(list, manager) && account in list.accounts
    requires contactId in account.contacts && m in list.metas
    modifies list`people, account`contacts, account`listeners
    modifies list.metas`contacts, list.metas`onlineStatus, list.metas`refreshed
    ensures fresh(c) && c.account == account && c.metaContact == m && list.people == old(list.people) + {c}
    ensures Intact(list, manager) && account.listeners == old(account.listeners) + [c]
    ensures account.contacts == old(account.contacts)
  {
    hide ContactList.CoherentExcept, ContactList.Linked, ContactList.Woven, ContactList.Placed, Tidy, Housed, Alive;
    c := DoCreate(account, contactId, m, list);
    IsItsAccount(account, c, list);
  }

  lemma IsItsAccount(account: Account, c: Contact, list: ContactList)
    requires list.Linked() && account in list.accounts && c in account.listeners
    ensures c.account == account
  {
    assert account.Wired(list.people);
  }

  method MoveThere(c: Contact, m: MetaContact, list: ContactList, ghost manager: AccountManager)
    requires Intact(list, manager) && c in list.people && m in list.metas && c.metaContact != m
    modifies c`metaContact, c`stray, list`contacts, list`selectedMetaContacts, list`selectedGroups
    modifies list.metas`contacts, list.metas`onlineStatus, list.metas`refreshed, list.metas`deleteScheduled
    ensures Intact(list, manager) && c in m.contacts
  {
    hide *;
    IntactMeans(list, manager);
    EndsExist(c, m, list);
    c.SetMetaContact(m, list);
    NoNewStrays(list);
    MakesIntact(list, manager);
  }

  lemma MakesIntact(list: ContactList, manager: AccountManager)
    requires list.Linked() && list.CoherentExcept({}) && list.Placed() && Tidy(list) && Alive(list, manager)
    ensures Intact(list, manager)
  {
  }

  lemma NotKnown(account: Account, c: Contact, list: ContactList)
    requires c in account.listeners && c !in account.contacts.Values && c != account.myself
    ensures !account.AllKnown() && c !in account.Dying()
  {
  }

  method RemoveAtOnce(account: Account, m: MetaContact, ghost c: Contact, list: ContactList, manager: AccountManager)
    returns (crashed: bool)
    requires Intact(list, manager) && account in list.accounts && !account.IsConnected()
    requires manager.accountsToBeRemoved == [] && !AccountManager.Homeless(account.contacts.Values)
    requires m in list.metas && c in m.contacts && c.account == account
    requires !account.AllKnown() && c !in account.Dying()
    modifies manager, list, list.metas, list.people, list.accounts
    ensures !crashed && account.deleted && c in m.contacts && !m.Readable() && !list.Linked()
  {
    manager.RemoveAccount(account, true);
    ghost var was := manager.Start(account, list);
    Departs(account, m, c, list, manager, was);
    hide *;
    ghost var partings;
    crashed, partings := manager.RemoveAccountInternal(list);
    Remains(account, m, c, list, manager, was, partings);
  }

  lemma Departs(account: Account, m: MetaContact, c: Contact, list: ContactList, manager: AccountManager, was: Outset)
    requires Intact(list, manager) && account in list.accounts && !account.IsConnected()
    requires manager.accountsToBeRemoved == [account] && !AccountManager.Homeless(account.contacts.Values)
    requires m in list.metas && c in m.contacts && c !in account.Dying() && !account.AllKnown()
    requires was == manager.Start(account, list)
    ensures list.Linked() && list.CoherentExcept({}) && list.Placed()
    ensures manager.Next() == account && AccountManager.Removable(account, list)
    ensures !manager.HeadGone() && !AccountManager.Homeless(manager.Victims())
    ensures manager.Leaving() <= list.accounts && manager.Victims() <= manager.Perishing() <= list.people
    ensures m in was.state.lists && c in was.state.lists[m] && c !in was.Dying() && !was.Known()
  {
    VictimsAreIts(list, manager);
    hide ContactList.CoherentExcept, ContactList.Linked, ContactList.Woven, ContactList.Placed;
  }

  lemma Remains(account: Account, m: MetaContact, c: Contact, list: ContactList, manager: AccountManager, was: Outset,
                partings: seq<Parting<MetaContact, Contact>>)
    requires manager.Gone(account, list, was, partings) && m in list.metas && c.account == account
    requires m in was.state.lists && c in was.state.lists[m] && c !in was.Dying() && !was.Known()
    ensures account.deleted && c in m.contacts && !m.Readable() && !list.Linked()
  {
    manager.ListsAfter(account, list, was, partings, m);
    hide ContactList.CoherentExcept, ContactList.Linked, ContactList.Woven, ContactList.Placed;
  }

  /** The first account's own contact, appointed before it has reported, leaves the user's cache wrong. */
  method FirstAppointment(account: Account, contactId: string, list: ContactList) returns (c: Contact)
    requires list.Linked() && list.CoherentExcept({}) && list.overtaken == {}
    requires account in list.accounts && account.myself == null
    requires list.myself in list.metas && list.myself.contacts == []
    modifies account, list, list.metas
    ensures list.Linked() && account.myself == c && c.metaContact == list.myself
    ensures list.Coherent() <==> account.offlineStatus.status == Unknown
  {
    hide *;
    c := new Contact(account, contactId, list.myself, list);
    UserShowsOffline(account, c, list);
    account.SetMyself(c, list);
    LinkedIsWoven(list);
  }

  lemma LinkedIsWoven(list: ContactList)
    requires list.Linked()
    ensures list.Woven()
  {
  }

  lemma UserShowsOffline(account: Account, c: Contact, list: ContactList)
    requires list.Linked() && list.CoherentExcept({}) && list.overtaken == {} && account in list.accounts
    requires c in list.people && c.account == account && account.myself == null && c.onlineStatus == EMPTY
    requires list.myself in list.metas && list.myself.contacts == [c]
    ensures account.Fits(c, list) <==> account.offlineStatus.status == Unknown
  {
    var m := list.myself;
    assert m.Exact();
    assert c in m.contacts && c.Visible() == account.offlineStatus;
    assert (set x | x in m.contacts :: x.Visible().status) == {account.offlineStatus.status};
    assert m.ShownBeside(c) == {};
    forall x | x in list.metas && c in x.contacts ensures x == m {
      assert x.Holds(list.people) && m.Holds(list.people);
    }
    assert account.Fits(c, list) <==> Highest(m.onlineStatus, {Unknown});
  }

  lemma MisfitShows(account: Account, c: Contact, list: ContactList)
    requires list.Linked()
    ensures account.Fits(c, list) || c.Showing(list) != {}
  {
    if m :| m in list.metas && c in m.contacts {
      assert m in c.Showing(list);
    }
  }

  lemma EndsExist(c: Contact, m: MetaContact?, list: ContactList)
    requires list.Linked() && c in list.people && (m != null ==> m in list.metas)
    ensures c.Ends(m) <= list.metas && forall x | x in c.Ends(m) :: x == m || x == c.metaContact
  {
    assert c.Anchored(list.metas, list.accounts);
  }
}
