# A verified model of Kopete's library core

Kopete's library keeps a graph of accounts, contacts, metacontacts and groups up to date through
signals, sends messages through chains of handlers, and keeps derived views (cached statuses, a sorted
member list) in step. This project models that core in Dafny 4.11 and proves what every run keeps. Check
it with `dafny verify dfyconfig.toml`.

## How it is built

- **The contact graph.** `ContactGraph` has the classes with their fields; a signal is a call of the
  receivers its `connect` calls name, `deleteLater` is a flag, and the ghost sets `metas`, `people` and
  `accounts` of `ContactList` are the objects in existence. `Rewiring` says what merging, removing a group
  and removing an account do to a snapshot of the graph, and what that means; every method is proved to
  have that effect on the heap. `Placement` does the same for the groups of one metacontact.
  `ContactRuns` closes the loop: from an empty contact list it runs any sequence of births of
  metacontacts, accounts and contacts, of appointments of an account's own contact, of moves, merges,
  renamings, status reports, regroupings, destructions and removals. Every step ends `Fine`, with the link
  between contact and metacontact in both directions, the cached statuses and the grouping invariant kept;
  or `Crashed`, having followed a null or freed pointer; or `Broken`, having left one for a later call to
  follow. What it will be is a function of the state before (`Outcome`), and `Heedful` is a check a caller
  can make before each step that keeps it `Fine` for ever: exactly the steps that pass it do. What each
  step has done is said by `Done`. A cached status is claimed exact for every
  metacontact that has or had contacts, until `setMyself` leaves one behind (the ghost set `overtaken`), and
  from that one's next refresh on again; a run tells of each step whether it left one behind.
- **Messages.** `HandlerChain` builds and takes down the linked chain. `MessageHandlers` has the objects
  that one event walks through and the pure walk they are proved to follow. `MessagePipeline` interleaves
  any number of events over any number of sessions, and `SessionLifetime` is the reference count.
- **The member list.** `MemberOrder` has the comparator, the binary search and the tree insertion;
  `MembersModel` is the state machine of a session and the list shown for it; `ChatRoom` has the objects,
  each of whose methods is proved to be one step of that machine. The status of a contact can change with
  its announcement (`OwnStatus`), and, as when an account connects or disconnects, of all contacts at once
  without one (`Rekey`), with the announcements one by one afterwards (`Reannounce`). `Rounds` says when
  such a run ends sorted, and `Disconnection` is the example of one that does not.
- **Text, commands, the rest.** `MessageText` (escape and unescape), `TextRoundTrip` (when the one undoes
  the other), `Elements` (what each element of markup becomes), `Commands` (alias
  expansion), `PreferredContact`, `StatusCategories`, `Blend`, `Reconnect`. `OnlineStatuses`, `Lists` and
  `Basics` are shared.

Classes named alike in different modules (`ChatSession`, `Account`) are different concerns of one source
class: membership and lifetime of a session, links and reconnection of an account.

## What the proofs showed about the code

- A contact constructed with an id its account already has keeps its parent link but is listed nowhere
  (`ContactGraph.Contact.constructor`). Such a stray is why the link invariant has two directions.
- `removeAccountInternal` looks at the account at the head of its queue and dereferences the metacontact of
  every contact registered with it. It crashes exactly when that account has been deleted already or such a
  contact has no metacontact (`ContactGraph.AccountManager.RemoveAccountInternal`). Three inputs lead there:
  constructing a contact without a metacontact registers it all the same (`ContactRuns.CrashAfterBirth`);
  so does `setMetaContact(nullptr)` on a registered one (`ContactRuns.CrashAfterTransfer`); and
  `removeAccount` queues an account that is in the queue already (`ContactRuns.CrashQueuedTwice`). The
  unguarded `groups().first()` is always safe, because no metacontact is ever without a group.
- Removing an account takes away the contacts registered with it and its own. A contact built with a taken
  id is neither; once moved to another metacontact it is listed there, and it stays listed when its account
  is deleted, so the next refresh of that metacontact asks a deleted account (`ContactRuns.LeftBehind`). The
  graph is sound after a removal exactly if every contact built for the account was registered or its own,
  and no metacontact lists a contact of the account exactly if every one listed before was
  (`ContactGraph.AccountManager.RemoveAccountInternal`). A run whose caller looks before each step, so that
  nobody is left without a metacontact, no account is removed twice and none with such a contact, never
  crashes and reads no deleted account (`ContactRuns.PlayHeedfully`, `ContactRuns.World.EveryReadIsSafe`).
- `setMyself` unmasks the status of the account's own contact without announcing it, so the cache of the
  metacontact that lists it may stay behind: it is right afterwards exactly when it was already what that
  report makes it, or the account comes up connected and re-announces it
  (`ContactGraph.Account.SetMyself`). For the first account of all it is wrong unless the account's
  offline status is of type Unknown (`ContactRuns.FirstAppointment`).
- Merging a metacontact that has no contacts leaves it in the list: it goes only when its last contact
  moves (`Rewiring.MergeAllDelists`).
- `OnlineStatus::operator==` looks at neither the status type nor the caption, so a report that differs
  only there is dropped (`OnlineStatuses.SameButForType`, `ContactGraph.Contact.SetOnlineStatus`).
- `preferredContact` can return an unreachable contact, contrary to its comment:
  `PreferredContact.UnreachableChoice` says exactly when.
- Clearing the temporary mark while asking for the Offline group leaves the metacontact in the Temporary
  group (`Placement.ClearingTheMark`). Clearing a mark that is not set adds a group, the top level by default
  (`Placement.ClearingNoMark`); and a group that may not be moved into, the Offline one, may be added by a
  move from nowhere (`Placement.MoveRefused`, `MoveAdds`).
- `unescape(escape(t)) == t` holds exactly on the texts `TextRoundTrip.RoundTrips` accepts: runs of other
  white space than newline and tab must be of plain spaces, one or an even number long, and not at the
  end; the text must not start with a run of one; and it must not contain `&#160;`.
- The members model: adding the user as a member shows the user twice; a session status for a stranger
  shows the stranger; renaming the user, and adding a member again with an initial status, change a sort
  key without moving anything; the last member, removed and added again, stays invisible. Each has an
  exact condition in `MembersModel`.
- The list is kept sorted only while sort keys change one at a time, each with its announcement. When an
  account disconnects, the keys of all its contacts change together and the contacts re-announce
  themselves in turn; each search then runs on a list that need not be sorted, and the list can end
  unsorted for good (`Disconnection.CascadeUnsorts`). When all whose keys changed have announced themselves
  once, the list is sorted exactly when each of them, at its turn, landed right with respect to those who
  had no announcement still to come (`Rounds.CascadeSorts`). Being in order without any one of them is
  enough (`Rounds.EveryFullRoundSorts`) and not necessary (`Rounds.NotNecessary`): with three shown or
  fewer a round of all sorts any list (`Rounds.ThreeAreSorted`).
- `registerOnlineStatus` inserts into a map whose order sees only type and weight, so of several statuses
  alike in both only the first registered stays, with its categories. A request for Online goes unanswered
  when the only statuses registered for it came after such a tie (`StatusCategories.TieHidesOnline`,
  `OnlineAnswersAll`).
- A chat session is scheduled for deletion also when its last member or its user is destroyed, whatever
  stands against it: with a message in flight as well (`MessagePipeline.BereavedWithWork`). While
  messages keep their session, these are the only two ways (`MessagePipeline.ScheduledWithWork`).
- A task releases the session that its message names at the end, not the one it took a reference on: when
  they differ, the one is held for ever and the count of the other wraps
  (`MessagePipeline.WrongSessionReleased`).
- A message task whose event is destroyed first may still start on it
  (`MessagePipeline.StartComesTooLate` says exactly when).
- A handled line does nothing and reports nothing exactly when its chain of aliases ends in a text that
  is no known command: the inner refusal is ignored (`Commands.Swallowed`). A handler chosen from the menu
  does not set the flag that refuses nested commands, so what it sends may run another handler
  (`Commands.MenuRunsTwo`), exactly when one of its texts ends at an accepted command that is no alias
  (`Commands.MenuStart`).
- The commands of a protocol are merged in three rounds, its aliases first. A dictionary has one command of
  a name, so the rounds change nothing (`Commands.RankingIsMoot`).
- Of the statuses registered for a category the lowest one answers, by type and then by weight
  (`StatusCategories.LowestAnswers`).
- `refcount` and `connectionTry` are unsigned. So `setCanBeDeleted(false)` never schedules deletion
  although its code compares for "less than 0", and the bound on the reconnect delay holds exactly until
  the counter wraps (`Reconnect.WaitsAreBounded`).

## Model

| member | source | states |
|---|---|---|
| ContactGraph.Contact.SetMetaContact | libkopete/kopetecontact.cpp:429-462 | moving a contact keeps the link in both directions and every cached status; only this contact moves, it is appended to the new list, and a metacontact it leaves empty goes off the list and the selection |
| ContactGraph.Contact.LeaveMetaContact | libkopete/kopetecontact.cpp:436-448 | leaving takes the contact off its parent's list and the parent, if now empty, off the contact list |
| ContactGraph.Contact.JoinMetaContact | libkopete/kopetecontact.cpp:450-460 | a contact listed nowhere is appended to the new parent, whose cache is right again |
| ContactGraph.Contact.constructor | libkopete/kopetecontact.cpp:113-155 | exactly when a new contact is registered and listed; a duplicate id leaves a stray |
| ContactGraph.Contact.Destroy | libkopete/kopetemetacontact.cpp:1031-1034 | a destroyed contact is on no list and its account forgets it if it is the one registered under the id; links and caches hold afterwards exactly if it was not its account's own |
| ContactGraph.Account.RegisterContact | libkopete/kopeteaccount.cpp:316-330 | registers unless the id is taken, and changes nothing then |
| ContactGraph.MetaContact.AddContact | libkopete/kopetemetacontact.cpp:89-133 | lists a contact once and leaves the cache exact |
| ContactGraph.MetaContact.RemoveContact | libkopete/kopetemetacontact.cpp:158-211 | the rest of the list keeps its order and the cache is exact, also when the contact was not listed |
| ContactGraph.MetaContact.UpdateOnlineStatus | libkopete/kopetemetacontact.cpp:135-156 | the cache becomes the highest status the children show, Unknown without children |
| ContactGraph.HighestIsUnique | libkopete/kopetemetacontact.cpp:135-156 | that highest status is determined by the set of shown statuses |
| ContactGraph.CacheMeans | libkopete/kopetemetacontact.cpp:135-156 | an exact cache is the highest of what the children show: their own reports if they are their account's own contact or that one is online, the account's offline status otherwise |
| ContactGraph.Contact.SetOnlineStatus | libkopete/kopetecontact.cpp:172-208 | any report, with the whole cascade it sets off, leaves every metacontact's cache exact; one that compares equal to the present status is dropped, one of a contact of a disconnected account is kept and changes no cache; the registered contacts all hold Offline, or a status that compares equal to it, when the account's own contact goes offline, and hold what they held after every other report of it |
| ContactGraph.Account.SlotOnlineStatusChanged | libkopete/kopeteaccount.cpp:540-582 | once the cascade is over all caches are exact; going offline each registered contact holds Offline, or a status that compares equal to it, and otherwise what it held |
| ContactGraph.Account.SetAllContactsStatus | libkopete/kopeteaccount.cpp:612-627 | every registered contact takes the status unless it compares equal, in whatever order, with exact caches throughout |
| ContactGraph.Account.SetMyself | libkopete/kopeteaccount.cpp:524-538 | with exact caches before, they are exact afterwards if and only if the metacontact listing the contact already caches what its children show once the report is unmasked, or is re-announced to |
| ContactGraph.AppointmentFits | libkopete/kopeteaccount.cpp:524-538 | that condition, for the metacontacts that list the contact |
| ContactGraph.AppointmentKeepsCaches | libkopete/kopeteaccount.cpp:524-538 | an appointment can only put out of date the metacontact listing the contact, and, on a connected account, those listing the account's contacts |
| ContactGraph.Account.EmitIsConnectedChanged | libkopete/kopeteaccount.cpp:579-581 | once every contact has re-announced itself no cache is out of date |
| ContactGraph.Contact.SlotAccountIsConnectedChanged | libkopete/kopetecontact.cpp:244-255 | re-announcing repairs the cache of the metacontact that lists the contact |
| ContactGraph.ReportKeepsCaches | libkopete/kopetecontact.cpp:163-208 | a report can only put out of date the metacontact listing the contact, and, when it connects or disconnects the account, those listing the account's contacts |
| ContactGraph.MetaContact.SetDisplayName | libkopete/kopetemetacontact.cpp:599-638 | exactly the first other listed metacontact that has the new name and is not temporary is merged into this one, and nobody if there is none, if the name is empty or no news, or while this one is temporary or being loaded; no contact loses its metacontact |
| ContactGraph.MetaContact.AbsorbLoop | libkopete/kopetemetacontact.cpp:618-621 | the merge loop ends, moves every contact once and in order, and the emptied metacontact leaves the list |
| ContactGraph.MetaContact.MoveToGroup | libkopete/kopetemetacontact.cpp:938-976 | refines Placement.MoveTo, which MoveLeaves, MoveRefused and MoveAdds decide |
| ContactGraph.MetaContact.RemoveFromGroup | libkopete/kopetemetacontact.cpp:978-998 | refines Placement.RemoveFrom |
| ContactGraph.MetaContact.AddToGroup | libkopete/kopetemetacontact.cpp:1000-1024 | refines Placement.AddTo |
| ContactGraph.MetaContact.SetTemporary | libkopete/kopetemetacontact.cpp:1112-1129 | refines Placement.SetTemporary and keeps the grouping invariant |
| ContactGraph.ContactList.AddMetaContact | libkopete/kopetecontactlist.cpp:231-245 | lists a metacontact once |
| ContactGraph.ContactList.RemoveMetaContact | libkopete/kopetecontactlist.cpp:247-270 | a listed metacontact leaves list and selection and its contacts are told to delete themselves; an unlisted one is left alone |
| ContactGraph.ContactList.MergeMetaContacts | libkopete/kopetecontactlist.cpp:272-287 | refines Rewiring's MergeAll and keeps links and caches |
| ContactGraph.ContactList.Members | libkopete/kopetegroup.cpp:105-115 | the listed metacontacts that are in the group, in list order |
| ContactGraph.ContactList.RemoveGroup | libkopete/kopetecontactlist.cpp:305-329 | refines Rewiring's RemoveGroup and keeps links and grouping |
| ContactGraph.AccountManager.RemoveAccountInternal | libkopete/kopeteaccountmanager.cpp:470-508 | it crashes exactly when the account at the head of the queue has been deleted already or a contact registered with it has no metacontact; an account that is connected again stays; any other goes as Rewiring's TakeAllAway and Bury say, with links, caches and grouping kept exactly if each of its contacts was registered or its own, and nobody lists a contact of it exactly if nobody listed a further one |
| ContactGraph.AccountManager.RemoveAccount | libkopete/kopeteaccountmanager.cpp:333-347 | an account that agrees is queued when not connected, once more if it is queued already, and waited for when connected |
| ContactGraph.AccountManager.RemoveAccountConnectedChanged | libkopete/kopeteaccountmanager.cpp:457-468 | an account waited for is queued once it is offline, and waited for no more |
| ContactGraph.AccountManager.Erase | libkopete/kopeteaccount.cpp:137-151 | deleting an account, its registered contacts listed nowhere any more, takes its own contact off the list it is on and keeps links and caches exactly if no further contact was built for it |
| ContactGraph.AccountManager.ListsAfter | libkopete/kopeteaccountmanager.cpp:486-508 | after a removal every metacontact in existence lists what it listed, in order, less the account's registered contacts and its own |
| ContactGraph.AccountManager.RegisterAccount | libkopete/kopeteaccountmanager.cpp:249-269 | an account is registered once |
| ContactGraph.AccountManager.Reap | libkopete/kopeteaccountmanager.cpp:499-507 | an emptied metacontact goes, and its first group with it when it was the only member; the first group always exists |
| Rewiring.MergeConserves | libkopete/kopetemetacontact.cpp:614-626 | merging loses no contact and invents none |
| Rewiring.MergeAllConserves | libkopete/kopetecontactlist.cpp:272-287 | neither does merging any list of sources |
| Rewiring.MergeAllEmpties | libkopete/kopetecontactlist.cpp:272-287 | the sources end empty and no other list, no grouping and no group changes |
| Rewiring.MergeAllCollects | libkopete/kopetecontactlist.cpp:272-287 | the target keeps its contacts and gets each source's once, in order, repeated sources and itself included |
| Rewiring.MergeAllDelists | libkopete/kopetecontactlist.cpp:272-287 | exactly the sources that had contacts leave the list and the selection |
| Rewiring.ExpelAllIsRemoveGroup | libkopete/kopetecontactlist.cpp:305-329 | the member-by-member loop has the effect stated for the whole: exactly those only in the group go, the rest keep their other groups in order |
| Rewiring.ExpelAllPlaces | libkopete/kopetecontactlist.cpp:317-324 | each member is treated by the groups it had at the start, nobody else moves |
| Rewiring.RemoveGroupLeavesNobody | libkopete/kopetecontactlist.cpp:305-329 | afterwards nobody listed is in the group, it is neither listed nor selected, and the grouping invariant holds |
| Rewiring.RemoveEmptyGroup | libkopete/kopeteaccountmanager.cpp:501-506 | removing a group nobody is left in takes no metacontact |
| Rewiring.TopLevelStays | libkopete/kopetecontactlist.cpp:305-329 | whatever group is removed, the top level and those in it stay |
| Rewiring.TakeAllAwayLists | libkopete/kopeteaccountmanager.cpp:486-508 | after the loop every metacontact lists what it listed before, less the contacts taken away, which are those registered with the account, in order |
| Rewiring.RemovalLists | libkopete/kopeteaccountmanager.cpp:486-508 | once the account is deleted too, what dies with it is gone from every list and the rest is there in order |
| Rewiring.RemovalForgets | libkopete/kopeteaccountmanager.cpp:486-508 | none of some contacts is listed afterwards exactly if those of them that were listed die with the account |
| Rewiring.TakeAllAwayListing | libkopete/kopeteaccountmanager.cpp:486-508 | exactly the metacontacts all of whose contacts were registered with the account, and that had one, leave the list |
| Rewiring.TakeAllAwaySelected | libkopete/kopeteaccountmanager.cpp:486-508 | and they alone leave the selection |
| Rewiring.TakeAllAwayGroups | libkopete/kopeteaccountmanager.cpp:486-508 | a group goes, the top level excepted, exactly when all its listed members are emptied and it is the first group of the last of them to be; nobody changes groups, a selected group stays selected exactly if it stays, and no contact is told to delete itself |
| Rewiring.GoneGroupsAreLeft | libkopete/kopeteaccountmanager.cpp:499-507 | nobody still listed is in a group that went, and the top level never goes |
| Rewiring.ReapMeaning | libkopete/kopeteaccountmanager.cpp:499-507 | reaping drops the emptied metacontact and nobody else, whether or not its group goes |
| Rewiring.MoveConserves | libkopete/kopetecontact.cpp:429-462 | moving a contact leaves everybody else where they are listed; the contact is listed afterwards exactly if it moved to a metacontact |
| Placement.ApplyKeepsSound | libkopete/kopetemetacontact.cpp:938-1024 | one group operation keeps the group list non-empty, free of repetition and, for a temporary metacontact, exactly the Temporary group |
| Placement.FreshRunIsSound | libkopete/kopetemetacontact.cpp:938-1129 | so does every run of group operations on a new metacontact |
| Placement.LeavingEndsInTemporary | libkopete/kopetemetacontact.cpp:1116-1125 | the loop of setTemporary ends in the Temporary group alone |
| Placement.TemporaryStaysPut | libkopete/kopetemetacontact.cpp:938-1024 | only setTemporary can move a temporary metacontact |
| Placement.ClearingTheMark | libkopete/kopetemetacontact.cpp:1126-1128 | where clearing the mark leads, and the targets for which it stays in the Temporary group |
| Placement.AddThenRemove | libkopete/kopetemetacontact.cpp:978-1024 | removing a group undoes adding it exactly when the top level was not given up on the way |
| Placement.MoveThereAndBack | libkopete/kopetemetacontact.cpp:938-976 | moving to another group and back changes the order of the groups only |
| Placement.MoveLeaves | libkopete/kopetemetacontact.cpp:945-975 | moving from a group it is in leaves that one, unless it is the top level and the last, enters the target, last if new, and keeps the other groups in order |
| Placement.MoveRefused | libkopete/kopetemetacontact.cpp:945-962 | a move changes nothing exactly when source and target are the same, when the target is the Offline group and not held, or when it would only leave the top level as the last group |
| Placement.MoveAdds | libkopete/kopetemetacontact.cpp:938-944 | from nowhere, or a group it is not in, the target is added last, the top level given up and the rest kept in order |
| Placement.RemoveIsMoveOut | libkopete/kopetemetacontact.cpp:978-998 | removing a group is moving out of it to nowhere |
| Placement.ClearingInGroup | libkopete/kopetemetacontact.cpp:1126-1128 | clearing the mark of one in the Temporary group by hand moves it to the target, which the same two groups refuse |
| Placement.ClearingNoMark | libkopete/kopetemetacontact.cpp:1126-1128 | clearing a mark that is not set adds the target |
| ContactRuns.World.constructor | libkopete/kopetecontactlist.cpp:84-100 | the user's metacontact, an empty list and no accounts satisfy every invariant, and nothing lies in wait for a removal |
| ContactRuns.World.Perform | libkopete/kopetecontact.cpp:113-462 | one birth, appointment, move, merge, renaming, report, regrouping, destruction or removal ends as the state before says: with every invariant kept and done what it is for, or in a crash, or with a pointer left to follow that is gone; a step from a safe state ends well and in a safe one exactly if it is heedful; caches stay as exact as they were exactly if the step is fitting |
| ContactRuns.World.Run | libkopete/kopeteaccountmanager.cpp:470-508 | every sequence that ends well keeps every invariant; all steps but appointments are fitting, and all caches are exact afterwards if every appointment was |
| ContactRuns.World.RunHeedfully | libkopete/kopeteaccountmanager.cpp:333-508 | a caller who takes exactly the heedful steps never crashes and leaves no pointer to what is gone; without appointments every cache is exact afterwards |
| ContactRuns.World.HeedIsEnough | libkopete/kopeteaccountmanager.cpp:470-508 | a heedful step from a safe state ends well |
| ContactRuns.World.EveryReadIsSafe | libkopete/kopetecontact.cpp:163-170 | while the invariants hold no contact in existence, and none listed, belongs to a deleted account |
| ContactRuns.Play | libkopete/kopeteaccountmanager.cpp:470-508 | a run from the empty list that ends well keeps every invariant, and every cache is exact if all its appointments fit |
| ContactRuns.PlayHeedfully | libkopete/kopeteaccountmanager.cpp:333-508 | a heedful run from the empty list never crashes and leaves no pointer to what is gone |
| ContactRuns.DoTransfer | libkopete/kopetecontact.cpp:429-462 | a move keeps links, caches and every other contact's place; whoever is listed somewhere stays so, the moved contact exactly if it moved to a metacontact |
| ContactRuns.DoCreate | libkopete/kopetecontact.cpp:113-155 | building a contact, with a parent or without, keeps the invariants |
| ContactRuns.DoDestroy | libkopete/kopetemetacontact.cpp:1031-1034 | so does destroying one, exactly if it is not its account's own |
| ContactRuns.DoRemoveNext | libkopete/kopeteaccountmanager.cpp:470-508 | so does removing the next account exactly if it leaves no contact behind, unless it crashes, exactly as said for RemoveAccountInternal; accounts in the queue stay alive or can be seen to be deleted |
| ContactRuns.CrashAfterBirth | libkopete/kopetecontact.cpp:134-139 | a contact constructed without a metacontact makes the removal of its account crash |
| ContactRuns.CrashAfterTransfer | libkopete/kopetecontact.cpp:429-462 | so does any registered contact moved to no metacontact |
| ContactRuns.CrashQueuedTwice | libkopete/kopeteaccountmanager.cpp:333-477 | an account asked twice to be removed: the first removal goes well, the second looks at the deleted account |
| ContactRuns.LeftBehind | libkopete/kopetecontact.cpp:163-170 | a contact built with a taken id and moved: after the removal of its account a metacontact lists it, and cannot be read |
| ContactRuns.FirstAppointment | libkopete/kopeteaccount.cpp:524-538 | the first account's own contact, appointed before it reports, leaves the caches exact if and only if the account's offline status is of type Unknown |
| OnlineStatuses.AboveIsStrictWeakOrder | libkopete/kopeteonlinestatus.cpp:216-231 | operator> is a strict weak order, with ties exactly at equal status and weight |
| OnlineStatuses.TypesDecideFirst | libkopete/kopeteonlinestatus.cpp:216-295 | the seven types in order decide before the weight, and the last four of them count as online |
| OnlineStatuses.SameButForType | libkopete/kopeteonlinestatus.cpp:200-209 | operator== holds exactly between statuses that differ in their type only |
| PreferredContact.Preferred | libkopete/kopetemetacontact.cpp:341-395 | the first best of the candidates by status, account priority and weight; nothing exactly when there is no candidate |
| PreferredContact.PlainCases | libkopete/kopetemetacontact.cpp:341-395 | when reachable children are connected, the candidates are the reachable ones, or the reachable ones with a session if the first of those is reachable |
| PreferredContact.FirstBestMeans | libkopete/kopetemetacontact.cpp:372-391 | the choice has no candidate above it by type, then account priority, then weight, and is the first such |
| PreferredContact.RescuedChoice | libkopete/kopetemetacontact.cpp:341-395 | behind an unreachable first session, the choice is the first usable child that beats it or a usable one with a session after that |
| PreferredContact.UnreachableChoice | libkopete/kopetemetacontact.cpp:341-395 | the choice is unreachable exactly when the first child with a session is, and nothing usable after it beats it |
| HandlerChain.Create | libkopete/kopetemessagehandlerchain.cpp:57-108 | the chain is the handlers in order with one terminator at the end, linked, acyclic |
| HandlerChain.OrderIsStable | libkopete/kopetemessagehandlerchain.cpp:67-96 | that order has exactly the created handlers, lower positions first, ties as registered |
| HandlerChain.OrderIsDistinct | libkopete/kopetemessagehandlerchain.cpp:67-96 | no handler stands in a chain twice |
| HandlerChain.AppendInserts | libkopete/kopetemessagehandlerchain.cpp:77-80 | appending to the bucket of a position is one insertion of a stable sort |
| HandlerChain.KeptConcat | libkopete/kopetemessagehandlerchain.cpp:67-96 | the made handlers keep the order in which their factories were registered |
| HandlerChain.Destroy | libkopete/kopetemessagehandlerchain.cpp:116-127 | taking down a chain deletes every handler once, in order |
| MessageHandlers.MessageHandler.HandleMessageInternal | libkopete/kopetemessagehandler.cpp:59-68 | on the heap, handing an event to a handler follows the pure walk, which stops where DeliverStops says, and a walk that ends releases the session |
| MessageHandlers.MessageHandler.MessageAccepted | libkopete/kopetemessagehandler.cpp:70-74 | so does a handler's acceptance |
| MessageHandlers.MessageEvent.DoAccept | libkopete/kopetemessageevent.cpp:90-93 | emitting accepted calls the receivers connected at that moment; there is one, and the event moves on |
| MessageHandlers.MessageEvent.Destroy | libkopete/kopetemessageevent.cpp:51-56 | ending an event emits done once, and its task lets go of the session |
| MessageHandlers.DeliverOk | libkopete/kopetemessagehandler.cpp:59-74 | a handed-on event stops at exactly one handler strictly further along, or is thrown away by the terminator; next is never missing |
| MessageHandlers.DeliverStops | libkopete/kopetemessagehandler.cpp:59-63 | it is alive exactly if a handler from there on decides in its own time: connected to the first such one, having been with all before it; otherwise it has been with all and is over |
| MessageHandlers.AcceptReaches | libkopete/kopetemessagehandler.cpp:70-74 | acceptance takes it to the next handler that decides, or past all to its end |
| MessageHandlers.MessageEvent.Start | libkopete/kopetemessagehandlerchain.cpp:166-169 | a started event waits at the first handler of the chain that decides, or is over |
| MessageHandlers.AcceptOk | libkopete/kopetemessagehandler.cpp:70-74 | acceptance takes an event in flight strictly further and leaves it connected to one handler, or over |
| MessageHandlers.AcceptingEnds | libkopete/kopetemessagehandlerchain.cpp:32-36 | as many acceptances as handlers are left end an event, with done emitted once |
| MessagePipeline.RunSound | libkopete/kopetemessagehandlerchain.cpp:156-181 | in every interleaving each event is with at most one handler, done is emitted exactly by those that are over, and every session's count is accounted for, even if handlers change a message's session |
| MessagePipeline.RunMovesOn | libkopete/kopetemessagehandler.cpp:59-74 | in every interleaving an event's visits grow along its own chain and a finished event never changes again |
| MessagePipeline.StepMovesOn | libkopete/kopetemessagehandler.cpp:59-74 | starting an event, and accepting one in flight, takes it strictly further; no step disturbs another event |
| MessagePipeline.RefcountIsExact | libkopete/kopetechatsession.cpp:613-632 | if messages keep their session, the count is the outside references plus the unfinished tasks, in every run |
| MessagePipeline.ScheduledWithWork | libkopete/kopetechatsession.cpp:613-690 | then a step schedules a session that has a reference or an unfinished task exactly when it destroys the session's last member or its user |
| MessagePipeline.BereavedWithWork | libkopete/kopetechatsession.cpp:667-682 | an event posted, then the only member destroyed: the session is scheduled with the task unfinished |
| MessagePipeline.StartComesTooLate | libkopete/kopetemessagehandlerchain.cpp:156-174 | over any run, a queued event is gone without having been started exactly when the first thing to touch it is its destruction |
| MessagePipeline.WhereAnEventIs | libkopete/kopetemessagehandler.cpp:59-74 | in every interleaving, an event started and accepted n times since, and not destroyed, is at the n+1-st handler that decides, having been with all before it, or over if there are not so many |
| MessagePipeline.WrongSessionReleased | libkopete/kopetemessagehandlerchain.cpp:156-181 | an event whose message is given another session: the first keeps the reference, the count of the other wraps |
| SessionLifetime.ScheduledExactlyWhen | libkopete/kopetechatsession.cpp:613-690 | an operation schedules deletion exactly when it is the destruction of the last member or of the user, or a deref, setCanBeDeleted(true) or closing of the view that leaves no reference, no view and permission |
| SessionLifetime.HeldUpButBereaved | libkopete/kopetechatsession.cpp:667-690 | a session with a reference, a view or no permission is scheduled exactly by the destruction of the last member or of the user |
| SessionLifetime.LastConditionSchedules | libkopete/kopetechatsession.cpp:613-656 | the call that makes the last of these true schedules it, unless it is a ref that wraps the counter |
| SessionLifetime.HeldUpThenScheduled | libkopete/kopetechatsession.cpp:613-656 | over any run without such a wrap, a session that was held up and no longer is has been scheduled |
| SessionLifetime.HistoryDecides | libkopete/kopetechatsession.cpp:613-656 | after any run the count is the refs less the derefs modulo the counter, there is a view exactly if one was made and not destroyed since, and deletion is allowed as was last said |
| SessionLifetime.ChatSession.DoSetCanBeDeleted | libkopete/kopetechatsession.cpp:613-619 | refines the lifetime step, with the unsigned comparison |
| SessionLifetime.ChatSession.DoDeref | libkopete/kopetechatsession.cpp:626-632 | refines the lifetime step |
| SessionLifetime.ChatSession.SlotViewDestroyed | libkopete/kopetechatsession.cpp:650-656 | refines the lifetime step |
| SessionLifetime.ChatSession.CreateView | libkopete/kopetechatsession.cpp:634-648 | refines the lifetime step; a view is made only if there is none |
| SessionLifetime.ChatSession.SlotContactDestroyed | libkopete/kopetechatsession.cpp:667-682 | refines the lifetime step |
| SessionLifetime.ChatSession.SlotMyselfDestroyed | libkopete/kopetechatsession.cpp:684-690 | refines the lifetime step |
| MemberOrder.LessThanIsTotalOrder | libkopete/chatsessionmemberslistmodel.cpp:23-27 | the non-strict comparator is a total order on keys |
| MemberOrder.GetInsertIndex | libkopete/chatsessionmemberslistmodel.cpp:73-98 | the binary search finds the upper bound in a sorted list |
| MemberOrder.MapInsertAdds | libkopete/chatsessionmemberslistmodel.cpp:57-65 | with this comparator a tree insertion never takes two contacts for one, and puts the new one behind its ties |
| MemberOrder.InsertMultiple | libkopete/chatsessionmemberslistmodel.cpp:57-70 | the bulk insertion is the stable sort of old and new, for any rebalancing of the tree |
| MemberOrder.StableSortIsStableSort | libkopete/chatsessionmemberslistmodel.cpp:57-70 | that sort is sorted, loses nobody, and keeps equal keys in order |
| MemberOrder.SortedTiesUnique | libkopete/chatsessionmemberslistmodel.cpp:57-70 | no other arrangement has these properties |
| MemberOrder.SortingIsPuttingOneByOne | libkopete/chatsessionmemberslistmodel.cpp:57-98 | bulk insertion into a sorted list equals inserting one by one at getInsertIndex |
| MembersModel.StepKeepsGood | libkopete/chatsessionmemberslistmodel.cpp:211-253 | an announced event keeps the list sorted, free of repetition, within members and user, with at most one member hidden; an announced event changes the sort key of the contact it names and of no other one shown |
| MembersModel.RunKeepsGood | libkopete/kopetechatsession.cpp:438-531 | so does every run of announced events, which change one sort key at a time |
| MembersModel.AttachIsGood | libkopete/chatsessionmemberslistmodel.cpp:119-150 | the list first shown is sorted, and every member is on it |
| MembersModel.RepositionSorts | libkopete/chatsessionmemberslistmodel.cpp:234-253 | whatever the keys have become, re-announcing a contact leaves the list sorted exactly when the rest of it is in order |
| MembersModel.RoundSorts | libkopete/kopetecontact.cpp:244-255 | a sequence of re-announcements leaves it sorted exactly when, at the turn of one of them, the rest of the list is in order |
| MembersModel.EverySequenceSorts | libkopete/kopetecontact.cpp:244-255 | every sequence of re-announcements of shown contacts, a single one included, sorts the list exactly when it is in order without any one of the shown; from three shown on, exactly when it is in order |
| Rounds.FullRoundSorts | libkopete/kopetecontact.cpp:244-255 | when all whose keys changed announce themselves once each, the list ends sorted exactly when each, at its turn, lands right with respect to those with no announcement to come |
| Rounds.CascadeSorts | libkopete/kopetecontact.cpp:163-255 | the same for a run of the state machine: any change of many keys at once, then the announcements |
| Rounds.EveryFullRoundSorts | libkopete/kopetecontact.cpp:244-255 | being in order without any one of the announced is enough, whatever the order of the announcements |
| Rounds.ThreeAreSorted | libkopete/kopetecontact.cpp:244-255 | a round of all sorts a list of three or fewer, whatever order it was in |
| Rounds.NotNecessary | libkopete/kopetecontact.cpp:244-255 | so being in order without any one of them is not necessary |
| Disconnection.CascadeUnsorts | libkopete/kopetecontact.cpp:163-170 | a disconnection with four shown and a round of re-announcements that end unsorted |
| MembersModel.RemoveKeepsGood | libkopete/kopetechatsession.cpp:499-531 | a removed member leaves the list at once, but stays a member exactly if it was the last |
| MembersModel.AddingTheUser | libkopete/kopetechatsession.cpp:446-497 | adding keeps the list good exactly when the newcomer is not the user |
| MembersModel.StrangersStatus | libkopete/kopetechatsession.cpp:135-142 | a session status keeps the list good exactly for members and the user |
| MembersModel.RenamingTheUser | libkopete/kopetechatsession.cpp:104-112 | the user's name is not listened to: after a rename the list is good exactly when the two neighbours still fit |
| MembersModel.AddingAgainWithStatus | libkopete/kopetechatsession.cpp:438-444 | the same for adding a member again with an initial status |
| MembersModel.AddedBack | libkopete/kopetechatsession.cpp:446-531 | a member removed and added again is a member, and is shown exactly if it was not the only one |
| MembersModel.StatusHeld | libkopete/kopetechatsession.cpp:135-142 | a status is held for a contact exactly from when it is set, or given while none is held, until the contact is removed |
| MembersModel.MembersAfter | libkopete/kopetechatsession.cpp:438-531 | who is a member after each event, when the session counts as empty, and when it closes |
| MembersModel.NamesAndStatusesAfter | libkopete/chatsessionmemberslistmodel.cpp:211-253 | whose own status and name an event changes, and to what |
| ChatRoom.ChatSessionMembersListModel.SetChatSession | libkopete/chatsessionmemberslistmodel.cpp:119-150 | refines the Attach step |
| ChatRoom.ChatSessionMembersListModel.SlotContactChanged | libkopete/chatsessionmemberslistmodel.cpp:234-253 | taken out once and put back where the search ends |
| ChatRoom.ChatSession.constructor | libkopete/kopetechatsession.cpp:79-113 | a new session is the others added one by one |
| ChatRoom.ChatSession.AddContact | libkopete/kopetechatsession.cpp:446-497 | refines the Add step, replacing the kept contact of an empty session |
| ChatRoom.ChatSession.AddContactWithStatus | libkopete/kopetechatsession.cpp:438-444 | refines the AddWithStatus step |
| ChatRoom.ChatSession.RemoveContact | libkopete/kopetechatsession.cpp:499-531 | refines the Remove step |
| ChatRoom.ChatSession.SlotContactDestroyed | libkopete/kopetechatsession.cpp:667-682 | refines the Destroyed step |
| ChatRoom.ChatSession.SlotOnlineStatusChanged | libkopete/kopetechatsession.cpp:129-133 | refines the Reannounce step |
| ChatRoom.ChatSession.ContactReports | libkopete/kopetecontact.cpp:172-208 | a single contact's report, with its announcement, refines the OwnStatus step |
| ChatRoom.ChatSession.ContactsChange | libkopete/kopetecontact.cpp:163-170 | the masking or unmasking of all of an account's contacts refines the Rekey step |
| ChatRoom.ChatSession.SetContactOnlineStatus | libkopete/kopetechatsession.cpp:135-142 | refines the SessionStatus step |
| ChatRoom.ChatSession.SlotDisplayNameChanged | libkopete/kopetechatsession.cpp:729-733 | refines the Rename step |
| ChatRoom.SessionRunIsGood | libkopete/kopetechatsession.cpp:79-113 | from any new session without the user among the others, every run of announced events, which change one sort key at a time, keeps the list good |
| MessageText.Unescape | libkopete/kopetemessage.cpp:301-357 | the stripping loop ends on every input, with the result given by the one-pass functions |
| MessageText.Stripped | libkopete/kopetemessage.cpp:308-345 | after stripping no opening bracket has a closing one after it |
| MessageText.StripOne | libkopete/kopetemessage.cpp:308-345 | each pass shortens the text, also when an image title puts brackets back |
| Elements.LineEnds | libkopete/kopetemessage.cpp:335-339 | the end of a paragraph or of a division, and a break, in any letter case and with any attributes, becomes a newline |
| Elements.PlainLineEnds | libkopete/kopetemessage.cpp:335-339 | so do the bare tags |
| Elements.OthersVanish | libkopete/kopetemessage.cpp:340-344 | an element of any other name, images aside, leaves nothing |
| Elements.TitleStays | libkopete/kopetemessage.cpp:319-334 | an image leaves the text of its first title |
| Elements.UnclosedVanishes | libkopete/kopetemessage.cpp:322-326 | one whose title is not closed leaves nothing |
| Elements.UntitledVanishes | libkopete/kopetemessage.cpp:322-326 | nor does one without a title |
| TextRoundTrip.RoundTrip | libkopete/kopetemessage.cpp:301-372 | unescape undoes escape exactly on the texts that RoundTrips accepts |
| TextRoundTrip.EntitiesOfTokens | libkopete/kopetemessage.cpp:347-354 | the entity replacements, in their order, decode escaped text token by token |
| TextRoundTrip.EscapeIsHtml | libkopete/kopetemessage.cpp:359-372 | the replacements of escape amount to one pass from left to right |
| TextRoundTrip.EscapeSpells | libkopete/kopetemessage.cpp:359-372 | what escape writes for each character, and for two white-space characters in a row |
| Commands.Command.ProcessCommand | libkopete/kopetecommand.cpp:96-137 | ends for any alias table, cyclic ones included, with the effect of AfterCommand |
| Commands.CommandHandler.ProcessMessage | libkopete/kopetecommandhandler.cpp:204-234 | ends, with the effect of AfterMessage |
| Commands.AfterMessage | libkopete/kopetecommandhandler.cpp:204-234 | a message leaves the global flag and every command's processing flag as they were |
| Commands.AfterCommand | libkopete/kopetecommand.cpp:96-137 | so does a command, typed or from the menu |
| Commands.TypedLine | libkopete/kopetecommandhandler.cpp:204-234 | whatever the aliases, a typed line runs no command twice and at most one that is no alias |
| Commands.MessageIsOneLine | libkopete/kopetecommandhandler.cpp:204-234 | what runs is a row of aliases, then nothing, one error, or one handler whose texts are all sent |
| Commands.MenuRunsTwo | libkopete/kopetecommand.cpp:81-94 | a handler started from the menu may run another one |
| Commands.MenuStart | libkopete/kopetecommand.cpp:81-137 | a handler accepted from the menu runs, and another one runs exactly when one of the texts it sends ends at an accepted command that is no alias |
| Commands.EndDecides | libkopete/kopetecommandhandler.cpp:204-234 | what a line comes to is decided by where its chain of aliases ends: a handler runs exactly at an accepted command that is no alias, nothing at all happens but aliases exactly at an unknown command |
| Commands.Swallowed | libkopete/kopetecommand.cpp:117-137 | a handled line runs no handler, sends nothing and prints no error exactly when its chain of aliases ends in a text that is no known command |
| Commands.AliasForNothing | libkopete/kopetecommand.cpp:117-137 | an alias for an unknown command: handled, with nothing to show for it |
| Commands.RunsOrFails | libkopete/kopetecommand.cpp:96-115 | a command runs exactly if it is not being processed, gets as many arguments as it asks for and is allowed; otherwise the only news is the error of the first of these that fails |
| Commands.TypedCommand | libkopete/kopetecommandhandler.cpp:204-234 | a typed command that is no alias runs, and what its handler sends is sent, commands or not |
| Commands.TypedAlias | libkopete/kopetecommand.cpp:117-137 | a typed alias runs, and then the command its text names, on the arguments that follow there |
| Commands.SplitMeans | libkopete/kopetecommandhandler.cpp:209-217 | which lines are split, and into what |
| Commands.SplitJoined | libkopete/kopetecommandhandler.cpp:209-217 | a slash, a word, a space and any text come apart into the word and the text |
| Commands.CommandHandler.CommandsFor | libkopete/kopetecommandhandler.cpp:475-506 | the commands in force |
| Commands.AddCommands | libkopete/kopetecommandhandler.cpp:508-517 | merging keeps what is there and takes the first newcomer of a name |
| Commands.Precedence | libkopete/kopetecommandhandler.cpp:475-506 | protocol before plugins before built-in, user aliases before system aliases before the rest |
| Commands.RankingIsMoot | libkopete/kopetecommandhandler.cpp:475-506 | names being unique in a dictionary, a name stands for the protocol's command, else the first plugin's, else the built-in one, whatever is an alias |
| StatusCategories.Choose | libkopete/kopeteonlinestatusmanager.cpp:87-125 | ends, with the first status of the nearest category on the path from the highest bit to the root |
| StatusCategories.OnlineStatusManager.RegisterOnlineStatus | libkopete/kopeteonlinestatusmanager.cpp:82-85 | a status goes to its place in its protocol's map, unless one alike in type and weight is there; other protocols keep theirs |
| StatusCategories.OnlineStatusManager.RegisterAll | libkopete/kopeteonlinestatusmanager.cpp:82-85 | after any registrations each protocol's map holds what its own registrations put there |
| StatusCategories.OnlineStatusManager.OnlineStatus | libkopete/kopeteonlinestatusmanager.cpp:87-125 | the climb over what the protocol has registered |
| StatusCategories.FirstOfATieStays | libkopete/kopeteonlinestatusmanager.cpp:36-85 | the map is in order and holds exactly the first registration of each status type and weight |
| StatusCategories.TiesAreUnordered | libkopete/kopeteonlinestatus.cpp:216-231 | two statuses are one key exactly when neither is below the other: when type and weight are equal |
| StatusCategories.Logarithm | libkopete/kopeteonlinestatusmanager.cpp:103-109 | the shifting loop finds the highest bit |
| StatusCategories.HighestBitIs | libkopete/kopeteonlinestatusmanager.cpp:103-109 | the highest bit is the number whose power of two is the largest not above the request |
| StatusCategories.BitShifts | libkopete/kopeteonlinestatusmanager.cpp:111-121 | the test of a category bit agrees with shifting the set |
| StatusCategories.PathHalves | libkopete/kopeteonlinestatusmanager.cpp:89-99 | the i-th category tried is the asked one halved i times, and never 0 from above 0 |
| StatusCategories.NeverOffline | libkopete/kopeteonlinestatusmanager.cpp:111-121 | a request above Offline is never answered through the Offline bit |
| StatusCategories.OnlineAnswersAll | libkopete/kopeteonlinestatusmanager.cpp:82-124 | every request above Offline is answered exactly if a registration that is the first of its type and weight is under Online |
| StatusCategories.TieHidesOnline | libkopete/kopeteonlinestatusmanager.cpp:82-124 | a status registered under Online after a tie that is not: the request for Online goes unanswered |
| StatusCategories.NearestIsOne | libkopete/kopeteonlinestatusmanager.cpp:111-124 | the nearest answer is unique |
| StatusCategories.LowestAnswers | libkopete/kopeteonlinestatusmanager.cpp:111-124 | of the kept statuses of the nearest category the lowest by type, then by weight, answers |
| Blend.BlendOnLower | libkopete/kopeteonlinestatusmanager.cpp:193-242 | every index is inside its image and every pixel becomes what Laid says of its old value |
| Blend.LaidMeans | libkopete/kopeteonlinestatusmanager.cpp:222-241 | unchanged outside and under transparency, replaced under opacity, every channel between the two sources |
| Blend.LaidWhere | libkopete/kopeteonlinestatusmanager.cpp:193-242 | which pixels change: those under the upper image laid with its corner at the given place, and none if that is outside |
| Blend.OverIsMean | libkopete/kopeteonlinestatusmanager.cpp:222-241 | each channel is the mean, rounded down, in which the lower pixel counts by its opacity times what the upper lets through |
| Blend.MeanIsBetween | libkopete/kopeteonlinestatusmanager.cpp:234-239 | the rounded mean lies between its values and the 8-bit cast changes nothing |
| Blend.FitsInt | libkopete/kopeteonlinestatusmanager.cpp:234-239 | no intermediate value leaves a 32-bit int |
| Reconnect.WaitsAreBounded | libkopete/kopeteaccount.cpp:188-214 | in any run the waits armed since the counter was zeroed are a function of the counter, and at most 64 min 20 s exactly until it wraps |
| Reconnect.TotalIsClosed | libkopete/kopeteaccount.cpp:203-209 | 20 s plus (n-2) squared minutes up to the tenth try |
| Reconnect.PendingAbsorbs | libkopete/kopeteaccount.cpp:194-202 | while a wait is pending a repeated report changes nothing, exactly unless it finds the network gone |
| Reconnect.GivesUp | libkopete/kopeteaccount.cpp:205-209 | after ten tries nothing is armed |
| Reconnect.AfterReport | libkopete/kopeteaccount.cpp:188-214 | when a report leaves a wait pending and how long, and when it counts as a try |
| Reconnect.AfterOthers | libkopete/kopeteaccount.cpp:638-644 | no other event does either; the end of a wait and of the suppression clear them |
| Reconnect.WaitsForNetwork | libkopete/kopeteaccount.cpp:165-214 | after any run the account waits for the network exactly if a loss of it, or a reset without it, came last, and no report that forgets it since |
| Reconnect.Account.DoDisconnected | libkopete/kopeteaccount.cpp:188-214 | refines the step |
| Reconnect.Account.SlotStopSuppression | libkopete/kopeteaccount.cpp:638-644 | refines the step: zeroed only when connected |

## Left out

- Display-name and photo tracking: the name source is custom throughout (libkopete/kopetemetacontact.cpp:179-211 re-enters merging otherwise).
- Groups are values by identity; a Temporary group created again after deletion is taken for the same one.
- Replacing the contact list's `myself` is not modelled.
- ContactGraph.Account.SetMyself: excludes a contact that is registered with the account, because its account would delete it twice; in a run that step ends `Broken`.
- What follows a step that ends `Broken` or `Crashed`: a run stops there. Destroying an account's own contact by itself is such a step.
- A metacontact taken off the list is flagged for deletion and stays in existence; its deferred destructor is not a step.
- ContactGraph.AccountManager.RegisterAccount: does not sort by priority or compare ids and identities, because nothing proved here depends on the order of accounts.
- DeleteContactTask, protocol plugins, serialisation and address-book synchronisation: a started task is a flag.
- Signals reach their receivers in one fixed order, synchronously; receivers outside the library core are not called.
- What a crash leaves behind: the contracts of an account removal that crashes say that it does, and no more.
- A task started on an event already destroyed does nothing in the model; MessagePipeline.StartComesTooLate says when a run comes to it.
- MembersModel.RunKeepsGood: leaves out the events that change several sort keys at once, because they can leave the list unsorted; Rounds.CascadeSorts says when they do not.
- ContactGraph.Account.SetAllContactsStatus: does not fix the order of the hash; the result holds for every order.
- Which chain a message gets (`chainForDirection`, `appendMessage`) and highlighting: a message is posted with its chain.
- `apply()` and `ignore()` of an event end it later through `deleteLater`: both are the Destroyed step, at any time.
- Handler capabilities, which are forwarded along the chain, and the registration of factories.
- The session's display name, its typing notices, and `reset()` of the model, which only refreshes views.
- Case folding of names is the caller's: a name is the folded text.
- Registering and unregistering commands while one runs: the dictionaries of a CommandHandler are fixed.
- Argument splitting and alias placeholders are arbitrary functions of the text; help, exec and the other built-in handlers are what they send.
- MessageText: a character is one code unit, and only ASCII letters of element names are lowered.
- Conversion of image formats before blending, bounding boxes, icons, and everything that is user interface, storage or network.
- Message caches, links, emoticons and pictures.
