/** Online statuses, their two orders and their equality (libkopete/kopeteonlinestatus.cpp). */
module OnlineStatuses {

  datatype StatusType = Unknown | Offline | Connecting | Invisible | Away | Busy | Online

  /** The enumerators' values; the source compares statuses by them. */
  function Rank(s: StatusType): nat {
    match s
    case Unknown => 0
    case Offline => 10
    case Connecting => 20
    case Invisible => 30
    case Away => 40
    case Busy => 45
    case Online => 50
  }

  /** A status. protocol is the identity of the protocol that defines it, 0 for none. */
  datatype OnlineStatus = OnlineStatus(
    status: StatusType,
    weight: nat,
    internalStatus: nat,
    protocol: nat,
    overlayIcons: seq<string>,
    description: string)
  {
    /** operator==: everything but the status type and the caption. */
    predicate Same(other: OnlineStatus) {
      && internalStatus == other.internalStatus
      && protocol == other.protocol
      && weight == other.weight
      && overlayIcons == other.overlayIcons
      && description == other.description
    }

    /** operator>. */
    predicate Above(other: OnlineStatus) {
      if status == other.status then weight > other.weight else Rank(status) > Rank(other.status)
    }

    predicate IsDefinitelyOnline() {
      status != Offline && status != Connecting && status != Unknown
    }
  }

  /** The status OnlineStatus(Offline) that a disconnecting account forces on its contacts. */
  const OFFLINE := OnlineStatus(Offline, 0, 0, 0, [], "Offline")

  /** The empty status, OnlineStatus(). */
  const EMPTY := OnlineStatus(Unknown, 0, 0, 0, ["status_unknown"], "")

  /** The types from the lowest to the highest. */
  const TYPES := [Unknown, Offline, Connecting, Invisible, Away, Busy, Online]

  /**
    Of two statuses the one of the later type is above the other, whatever they weigh; of the same type,
    the one of greater weight. Connecting is the last type that does not count as being online.
   */
  lemma TypesDecideFirst(a: OnlineStatus, b: OnlineStatus, i: nat, j: nat)
    requires i < |TYPES| && j < |TYPES| && a.status == TYPES[i] && b.status == TYPES[j]
    ensures a.Above(b) <==> i > j || (i == j && a.weight > b.weight)
    ensures Rank(a.status) > Rank(b.status) <==> i > j
    ensures a.IsDefinitelyOnline() <==> i > 2
  {
    assert TYPES[i] == TYPES[j] ==> i == j;
  }

  /** Two statuses compare equal exactly if they differ in their type only. */
  lemma SameButForType(a: OnlineStatus, b: OnlineStatus)
    ensures a.Same(b) <==> a == b.(status := a.status)
    ensures OFFLINE.status == Offline && EMPTY.status == Unknown
  {
  }

  /** operator> is a strict weak order whose ties are exactly equal status and weight. */
  lemma AboveIsStrictWeakOrder(a: OnlineStatus, b: OnlineStatus, c: OnlineStatus)
    ensures !a.Above(a)
    ensures a.Above(b) ==> !b.Above(a)
    ensures a.Above(b) && b.Above(c) ==> a.Above(c)
    ensures !a.Above(b) && !b.Above(a) <==> a.status == b.status && a.weight == b.weight
    ensures !a.Above(b) && !b.Above(c) ==> !a.Above(c)
  {
    assert forall x: StatusType, y: StatusType :: Rank(x) == Rank(y) ==> x == y;
  }
}
