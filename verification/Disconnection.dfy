/** An account loses its connection, and the member list is left unsorted for good. */
module Disconnection {
  import opened Lists
  import opened MemberOrder
  import opened MembersModel

  /** The user and three contacts of the user's account. */
  datatype Person = User | Ann | Ben | Cem

  function Number(p: Person): nat {
    match p
    case User => 0
    case Ann => 1
    case Ben => 2
    case Cem => 3
  }

  function Reported(): Person -> int {
    (p: Person) => if p == User then 0 else 4 - Number(p)
  }

  function Named(): Person -> Name {
    (p: Person) => [Number(p)]
  }

  function Contacts(): Person -> bool {
    (p: Person) => p != User
  }

  /** Contact::onlineStatus(): the contacts of an account that is not connected all weigh the same. */
  function Masked(reported: Person -> int, contacts: Person -> bool, offline: int): Person -> int {
    p => if contacts(p) then offline else reported(p)
  }

  /** Everybody online, sorted by status. */
  function Online(): Room<Person> {
    Room(User, [Ann, Ben, Cem], false, map[], Reported(), Named(), false, true, [Ann, Ben, Cem, User])
  }

  /** The account is gone: its contacts all weigh the same. */
  function Offline(shown: seq<Person>): Room<Person> {
    Online().(own := Masked(Reported(), Contacts(), 0), shown := shown)
  }

  /** The contacts announce themselves in the order they were built, the user last. */
  function Cascade(): seq<Event<Person>> {
    [Rekey(Masked(Reported(), Contacts(), 0)), Reannounce(Ben), Reannounce(Cem), Reannounce(Ann),
      Reannounce(User)]
  }

  /** A good list ends unsorted although everybody was announced. */
  lemma CascadeUnsorts()
    ensures Good(Online())
    ensures var q := Run(Online(), Cascade()); q.shown == [User, Ben, Ann, Cem] && !Sorted(q.shown, KeysOf(q))
  {
    hide *;
    OnlineIsGood();
    FirstStep();
    SecondStep();
    ThirdStep();
    FourthStep();
    FifthStep();
    CascadeSteps();
    EndIsUnsorted();
  }

  lemma OnlineIsGood()
    ensures Good(Online())
  {
    var r := Online();
    assert r.shown == [Ann, Ben, Cem, User] && r.members == [Ann, Ben, Cem];
  }

  lemma FirstStep()
    ensures Step(Online(), Cascade()[0]) == Offline([Ann, Ben, Cem, User])
  {
  }

  lemma SecondStep()
    ensures Step(Offline([Ann, Ben, Cem, User]), Reannounce(Ben)) == Offline([Ann, Ben, Cem, User])
  {
    hide Step;
    AnnouncedTo(Ben, [Ann, Ben, Cem, User], 1, 1, [Ann, Ben, Cem, User]);
  }

  lemma ThirdStep()
    ensures Step(Offline([Ann, Ben, Cem, User]), Reannounce(Cem)) == Offline([Ann, Ben, User, Cem])
  {
    hide Step;
    AnnouncedTo(Cem, [Ann, Ben, Cem, User], 2, 3, [Ann, Ben, User, Cem]);
  }

  lemma FourthStep()
    ensures Step(Offline([Ann, Ben, User, Cem]), Reannounce(Ann)) == Offline([Ben, User, Ann, Cem])
  {
    hide Step;
    AnnouncedTo(Ann, [Ann, Ben, User, Cem], 0, 2, [Ben, User, Ann, Cem]);
  }

  lemma FifthStep()
    ensures Step(Offline([Ben, User, Ann, Cem]), Reannounce(User)) == Offline([User, Ben, Ann, Cem])
  {
    hide Step;
    AnnouncedTo(User, [Ben, User, Ann, Cem], 1, 0, [User, Ben, Ann, Cem]);
  }

  lemma CascadeSteps()
    ensures Run(Online(), Cascade()) ==
            Step(Step(Step(Step(Step(Online(), Cascade()[0]), Reannounce(Ben)), Reannounce(Cem)), Reannounce(Ann)),
              Reannounce(User))
  {
    hide Step;
    var es := Cascade();
    var a, b, c, d := es[1..], es[2..], es[3..], es[4..];
    assert a[1..] == b && b[1..] == c && c[1..] == d && d[1..] == [];
    var s := Step(Step(Step(Step(Online(), es[0]), es[1]), es[2]), es[3]);
    assert Run(s, d) == Step(s, es[4]);
  }

  /** Offline the names decide. */
  lemma KeyWhenOffline(shown: seq<Person>, a: Person, b: Person)
    ensures LessThan(KeysOf(Offline(shown))(a), KeysOf(Offline(shown))(b)) <==> Number(a) <= Number(b)
  {
    assert [Number(a)][1..] == [] && [Number(b)][1..] == [] && NameNotAfter([], []);
    assert KeysOf(Offline(shown))(a) == Key(0, [Number(a)]) && KeysOf(Offline(shown))(b) == Key(0, [Number(b)]);
  }

  lemma EndIsUnsorted()
    ensures var q := Offline([User, Ben, Ann, Cem]);
            q.shown == [User, Ben, Ann, Cem] && !Sorted(q.shown, KeysOf(q))
  {
    var q := Offline([User, Ben, Ann, Cem]);
    KeyWhenOffline(q.shown, Ben, Ann);
    hide LessThan;
    assert q.shown[1] == Ben && q.shown[2] == Ann;
  }

  /** p stood at k; the search among the other three ends at i. */
  lemma AnnouncedTo(p: Person, before: seq<Person>, k: nat, i: nat, after: seq<Person>)
    requires |before| == 4 && k < 4 && before[k] == p && forall j | 0 <= j < k :: before[j] != p
    requires var rest := before[..k] + before[k + 1..];
             var n := Number(p);
             && i == (if Number(rest[1]) <= n then if Number(rest[2]) <= n then 3 else 2
                      else if Number(rest[0]) <= n then 1 else 0)
             && after == rest[..i] + [p] + rest[i..]
    ensures Step(Offline(before), Reannounce(p)) == Offline(after)
  {
    var rest := before[..k] + before[k + 1..];
    FirstAt(before, p, k);
    var q := Offline(before);
    HalveThree(rest, KeysOf(q), KeysOf(q)(p));
    KeyWhenOffline(before, rest[0], p);
    KeyWhenOffline(before, rest[1], p);
    KeyWhenOffline(before, rest[2], p);
    Belongs(q, p);
    hide LessThan, RemoveFirst, Halve, NameNotAfter;
  }

  lemma Belongs(q: Room<Person>, p: Person)
    requires q.members == [Ann, Ben, Cem] && q.myself == User
    ensures p in q.members || p == q.myself
  {
    assert q.members[0] == Ann && q.members[1] == Ben && q.members[2] == Cem;
  }

  lemma {:induction false} FirstAt(s: seq<Person>, p: Person, k: nat)
    requires k < |s| && s[k] == p && forall j | 0 <= j < k :: s[j] != p
    ensures RemoveFirst(s, p) == s[..k] + s[k + 1..]
  {
    if k > 0 {
      assert s[0] != p && s[1..][k - 1] == p;
      FirstAt(s[1..], p, k - 1);
      assert [s[0]] + s[1..][..k - 1] == s[..k] && s[1..][k..] == s[k + 1..];
    }
  }

  lemma HalveThree(s: seq<Person>, key: Person -> Key, k: Key)
    requires |s| == 3
    ensures Halve(s, key, k, 0, 3) ==
            if LessThan(key(s[1]), k) then if LessThan(key(s[2]), k) then 3 else 2
            else if LessThan(key(s[0]), k) then 1 else 0
  {
    assert Halve(s, key, k, 2, 1) == if LessThan(key(s[2]), k) then 3 else 2;
    assert Halve(s, key, k, 0, 1) == if LessThan(key(s[0]), k) then 1 else 0;
  }
}
