/** The order of a chat's member list and the two ways it is built: a search tree and a binary search. */
module MemberOrder {
  import opened Basics

  /** A display name after case folding: the numbers QString::compare(…, Qt::CaseInsensitive) looks at. */
  type Name = seq<nat>

  datatype Key = Key(weight: int, name: Name)

  /** QString::compare(…) <= 0: code unit by code unit, a proper prefix first. */
  predicate NameNotAfter(a: Name, b: Name) {
    a == [] || (b != [] && (a[0] < b[0] || (a[0] == b[0] && NameNotAfter(a[1..], b[1..]))))
  }

  /** lessThan: heavier statuses first, then names; not strict, so a key is "less than" itself. */
  predicate LessThan(a: Key, b: Key) {
    a.weight > b.weight || (a.weight == b.weight && NameNotAfter(a.name, b.name))
  }

  lemma {:induction false} NamesOrdered(a: Name, b: Name)
    ensures NameNotAfter(a, b) || NameNotAfter(b, a)
    ensures NameNotAfter(a, b) && NameNotAfter(b, a) <==> a == b
  {
    if a != [] && b != [] {
      NamesOrdered(a[1..], b[1..]);
      assert a == [a[0]] + a[1..] && b == [b[0]] + b[1..];
    }
  }

  lemma {:induction false} NamesChain(a: Name, b: Name, c: Name)
    requires NameNotAfter(a, b) && NameNotAfter(b, c)
    ensures NameNotAfter(a, c)
  {
    if a != [] && a[0] == b[0] == c[0] {
      NamesChain(a[1..], b[1..], c[1..]);
    }
  }

  /** The comparator is a total order on keys: any two compare, and only equal keys compare both ways. */
  lemma LessThanIsTotalOrder(a: Key, b: Key, c: Key)
    ensures LessThan(a, b) || LessThan(b, a)
    ensures LessThan(a, b) && LessThan(b, a) <==> a == b
    ensures LessThan(a, b) && LessThan(b, c) ==> LessThan(a, c)
  {
    NamesOrdered(a.name, b.name);
    if LessThan(a, b) && LessThan(b, c) && a.weight == b.weight == c.weight {
      NamesChain(a.name, b.name, c.name);
    }
  }

  ghost predicate Sorted<C>(s: seq<C>, key: C -> Key) {
    forall i, j | 0 <= i < j < |s| :: LessThan(key(s[i]), key(s[j]))
  }

  /** The position after every entry not behind k and before every other one. */
  ghost predicate IsUpperBound<C>(s: seq<C>, key: C -> Key, k: Key, i: int) {
    && 0 <= i <= |s|
    && (forall j | 0 <= j < i :: LessThan(key(s[j]), k))
    && (forall j | i <= j < |s| :: !LessThan(key(s[j]), k))
  }

  /** Where halving the stretch of max entries from min ends. */
  function Halve<C>(s: seq<C>, key: C -> Key, k: Key, min: nat, max: nat): (i: nat)
    requires min + max <= |s|
    ensures min <= i <= min + max
    decreases max
  {
    if max == 0 then min
    else
      var step := max / 2;
      if LessThan(key(s[min + step]), k) then Halve(s, key, k, min + step + 1, max - (step + 1))
      else Halve(s, key, k, min, step)
  }

  /** Private::getInsertIndex */
  method GetInsertIndex<C>(s: seq<C>, key: C -> Key, contact: C) returns (min: nat)
    ensures min == Halve(s, key, key(contact), 0, |s|)
    ensures Sorted(s, key) ==> IsUpperBound(s, key, key(contact), min)
  {
    min := 0;
    var max := |s|;
    while max > 0
      invariant 0 <= max && min + max <= |s|
      invariant Halve(s, key, key(contact), min, max) == Halve(s, key, key(contact), 0, |s|)
    {
      var step := max / 2;
      var i := min + step;
      if LessThan(key(s[i]), key(contact)) {
        min := i + 1;
        max := max - (step + 1);
      } else {
        max := step;
      }
    }
    if Sorted(s, key) {
      HalvingFindsUpperBound(s, key, key(contact), 0, |s|);
    }
  }

  lemma {:induction false} HalvingFindsUpperBound<C>(s: seq<C>, key: C -> Key, k: Key, min: nat, max: nat)
    requires Sorted(s, key) && min + max <= |s|
    requires forall j | 0 <= j < min :: LessThan(key(s[j]), k)
    requires forall j | min + max <= j < |s| :: !LessThan(key(s[j]), k)
    ensures IsUpperBound(s, key, k, Halve(s, key, k, min, max))
    decreases max
  {
    if max > 0 {
      var i := min + max / 2;
      OneProbe(s, key, k, i);
      if LessThan(key(s[i]), k) {
        HalvingFindsUpperBound(s, key, k, i + 1, max - (max / 2 + 1));
      } else {
        HalvingFindsUpperBound(s, key, k, min, max / 2);
      }
      hide LessThan, Sorted;
    }
  }

  lemma OneProbe<C>(s: seq<C>, key: C -> Key, k: Key, i: nat)
    requires Sorted(s, key) && i < |s|
    ensures LessThan(key(s[i]), k) ==> forall j | 0 <= j <= i :: LessThan(key(s[j]), k)
    ensures !LessThan(key(s[i]), k) ==> forall j | i <= j < |s| :: !LessThan(key(s[j]), k)
  {
    forall j | 0 <= j < |s|
      ensures LessThan(key(s[i]), k) && j <= i ==> LessThan(key(s[j]), k)
      ensures !LessThan(key(s[i]), k) && i <= j ==> !LessThan(key(s[j]), k)
    {
      LessThanIsTotalOrder(key(s[j]), key(s[i]), k);
      LessThanIsTotalOrder(key(s[i]), key(s[j]), k);
    }
  }

  /** The list with a contact inserted where the binary search ends. */
  function Put<C>(s: seq<C>, x: C, key: C -> Key): seq<C> {
    var i := Halve(s, key, key(x), 0, |s|);
    s[..i] + [x] + s[i..]
  }

  /** On a sorted list the binary search inserts exactly where one insertion of the sort would. */
  lemma PutIsInsert<C>(s: seq<C>, x: C, key: C -> Key)
    requires Sorted(s, key)
    ensures Put(s, x, key) == Insert(s, x, key)
  {
    HalvingFindsUpperBound(s, key, key(x), 0, |s|);
    InsertAtUpperBound(s, x, key, Halve(s, key, key(x), 0, |s|));
  }

  function PutAll<C>(s: seq<C>, xs: seq<C>, key: C -> Key): seq<C>
    decreases xs
  {
    if xs == [] then s else PutAll(Put(s, xs[0], key), xs[1..], key)
  }

  /** The tree and the binary search agree: sorting old and new together is putting the new in one by one. */
  lemma SortingIsPuttingOneByOne<C>(s: seq<C>, xs: seq<C>, key: C -> Key)
    requires Sorted(s, key)
    ensures StableSort(s + xs, key) == PutAll(s, xs, key)
  {
    SortingExtendsSorted(s, xs, key);
    PutAllIsInsertAll(s, xs, key);
  }

  lemma {:induction false} PutAllIsInsertAll<C>(s: seq<C>, xs: seq<C>, key: C -> Key)
    requires Sorted(s, key)
    ensures PutAll(s, xs, key) == InsertAll(s, xs, key)
    decreases xs
  {
    if xs != [] {
      PutIsInsert(s, xs[0], key);
      InsertSorted(s, xs[0], key);
      PutAllIsInsertAll(Insert(s, xs[0], key), xs[1..], key);
    }
  }

  /** Insertion behind the last entry that is not behind the new one. */
  function Insert<C>(s: seq<C>, x: C, key: C -> Key): seq<C> {
    if s == [] then [x]
    else if LessThan(key(s[0]), key(x)) then [s[0]] + Insert(s[1..], x, key)
    else [x] + s
  }

  function InsertAll<C>(s: seq<C>, xs: seq<C>, key: C -> Key): seq<C>
    decreases xs
  {
    if xs == [] then s else InsertAll(Insert(s, xs[0], key), xs[1..], key)
  }

  /** Insertion sort: the arrangement both construction methods are compared with. */
  function StableSort<C>(xs: seq<C>, key: C -> Key): seq<C> {
    InsertAll([], xs, key)
  }

  /** Inserting at the upper bound is Insert. */
  lemma {:induction false} InsertAtUpperBound<C>(s: seq<C>, x: C, key: C -> Key, i: nat)
    requires Sorted(s, key) && IsUpperBound(s, key, key(x), i)
    ensures Insert(s, x, key) == s[..i] + [x] + s[i..]
  {
    if s != [] && i > 0 {
      InsertAtUpperBound(s[1..], x, key, i - 1);
      assert s[..i] == [s[0]] + s[1..][..i - 1];
      assert s[1..][i - 1..] == s[i..];
    }
  }

  lemma {:induction false} InsertSplits<C>(s: seq<C>, x: C, key: C -> Key) returns (i: nat)
    requires Sorted(s, key)
    ensures IsUpperBound(s, key, key(x), i)
    ensures Insert(s, x, key) == s[..i] + [x] + s[i..]
  {
    i := 0;
    while i < |s| && LessThan(key(s[i]), key(x))
      invariant 0 <= i <= |s|
      invariant forall j | 0 <= j < i :: LessThan(key(s[j]), key(x))
    {
      i := i + 1;
    }
    forall j | i <= j < |s| ensures !LessThan(key(s[j]), key(x)) {
      LessThanIsTotalOrder(key(s[i]), key(s[j]), key(x));
    }
    InsertAtUpperBound(s, x, key, i);
  }

  lemma InsertSorted<C>(s: seq<C>, x: C, key: C -> Key)
    requires Sorted(s, key)
    ensures Sorted(Insert(s, x, key), key)
    ensures multiset(Insert(s, x, key)) == multiset(s) + multiset{x}
  {
    var i := InsertSplits(s, x, key);
    var r := s[..i] + [x] + s[i..];
    assert s == s[..i] + s[i..];
    forall a, b | 0 <= a < b < |r| ensures LessThan(key(r[a]), key(r[b])) {
      if b == i || a == i {
        LessThanIsTotalOrder(key(r[a]), key(r[b]), key(x));
      } else {
        assert r[a] == s[if a < i then a else a - 1] && r[b] == s[if b < i then b else b - 1];
      }
    }
  }

  /** The entries with key k, in the order they stand in. */
  function Ties<C>(s: seq<C>, key: C -> Key, k: Key): seq<C> {
    if s == [] then [] else (if key(s[0]) == k then [s[0]] else []) + Ties(s[1..], key, k)
  }

  lemma {:induction false} TiesNone<C>(s: seq<C>, key: C -> Key, k: Key)
    requires forall c | c in s :: key(c) != k
    ensures Ties(s, key, k) == []
  {
    if s != [] {
      TiesNone(s[1..], key, k);
    }
  }

  /** A new entry goes behind the entries it ties with and disturbs no other tie. */
  lemma {:induction false} InsertTies<C>(s: seq<C>, x: C, key: C -> Key, k: Key)
    requires Sorted(s, key)
    ensures Ties(Insert(s, x, key), key, k) == Ties(s, key, k) + (if key(x) == k then [x] else [])
  {
    if s != [] && LessThan(key(s[0]), key(x)) {
      InsertTies(s[1..], x, key, k);
      var r := [s[0]] + Insert(s[1..], x, key);
      assert r[0] == s[0] && r[1..] == Insert(s[1..], x, key);
    } else {
      assert ([x] + s)[0] == x && ([x] + s)[1..] == s;
      if key(x) == k {
        forall c | c in s ensures key(c) != k {
          var j :| 0 <= j < |s| && s[j] == c;
          LessThanIsTotalOrder(key(s[0]), key(s[j]), key(x));
        }
        TiesNone(s, key, k);
      }
    }
  }

  lemma {:induction false} InsertAllSorted<C>(s: seq<C>, xs: seq<C>, key: C -> Key)
    requires Sorted(s, key)
    ensures Sorted(InsertAll(s, xs, key), key)
    ensures multiset(InsertAll(s, xs, key)) == multiset(s) + multiset(xs)
    decreases xs
  {
    if xs != [] {
      InsertSorted(s, xs[0], key);
      InsertAllSorted(Insert(s, xs[0], key), xs[1..], key);
      assert xs == [xs[0]] + xs[1..];
    }
  }

  lemma {:induction false} InsertAllTies<C>(s: seq<C>, xs: seq<C>, key: C -> Key, k: Key)
    requires Sorted(s, key)
    ensures Ties(InsertAll(s, xs, key), key, k) == Ties(s, key, k) + Ties(xs, key, k)
    decreases xs
  {
    if xs != [] {
      InsertSorted(s, xs[0], key);
      InsertTies(s, xs[0], key, k);
      InsertAllTies(Insert(s, xs[0], key), xs[1..], key, k);
      var head := if key(xs[0]) == k then [xs[0]] else [];
      assert Ties(xs, key, k) == head + Ties(xs[1..], key, k);
      assert InsertAll(s, xs, key) == InsertAll(Insert(s, xs[0], key), xs[1..], key);
      hide *;
      Associate(Ties(s, key, k), head, Ties(xs[1..], key, k));
    }
  }

  lemma Associate<C>(a: seq<C>, b: seq<C>, c: seq<C>)
    ensures (a + b) + c == a + (b + c)
  {
  }

  /** StableSort sorts, loses and invents nobody, and keeps entries with equal keys in order. */
  lemma StableSortIsStableSort<C>(xs: seq<C>, key: C -> Key)
    ensures Sorted(StableSort(xs, key), key)
    ensures multiset(StableSort(xs, key)) == multiset(xs)
    ensures forall k :: Ties(StableSort(xs, key), key, k) == Ties(xs, key, k)
  {
    InsertAllSorted([], xs, key);
    forall k ensures Ties(StableSort(xs, key), key, k) == Ties(xs, key, k) {
      InsertAllTies([], xs, key, k);
    }
  }

  lemma {:induction false} TiesHold<C>(s: seq<C>, key: C -> Key, k: Key)
    ensures Ties(s, key, k) != [] ==> exists j | 0 <= j < |s| :: key(s[j]) == k
  {
    if s != [] && key(s[0]) != k {
      TiesHold(s[1..], key, k);
      if Ties(s, key, k) != [] {
        var j :| 0 <= j < |s[1..]| && key(s[1..][j]) == k;
        assert key(s[j + 1]) == k;
      }
    }
  }

  lemma HeadIsFirst<C>(s: seq<C>, t: seq<C>, key: C -> Key)
    requires Sorted(s, key) && s != [] && t != []
    requires Ties(s, key, key(t[0])) == Ties(t, key, key(t[0]))
    ensures LessThan(key(s[0]), key(t[0]))
  {
    TiesHold(s, key, key(t[0]));
    var j :| 0 <= j < |s| && key(s[j]) == key(t[0]);
    LessThanIsTotalOrder(key(s[0]), key(s[j]), key(s[j]));
  }

  /** Sortedness and the order of equal keys leave only one arrangement. */
  lemma {:induction false} SortedTiesUnique<C>(s: seq<C>, t: seq<C>, key: C -> Key)
    requires Sorted(s, key) && Sorted(t, key)
    requires forall k :: Ties(s, key, k) == Ties(t, key, k)
    ensures s == t
  {
    assert t != [] ==> Ties(t, key, key(t[0])) != [];
    if s != [] {
      assert Ties(s, key, key(s[0])) == Ties(t, key, key(s[0]));
      assert t != [];
      HeadIsFirst(s, t, key);
      HeadIsFirst(t, s, key);
      LessThanIsTotalOrder(key(s[0]), key(t[0]), key(t[0]));
      assert Ties(s, key, key(s[0]))[0] == s[0] && Ties(t, key, key(s[0]))[0] == t[0];
      forall k ensures Ties(s[1..], key, k) == Ties(t[1..], key, k) {
        var head := if key(s[0]) == k then [s[0]] else [];
        assert Ties(s, key, k) == head + Ties(s[1..], key, k) == head + Ties(t[1..], key, k);
        assert (head + Ties(s[1..], key, k))[|head|..] == (head + Ties(t[1..], key, k))[|head|..];
      }
      SortedTiesUnique(s[1..], t[1..], key);
      assert s == [s[0]] + s[1..] && t == [t[0]] + t[1..];
    }
  }

  /** A list that is already sorted stays as it is, so sorting old and new is inserting the new into the old. */
  lemma SortingExtendsSorted<C>(s: seq<C>, xs: seq<C>, key: C -> Key)
    requires Sorted(s, key)
    ensures StableSort(s + xs, key) == InsertAll(s, xs, key)
  {
    StableSortIsStableSort(s + xs, key);
    InsertAllSorted(s, xs, key);
    forall k ensures Ties(StableSort(s + xs, key), key, k) == Ties(InsertAll(s, xs, key), key, k) {
      InsertAllTies(s, xs, key, k);
      TiesConcat(s, xs, key, k);
    }
    SortedTiesUnique(StableSort(s + xs, key), InsertAll(s, xs, key), key);
  }

  lemma {:induction false} TiesConcat<C>(s: seq<C>, t: seq<C>, key: C -> Key, k: Key)
    ensures Ties(s + t, key, k) == Ties(s, key, k) + Ties(t, key, k)
  {
    if s == [] {
      assert s + t == t;
    } else {
      TiesConcat(s[1..], t, key, k);
      assert (s + t)[1..] == s[1..] + t;
    }
  }

  // ---------- QMap with ContactWrapper keys ----------

  datatype Tree<C> = Leaf | Node(left: Tree<C>, item: C, right: Tree<C>)

  function InOrder<C>(t: Tree<C>): seq<C> {
    match t
    case Leaf => []
    case Node(l, x, r) => InOrder(l) + [x] + InOrder(r)
  }

  /** The node QMap::insert remembers as lastNode: the last one it left to the left. */
  function LastNode<C>(t: Tree<C>, x: C, key: C -> Key, last: Option<C>): Option<C> {
    match t
    case Leaf => last
    case Node(l, y, r) =>
      if !LessThan(key(y), key(x)) then LastNode(l, x, key, Some(y)) else LastNode(r, x, key, last)
  }

  function AddLeaf<C>(t: Tree<C>, x: C, key: C -> Key): Tree<C> {
    match t
    case Leaf => Node(Leaf, x, Leaf)
    case Node(l, y, r) =>
      if !LessThan(key(y), key(x)) then Node(AddLeaf(l, x, key), y, r) else Node(l, y, AddLeaf(r, x, key))
  }

  /** The value of the node found equivalent is overwritten. */
  function Overwrite<C(==)>(t: Tree<C>, found: C, x: C): Tree<C> {
    match t
    case Leaf => Leaf
    case Node(l, y, r) => Node(Overwrite(l, found, x), if y == found then x else y, Overwrite(r, found, x))
  }

  /** QMap::insert before rebalancing: a key found equivalent has its value replaced. */
  function MapInsert<C(==)>(t: Tree<C>, x: C, key: C -> Key): Tree<C> {
    var last := LastNode(t, x, key, None);
    if last.Some? && !LessThan(key(x), key(last.value)) then Overwrite(t, last.value, x)
    else AddLeaf(t, x, key)
  }

  lemma {:induction false} LastNodeIsBehind<C>(t: Tree<C>, x: C, key: C -> Key, last: Option<C>)
    requires last.Some? ==> !LessThan(key(last.value), key(x))
    ensures var r := LastNode(t, x, key, last); r.Some? ==> !LessThan(key(r.value), key(x))
  {
    match t
    case Leaf =>
    case Node(l, y, r) =>
      if !LessThan(key(y), key(x)) {
        LastNodeIsBehind(l, x, key, Some(y));
      } else {
        LastNodeIsBehind(r, x, key, last);
      }
  }

  lemma {:induction false} InsertIntoSplit<C>(a: seq<C>, y: C, b: seq<C>, x: C, key: C -> Key)
    requires Sorted(a + [y] + b, key)
    ensures Sorted(a, key) && Sorted(b, key)
    ensures Insert(a + [y] + b, x, key)
            == if LessThan(key(y), key(x)) then a + [y] + Insert(b, x, key) else Insert(a, x, key) + [y] + b
  {
    var s := a + [y] + b;
    assert forall i | 0 <= i < |a| :: s[i] == a[i];
    assert forall i | 0 <= i < |b| :: s[|a| + 1 + i] == b[i];
    if a == [] {
      assert s == [y] + b && s[1..] == b;
      assert a + [y] + b == [y] + b;
    } else {
      assert s[1..] == a[1..] + [y] + b;
      assert s[0] == a[0] && s[|a|] == y;
      InsertIntoSplit(a[1..], y, b, x, key);
      LessThanIsTotalOrder(key(a[0]), key(y), key(x));
      InsertSides(a, y, b, x, key);
    }
  }

  lemma InsertSides<C>(a: seq<C>, y: C, b: seq<C>, x: C, key: C -> Key)
    requires a != []
    ensures LessThan(key(a[0]), key(x)) ==>
              [a[0]] + (a[1..] + [y] + Insert(b, x, key)) == a + [y] + Insert(b, x, key)
              && [a[0]] + (Insert(a[1..], x, key) + [y] + b) == Insert(a, x, key) + [y] + b
    ensures !LessThan(key(a[0]), key(x)) ==> [x] + (a + [y] + b) == Insert(a, x, key) + [y] + b
  {
    assert a == [a[0]] + a[1..];
  }

  lemma {:induction false} AddLeafInOrder<C>(t: Tree<C>, x: C, key: C -> Key)
    requires Sorted(InOrder(t), key)
    ensures InOrder(AddLeaf(t, x, key)) == Insert(InOrder(t), x, key)
  {
    match t
    case Leaf =>
    case Node(l, y, r) =>
      InsertIntoSplit(InOrder(l), y, InOrder(r), x, key);
      if !LessThan(key(y), key(x)) {
        AddLeafInOrder(l, x, key);
      } else {
        AddLeafInOrder(r, x, key);
      }
  }

  /** Because the comparator is total and not strict, the map never takes two keys for one: every insertion adds. */
  lemma MapInsertAdds<C>(t: Tree<C>, x: C, key: C -> Key)
    requires Sorted(InOrder(t), key)
    ensures MapInsert(t, x, key) == AddLeaf(t, x, key)
    ensures InOrder(MapInsert(t, x, key)) == Insert(InOrder(t), x, key)
  {
    LastNodeIsBehind(t, x, key, None);
    var last := LastNode(t, x, key, None);
    if last.Some? {
      LessThanIsTotalOrder(key(last.value), key(x), key(x));
    }
    AddLeafInOrder(t, x, key);
  }

  /** Private::insertMultiple, for any rebalancing of the tree that keeps its order. */
  method InsertMultiple<C(==, !new)>(present: seq<C>, contacts: seq<C>, key: C -> Key, rebalance: Tree<C> -> Tree<C>)
    returns (r: seq<C>)
    requires forall t: Tree<C> :: InOrder(rebalance(t)) == InOrder(t)
    ensures r == StableSort(present + contacts, key)
  {
    var tree: Tree<C> := Leaf;
    var all := present + contacts;
    for i := 0 to |present|
      invariant InOrder(tree) == StableSort(all[..i], key)
    {
      InsertNext(tree, all, i, key);
      tree := rebalance(MapInsert(tree, present[i], key));
    }
    for i := 0 to |contacts|
      invariant InOrder(tree) == StableSort(all[..|present| + i], key)
    {
      InsertNext(tree, all, |present| + i, key);
      tree := rebalance(MapInsert(tree, contacts[i], key));
    }
    assert all[..|present| + |contacts|] == all;
    r := InOrder(tree);
  }

  lemma InsertNext<C>(t: Tree<C>, all: seq<C>, i: nat, key: C -> Key)
    requires i < |all| && InOrder(t) == StableSort(all[..i], key)
    ensures InOrder(MapInsert(t, all[i], key)) == StableSort(all[..i + 1], key)
  {
    StableSortIsStableSort(all[..i], key);
    MapInsertAdds(t, all[i], key);
    assert all[..i + 1] == all[..i] + [all[i]];
    InsertAllSnoc([], all[..i], all[i], key);
  }

  lemma {:induction false} InsertAllSnoc<C>(s: seq<C>, xs: seq<C>, x: C, key: C -> Key)
    ensures InsertAll(s, xs + [x], key) == Insert(InsertAll(s, xs, key), x, key)
    decreases xs
  {
    if xs == [] {
      assert ([x] + [])[1..] == [];
      assert xs + [x] == [x];
    } else {
      assert (xs + [x])[1..] == xs[1..] + [x];
      InsertAllSnoc(Insert(s, xs[0], key), xs[1..], x, key);
    }
  }
}
