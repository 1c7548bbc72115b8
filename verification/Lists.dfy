/** The few operations of QList the models share: removeAll, membership filters, uniqueness. */
module Lists {

  ghost predicate NoDup<T>(s: seq<T>) {
    forall i, j | 0 <= i < j < |s| :: s[i] != s[j]
  }

  /** QList::removeAll(x). */
  function Without<T(==)>(s: seq<T>, x: T): (r: seq<T>)
    ensures forall y | y in s :: y in r <==> y != x
    ensures forall y | y in r :: y in s && y != x
    ensures x !in s ==> r == s
    ensures |r| <= |s|
    ensures NoDup(s) ==> NoDup(r)
    ensures NoDup(s) && x in s ==> |r| == |s| - 1
  {
    if s == [] then []
    else
      assert s == [s[0]] + s[1..];
      assert NoDup(s) ==> NoDup(s[1..]) && s[0] !in s[1..];
      if s[0] == x then Without(s[1..], x) else [s[0]] + Without(s[1..], x)
  }

  /** What is left of s after removeAll of every element of xs. */
  ghost function Drop<T>(s: seq<T>, xs: set<T>): (r: seq<T>)
    ensures forall y | y in s :: y in r <==> y !in xs
    ensures forall y | y in r :: y in s && y !in xs
    ensures (forall y | y in s :: y !in xs) ==> r == s
    ensures |r| <= |s|
    ensures NoDup(s) ==> NoDup(r)
  {
    if s == [] then []
    else
      assert s == [s[0]] + s[1..];
      assert NoDup(s) ==> NoDup(s[1..]) && s[0] !in s[1..];
      if s[0] in xs then Drop(s[1..], xs) else [s[0]] + Drop(s[1..], xs)
  }

  /** Removing the elements of a set one at a time removes the set. */
  lemma {:induction false} DropOneMore<T>(s: seq<T>, xs: set<T>, x: T)
    ensures Without(Drop(s, xs), x) == Drop(s, xs + {x})
  {
    if s != [] {
      DropOneMore(s[1..], xs, x);
      if s[0] !in xs {
        assert Drop(s, xs) == [s[0]] + Drop(s[1..], xs);
        assert Drop(s, xs)[1..] == Drop(s[1..], xs);
      }
    }
  }

  lemma WithoutIsDrop<T>(s: seq<T>, x: T)
    ensures Without(s, x) == Drop(s, {x})
  {
    DropOneMore(s, {}, x);
    assert {} + {x} == {x};
  }

  /** Removing one set after another removes both. */
  lemma {:induction false} DropMore<T>(s: seq<T>, xs: set<T>, ys: set<T>)
    ensures Drop(Drop(s, xs), ys) == Drop(s, xs + ys)
  {
    if s != [] {
      DropMore(s[1..], xs, ys);
      if s[0] !in xs {
        assert Drop(s, xs) == [s[0]] + Drop(s[1..], xs);
        assert Drop(s, xs)[1..] == Drop(s[1..], xs);
      }
    }
  }

  /** Dropping depends only on which elements of the list are dropped. */
  lemma {:induction false} DropAgree<T>(s: seq<T>, xs: set<T>, ys: set<T>)
    requires forall y | y in s :: y in xs <==> y in ys
    ensures Drop(s, xs) == Drop(s, ys)
  {
    if s != [] {
      DropAgree(s[1..], xs, ys);
    }
  }

  /** A permutation has the same elements and as little repetition. */
  lemma SameElements<T>(s: seq<T>, t: seq<T>)
    requires multiset(s) == multiset(t)
    ensures forall c :: c in s <==> c in t
    ensures NoDup(s) ==> NoDup(t)
  {
    assert forall c :: c in s <==> c in multiset(s);
    assert forall c :: c in t <==> c in multiset(t);
    if NoDup(s) && !NoDup(t) {
      var i, j :| 0 <= i < j < |t| && t[i] == t[j];
      assert t == t[..i] + [t[i]] + t[i + 1..j] + [t[j]] + t[j + 1..];
      assert multiset(t)[t[i]] >= 2;
      Once(s, t[i]);
    }
  }

  lemma {:induction false} Once<T>(s: seq<T>, x: T)
    requires NoDup(s)
    ensures multiset(s)[x] <= 1
  {
    if s != [] {
      assert s == [s[0]] + s[1..];
      assert NoDup(s[1..]) && s[0] !in s[1..];
      Once(s[1..], x);
    }
  }
}
