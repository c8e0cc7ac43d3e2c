/** First-seen de-duplication of a sequence (underscore's `_.uniq` on an unsorted list):
    keep the first occurrence of every element, in the order the elements first occur. */
module Dedup {

  /** No element occurs twice. */
  predicate Distinct<T(==)>(s: seq<T>)
  {
    forall i, j :: 0 <= i < j < |s| ==> s[i] != s[j]
  }

  /** The position of the first occurrence of `x` in `s`. */
  function FirstIndex<T(==)>(s: seq<T>, x: T): (i: nat)
    requires x in s
    ensures i < |s| && s[i] == x
    ensures forall j :: 0 <= j < i ==> s[j] != x
  {
    if s[0] == x then 0 else 1 + FirstIndex(s[1..], x)
  }

  /** Every element of `u` occurs in `s`, and `u` lists them by increasing first position in `s`. */
  predicate FirstSeenOrder<T(==,!new)>(u: seq<T>, s: seq<T>)
  {
    (forall x :: x in u ==> x in s) &&
    forall i, j :: 0 <= i < j < |u| ==> FirstIndex(s, u[i]) < FirstIndex(s, u[j])
  }

  /** `_.uniq(s)`: each element of `s` once, the first occurrence kept. */
  function Uniq<T(==,!new)>(s: seq<T>): (u: seq<T>)
    ensures forall x :: x in u <==> x in s
    ensures Distinct(u)
    decreases |s|
  {
    if |s| == 0 then []
    else
      var init := s[..|s| - 1];
      assert s == init + [s[|s| - 1]];
      var kept := Uniq(init);
      if s[|s| - 1] in kept then kept else kept + [s[|s| - 1]]
  }

  lemma DistinctTail<T>(s: seq<T>)
    requires Distinct(s) && |s| > 0
    ensures Distinct(s[1..]) && s[0] !in s[1..]
  {
    forall i, j | 0 <= i < j < |s| - 1
      ensures s[1..][i] != s[1..][j]
    {
      assert s[1..][i] == s[i + 1] && s[1..][j] == s[j + 1];
    }
    forall i | 0 <= i < |s| - 1
      ensures s[1..][i] != s[0]
    {
      assert s[1..][i] == s[i + 1];
    }
  }

  lemma DistinctCons<T>(x: T, s: seq<T>)
    requires Distinct(s) && x !in s
    ensures Distinct([x] + s)
  {
    forall i, j | 0 <= i < j < |s| + 1
      ensures ([x] + s)[i] != ([x] + s)[j]
    {
      assert ([x] + s)[j] == s[j - 1];
    }
  }

  /** Stated apart so that a refuted branch can name an element without indexing inside
      the contradiction itself. */
  lemma ElementIn<T>(u: seq<T>, i: nat)
    requires i < |u|
    ensures u[i] in u
  {
  }

  /** Appending elements never moves the first occurrence of an element already present. */
  lemma {:induction false} FirstIndexPrefix<T(!new)>(p: seq<T>, t: seq<T>, x: T)
    requires x in p
    ensures FirstIndex(p + t, x) == FirstIndex(p, x)
    decreases |p|
  {
    if p[0] != x {
      assert (p + t)[1..] == p[1..] + t;
      FirstIndexPrefix(p[1..], t, x);
    }
  }

  /** The first occurrence of an element of a duplicate-free sequence is its only one. */
  lemma FirstIndexDistinct<T(!new)>(s: seq<T>, i: nat)
    requires Distinct(s) && i < |s|
    ensures FirstIndex(s, s[i]) == i
  {
  }

  /** `Uniq` keeps the elements in the order of their first occurrence. */
  lemma {:induction false} UniqFirstSeen<T(!new)>(s: seq<T>)
    ensures FirstSeenOrder(Uniq(s), s)
    decreases |s|
  {
    if |s| > 0 {
      var init, last := s[..|s| - 1], s[|s| - 1];
      assert s == init + [last];
      UniqFirstSeen(init);
      var kept := Uniq(init);
      forall y | y in init
        ensures FirstIndex(s, y) == FirstIndex(init, y)
      {
        FirstIndexPrefix(init, [last], y);
      }
      if last !in kept {
        assert FirstIndex(s, last) == |s| - 1;
        var u := kept + [last];
        forall i, j | 0 <= i < j < |u|
          ensures FirstIndex(s, u[i]) < FirstIndex(s, u[j])
        {
          assert u[i] in init;
          if j < |kept| {
            assert u[j] in init;
          }
        }
      } else {
        forall i, j | 0 <= i < j < |kept|
          ensures FirstIndex(s, kept[i]) < FirstIndex(s, kept[j])
        {
          assert kept[i] in init && kept[j] in init;
        }
      }
    }
  }

  /** Dropping a trailing element of `s` keeps first-seen order for lists drawn from the rest. */
  lemma OrderWithoutLast<T(!new)>(init: seq<T>, last: T, u: seq<T>)
    requires FirstSeenOrder(u, init + [last])
    requires forall x :: x in u ==> x in init
    ensures FirstSeenOrder(u, init)
  {
    forall y | y in init
      ensures FirstIndex(init + [last], y) == FirstIndex(init, y)
    {
      FirstIndexPrefix(init, [last], y);
    }
  }

  /** The order fact for one pair, stated apart for the same reason as `ElementIn`. */
  lemma OrderAt<T(!new)>(u: seq<T>, s: seq<T>, i: int, j: int)
    requires FirstSeenOrder(u, s) && 0 <= i < j < |u|
    ensures u[i] in s && u[j] in s && FirstIndex(s, u[i]) < FirstIndex(s, u[j])
  {
  }

  /** An element first seen at the very end of `s` must come last in a first-seen-ordered list. */
  lemma NewestComesLast<T(!new)>(init: seq<T>, last: T, u: seq<T>)
    requires FirstSeenOrder(u, init + [last])
    requires last !in init && last in u
    ensures u[|u| - 1] == last
  {
    var s := init + [last];
    assert FirstIndex(s, last) == |s| - 1;
    var k :| 0 <= k < |u| && u[k] == last;
    if k < |u| - 1 {
      OrderAt(u, s, k, |u| - 1);
      assert false;
    }
  }

  /** When the last element of `s` is new, a first-seen-ordered list of the elements of `s`
      is a first-seen-ordered list of the elements before it, followed by that element. */
  lemma DropNewest<T(!new)>(init: seq<T>, last: T, u: seq<T>)
    requires Distinct(u)
    requires forall x :: x in u <==> x in init + [last]
    requires FirstSeenOrder(u, init + [last])
    requires last !in init
    ensures |u| > 0 && u == u[..|u| - 1] + [last]
    ensures Distinct(u[..|u| - 1])
    ensures forall x :: x in u[..|u| - 1] <==> x in init
    ensures FirstSeenOrder(u[..|u| - 1], init)
  {
    var s := init + [last];
    assert last in s;
    NewestComesLast(init, last, u);
    var v := u[..|u| - 1];
    assert u == v + [last];
    assert forall x :: x in v <==> x in init by {
      forall x | x in v
        ensures x in init
      {
        assert x in s && x != last;
      }
      forall x | x in init
        ensures x in v
      {
        assert x in u && x != last;
      }
    }
    assert FirstSeenOrder(v, s);
    OrderWithoutLast(init, last, v);
  }

  /** `Uniq` is the only duplicate-free sequence with exactly the elements of `s`
      listed in first-occurrence order. */
  lemma {:induction false} UniqCharacterised<T(!new)>(s: seq<T>, u: seq<T>)
    requires Distinct(u)
    requires forall x :: x in u <==> x in s
    requires FirstSeenOrder(u, s)
    ensures u == Uniq(s)
    decreases |s|
  {
    if |s| == 0 {
      if |u| > 0 {
        ElementIn(u, 0);
        assert false;
      }
    } else {
      var init, last := s[..|s| - 1], s[|s| - 1];
      assert s == init + [last];
      if last in init {
        assert forall x :: x in u <==> x in init;
        OrderWithoutLast(init, last, u);
        UniqCharacterised(init, u);
      } else {
        DropNewest(init, last, u);
        UniqCharacterised(init, u[..|u| - 1]);
      }
    }
  }
}
