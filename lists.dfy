/** Removing every occurrence of a value from a list, the abstraction of
    unlinking a node from one of the kernel's intrusive doubly linked lists,
    and the property that no node is linked twice. */
module Lists {

  /** No entry occurs twice. */
  ghost predicate NoDup<T>(list: seq<T>)
  {
    forall i, j :: 0 <= i < j < |list| ==> list[i] != list[j]
  }

  /** The list without x; every other entry kept, in its order. */
  function Without<T(==,!new)>(list: seq<T>, x: T): (r: seq<T>)
    ensures forall y :: y in r <==> y in list && y != x
    ensures |r| <= |list|
  {
    if list == [] then []
    else
      assert list == [list[0]] + list[1..];
      (if list[0] == x then [] else [list[0]]) + Without(list[1..], x)
  }

  /** Removal takes out every copy of x and leaves the count of every other value. */
  lemma {:induction false} WithoutCount<T(!new)>(list: seq<T>, x: T)
    ensures multiset(Without(list, x)) == multiset(list)[x := 0]
  {
    if list != [] {
      WithoutCount(list[1..], x);
      assert list == [list[0]] + list[1..];
    }
  }

  /** Removal distributes over concatenation, so it can be computed left to right. */
  lemma {:induction false} WithoutAppend<T(!new)>(a: seq<T>, b: seq<T>, x: T)
    ensures Without(a + b, x) == Without(a, x) + Without(b, x)
  {
    if a != [] {
      assert (a + b)[1..] == a[1..] + b;
      WithoutAppend(a[1..], b, x);
    } else {
      assert a + b == b;
    }
  }

  /** Removing a value that is not there changes nothing. */
  lemma {:induction false} WithoutAbsent<T(!new)>(list: seq<T>, x: T)
    requires x !in list
    ensures Without(list, x) == list
  {
    if list != [] {
      WithoutAbsent(list[1..], x);
      assert list == [list[0]] + list[1..];
    }
  }

  /** A value in front of a list without duplicates that does not contain it. */
  lemma NoDupCons<T>(x: T, list: seq<T>)
    requires NoDup(list) && x !in list
    ensures NoDup([x] + list)
  {
    var l := [x] + list;
    forall i, j | 0 <= i < j < |l| ensures l[i] != l[j] {
      assert l[j] == list[j - 1];
      if i > 0 {
        assert l[i] == list[i - 1];
      }
    }
  }

  /** A value behind a list without duplicates that does not contain it. */
  lemma NoDupSnoc<T>(list: seq<T>, x: T)
    requires NoDup(list) && x !in list
    ensures NoDup(list + [x])
  {
    var l := list + [x];
    forall i, j | 0 <= i < j < |l| ensures l[i] != l[j] {
      assert l[i] == list[i];
      if j < |list| {
        assert l[j] == list[j];
      }
    }
  }

  /** Removal keeps a list free of duplicates. */
  lemma {:induction false} NoDupWithout<T(!new)>(list: seq<T>, x: T)
    requires NoDup(list)
    ensures NoDup(Without(list, x))
  {
    if list != [] {
      var tail := list[1..];
      assert NoDup(tail) by {
        forall i, j | 0 <= i < j < |tail| ensures tail[i] != tail[j] {
          assert tail[i] == list[i + 1] && tail[j] == list[j + 1];
        }
      }
      NoDupWithout(tail, x);
      if list[0] != x {
        assert list[0] !in tail by {
          forall k | 0 <= k < |tail| ensures tail[k] != list[0] {
            assert tail[k] == list[k + 1];
          }
        }
        NoDupCons(list[0], Without(tail, x));
      }
    }
  }

  /** In a list without duplicates a member occurs exactly once. */
  lemma {:induction false} NoDupOnce<T>(list: seq<T>, x: T)
    requires NoDup(list) && x in list
    ensures multiset(list)[x] == 1
  {
    if list[0] == x {
      assert x !in list[1..] by {
        forall k | 0 <= k < |list[1..]| ensures list[1..][k] != x {
          assert list[1..][k] == list[k + 1];
        }
      }
    } else {
      var tail := list[1..];
      assert NoDup(tail) by {
        forall i, j | 0 <= i < j < |tail| ensures tail[i] != tail[j] {
          assert tail[i] == list[i + 1] && tail[j] == list[j + 1];
        }
      }
      NoDupOnce(tail, x);
    }
    assert list == [list[0]] + list[1..];
  }

  /** Moving a member of a list without duplicates to the back or to the front
      keeps exactly the same entries and no duplicates; the member ends up
      last, or first. */
  lemma MoveKeeps<T(!new)>(list: seq<T>, x: T)
    requires NoDup(list) && x in list
    ensures multiset(Without(list, x) + [x]) == multiset(list)
    ensures multiset([x] + Without(list, x)) == multiset(list)
    ensures NoDup(Without(list, x) + [x]) && NoDup([x] + Without(list, x))
    ensures |Without(list, x)| + 1 == |list|
  {
    WithoutCount(list, x);
    NoDupOnce(list, x);
    NoDupWithout(list, x);
    NoDupSnoc(Without(list, x), x);
    NoDupCons(x, Without(list, x));
    assert multiset(list) == multiset(list)[x := 0] + multiset{x};
    assert |multiset(Without(list, x))| + 1 == |multiset(list)|;
  }
}
