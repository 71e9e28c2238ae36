/** The parts of C#'s List<T> that the core relies on: Add appends, Remove deletes
    the first occurrence and does nothing when the element is absent. */
module Lists {

  /** List<T>.Remove(x). */
  function RemoveFirst<T(==)>(s: seq<T>, x: T): seq<T> {
    if s == [] then []
    else if s[0] == x then s[1..]
    else [s[0]] + RemoveFirst(s[1..], x)
  }

  /** Index of the first occurrence of x (List<T>.IndexOf). */
  function IndexOf<T(==)>(s: seq<T>, x: T): (i: nat)
    requires x in s
    ensures i < |s| && s[i] == x
    ensures forall j :: 0 <= j < i ==> s[j] != x
  {
    if s[0] == x then 0 else 1 + IndexOf(s[1..], x)
  }

  predicate NoDuplicates<T(==)>(s: seq<T>) {
    forall i, j :: 0 <= i < j < |s| ==> s[i] != s[j]
  }

  /** The elements of s that are not in gone, in their order. */
  function Without<T(==)>(s: seq<T>, gone: set<T>): (r: seq<T>)
    ensures |r| <= |s|
  {
    if s == [] then []
    else if s[0] in gone then Without(s[1..], gone)
    else [s[0]] + Without(s[1..], gone)
  }

  lemma {:induction false} WithoutMembers<T>(s: seq<T>, gone: set<T>, y: T)
    ensures y in Without(s, gone) <==> y in s && y !in gone
  {
    if s != [] {
      WithoutMembers(s[1..], gone, y);
      assert s == [s[0]] + s[1..];
    }
  }

  /** Remove deletes exactly the first occurrence, and leaves the list alone
      when the element is absent. */
  lemma {:induction false} RemoveFirstDeletesFirst<T>(s: seq<T>, x: T)
    ensures x !in s ==> RemoveFirst(s, x) == s
    ensures x in s ==> RemoveFirst(s, x) == s[..IndexOf(s, x)] + s[IndexOf(s, x) + 1..]
  {
    if s != [] {
      RemoveFirstDeletesFirst(s[1..], x);
      if s[0] != x {
        if x in s {
          assert x in s[1..];
          var i := IndexOf(s[1..], x);
          assert s[..i + 1] == [s[0]] + s[1..][..i];
          assert s[i + 2..] == s[1..][i + 1..];
        } else {
          assert s == [s[0]] + s[1..];
        }
      }
    }
  }

  /** Remove takes one copy of x out of the multiset of elements. */
  lemma {:induction false} RemoveFirstMultiset<T>(s: seq<T>, x: T)
    ensures multiset(RemoveFirst(s, x)) == multiset(s) - multiset{x}
  {
    if s != [] {
      assert s == [s[0]] + s[1..];
      RemoveFirstMultiset(s[1..], x);
    }
  }

  /** Add keeps a list free of duplicates exactly when the element is new. */
  lemma AppendDistinct<T>(s: seq<T>, x: T)
    ensures NoDuplicates(s + [x]) <==> NoDuplicates(s) && x !in s
  {
    if NoDuplicates(s + [x]) {
      forall i, j | 0 <= i < j < |s| ensures s[i] != s[j] {
        assert s[i] == (s + [x])[i] && s[j] == (s + [x])[j];
      }
      forall k | 0 <= k < |s| ensures s[k] != x {
        assert s[k] == (s + [x])[k] && x == (s + [x])[|s|];
      }
    }
  }

  /** On a list without duplicates, Remove takes exactly x away. */
  lemma {:induction false} RemoveFirstOfDistinct<T>(s: seq<T>, x: T)
    requires NoDuplicates(s)
    ensures NoDuplicates(RemoveFirst(s, x))
    ensures forall y :: y in RemoveFirst(s, x) <==> y in s && y != x
    ensures RemoveFirst(s, x) == Without(s, {x})
  {
    if s != [] {
      assert NoDuplicates(s[1..]) by {
        forall i, j | 0 <= i < j < |s[1..]| ensures s[1..][i] != s[1..][j] {
          assert s[1..][i] == s[i + 1] && s[1..][j] == s[j + 1];
        }
      }
      RemoveFirstOfDistinct(s[1..], x);
      assert s[0] !in s[1..] by {
        forall k | 0 <= k < |s[1..]| ensures s[1..][k] != s[0] {
          assert s[1..][k] == s[k + 1];
        }
      }
      if s[0] == x {
        WithoutAbsent(s[1..], {x});
      } else {
        var r := RemoveFirst(s[1..], x);
        forall i, j | 0 <= i < j < |[s[0]] + r| ensures ([s[0]] + r)[i] != ([s[0]] + r)[j] {
          if i == 0 {
            assert ([s[0]] + r)[j] == r[j - 1];
            assert r[j - 1] in r;
          } else {
            assert ([s[0]] + r)[i] == r[i - 1] && ([s[0]] + r)[j] == r[j - 1];
          }
        }
      }
    }
  }

  lemma {:induction false} WithoutAbsent<T>(s: seq<T>, gone: set<T>)
    requires forall y :: y in gone ==> y !in s
    ensures Without(s, gone) == s
  {
    if s != [] {
      assert s[0] in s;
      WithoutAbsent(s[1..], gone);
      assert s == [s[0]] + s[1..];
    }
  }

  /** Removing one more distinct element extends the removed set. */
  lemma {:induction false} RemoveFirstOfWithout<T>(s: seq<T>, gone: set<T>, x: T)
    requires NoDuplicates(s)
    ensures RemoveFirst(Without(s, gone), x) == Without(s, gone + {x})
  {
    if s != [] {
      assert NoDuplicates(s[1..]) by {
        forall i, j | 0 <= i < j < |s[1..]| ensures s[1..][i] != s[1..][j] {
          assert s[1..][i] == s[i + 1] && s[1..][j] == s[j + 1];
        }
      }
      assert s[0] !in s[1..] by {
        forall k | 0 <= k < |s[1..]| ensures s[1..][k] != s[0] {
          assert s[1..][k] == s[k + 1];
        }
      }
      RemoveFirstOfWithout(s[1..], gone, x);
      if s[0] !in gone && s[0] == x {
        WithoutMembers(s[1..], gone, x);
        RemoveFirstDeletesFirst(Without(s[1..], gone), x);
        WithoutAbsentElement(s[1..], gone, x);
      }
    }
  }

  lemma {:induction false} WithoutAbsentElement<T>(s: seq<T>, gone: set<T>, x: T)
    requires x !in s
    ensures Without(s, gone + {x}) == Without(s, gone)
  {
    if s != [] {
      assert s[0] in s;
      WithoutAbsentElement(s[1..], gone, x);
    }
  }

  lemma {:induction false} WithoutEmpty<T>(s: seq<T>)
    ensures Without(s, {}) == s
  {
    if s != [] {
      WithoutEmpty(s[1..]);
      assert s == [s[0]] + s[1..];
    }
  }

  /** Remove undoes an Add of an element that was absent. */
  lemma {:induction false} RemoveFirstAfterAppend<T>(s: seq<T>, x: T)
    requires x !in s
    ensures RemoveFirst(s + [x], x) == s
  {
    if s != [] {
      assert s[0] in s;
      assert (s + [x])[1..] == s[1..] + [x];
      RemoveFirstAfterAppend(s[1..], x);
      assert s == [s[0]] + s[1..];
    } else {
      assert s + [x] == [x];
    }
  }

  /** Filtering a list without duplicates leaves one without duplicates. */
  lemma {:induction false} WithoutDistinct<T>(s: seq<T>, gone: set<T>)
    requires NoDuplicates(s)
    ensures NoDuplicates(Without(s, gone))
  {
    if s != [] {
      assert NoDuplicates(s[1..]) by {
        forall i, j | 0 <= i < j < |s[1..]| ensures s[1..][i] != s[1..][j] {
          assert s[1..][i] == s[i + 1] && s[1..][j] == s[j + 1];
        }
      }
      WithoutDistinct(s[1..], gone);
      if s[0] !in gone {
        var r := Without(s[1..], gone);
        assert s[0] !in r by {
          WithoutMembers(s[1..], gone, s[0]);
          forall k | 0 <= k < |s[1..]| ensures s[1..][k] != s[0] {
            assert s[1..][k] == s[k + 1];
          }
        }
        forall i, j | 0 <= i < j < |[s[0]] + r| ensures ([s[0]] + r)[i] != ([s[0]] + r)[j] {
          if i == 0 {
            assert ([s[0]] + r)[j] == r[j - 1];
            assert r[j - 1] in r;
          } else {
            assert ([s[0]] + r)[i] == r[i - 1] && ([s[0]] + r)[j] == r[j - 1];
          }
        }
      }
    }
  }
}
