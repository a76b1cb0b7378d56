/** Generic facts about sequences used by the availability queries. */
module Sequences {

  /** `r` can be obtained from `s` by deleting elements: the order of `s` is kept. */
  ghost predicate SubsequenceOf<T>(r: seq<T>, s: seq<T>)
    decreases |s|
  {
    if r == [] then true
    else if s == [] then false
    else if r[0] == s[0] then SubsequenceOf(r[1..], s[1..])
    else SubsequenceOf(r, s[1..])
  }

  /** No element occurs twice. */
  ghost predicate Distinct<T>(s: seq<T>) {
    forall i, j :: 0 <= i < j < |s| ==> s[i] != s[j]
  }

  /** The elements of `s` that are not in `drop`, in their original order
      (a Python list comprehension `[x for x in s if x not in drop]`). */
  function Without<T(==,!new)>(s: seq<T>, drop: set<T>): (r: seq<T>)
    ensures forall x :: x in r <==> x in s && x !in drop
    ensures SubsequenceOf(r, s)
  {
    if s == [] then []
    else if s[0] in drop then Without(s[1..], drop)
    else
      var rest := Without(s[1..], drop);
      assert ([s[0]] + rest)[1..] == rest;
      [s[0]] + rest
  }

  /** Python's `list.remove(x)`: deletes the first occurrence of `x`. */
  function RemoveFirst<T(==)>(s: seq<T>, x: T): (r: seq<T>)
    requires x in s
    ensures |r| == |s| - 1
    ensures multiset(r) == multiset(s) - multiset{x}
  {
    if s[0] == x then
      assert s == [s[0]] + s[1..];
      s[1..]
    else
      var rest := RemoveFirst(s[1..], x);
      assert s == [s[0]] + s[1..];
      [s[0]] + rest
  }

  /** Removing an element that is still present from a filtered list of
      distinct elements is the same as filtering it out as well. */
  lemma {:induction false} RemoveFirstFromWithout<T(!new)>(s: seq<T>, drop: set<T>, x: T)
    requires Distinct(s)
    requires x in Without(s, drop)
    ensures RemoveFirst(Without(s, drop), x) == Without(s, drop + {x})
  {
    assert s != [];
    assert Distinct(s[1..]) by {
      forall i, j | 0 <= i < j < |s[1..]| ensures s[1..][i] != s[1..][j] {
        assert s[1..][i] == s[i + 1] && s[1..][j] == s[j + 1];
      }
    }
    if s[0] == x {
      assert x !in s[1..] by {
        forall k | 0 <= k < |s[1..]| ensures s[1..][k] != x {
          assert s[1..][k] == s[k + 1];
        }
      }
      WithoutUnchanged(s[1..], drop, x);
    } else if s[0] in drop {
      RemoveFirstFromWithout(s[1..], drop, x);
    } else {
      RemoveFirstFromWithout(s[1..], drop, x);
    }
  }

  /** Adding to `drop` an element that the filter already excludes changes nothing. */
  lemma {:induction false} WithoutUnchanged<T(!new)>(s: seq<T>, drop: set<T>, x: T)
    requires x !in Without(s, drop)
    ensures Without(s, drop + {x}) == Without(s, drop)
  {
    if s != [] {
      WithoutUnchanged(s[1..], drop, x);
    }
  }

  /** A sequence has at most as many distinct elements as it has positions,
      and exactly as many when no element repeats. */
  lemma {:induction false} ElementCount<T>(s: seq<T>)
    ensures |set x | x in s| <= |s|
    ensures Distinct(s) ==> |set x | x in s| == |s|
  {
    if s != [] {
      ElementCount(s[1..]);
      var tail := set x | x in s[1..];
      assert (set x | x in s) == {s[0]} + tail;
      if Distinct(s) {
        assert Distinct(s[1..]) by {
          forall i, j | 0 <= i < j < |s[1..]| ensures s[1..][i] != s[1..][j] {
            assert s[1..][i] == s[i + 1] && s[1..][j] == s[j + 1];
          }
        }
        assert s[0] !in tail by {
          forall k | 0 <= k < |s[1..]| ensures s[1..][k] != s[0] {
            assert s[1..][k] == s[k + 1];
          }
        }
      }
    }
  }

  /** Filtering out elements that do not occur changes nothing. */
  lemma {:induction false} WithoutNoneDropped<T(!new)>(s: seq<T>, drop: set<T>)
    requires forall k :: 0 <= k < |s| ==> s[k] !in drop
    ensures Without(s, drop) == s
  {
    if s != [] {
      WithoutNoneDropped(s[1..], drop);
    }
  }

  /** Filtering out every element leaves nothing. */
  lemma {:induction false} WithoutAllDropped<T(!new)>(s: seq<T>, drop: set<T>)
    requires forall k :: 0 <= k < |s| ==> s[k] in drop
    ensures Without(s, drop) == []
  {
    if s != [] {
      WithoutAllDropped(s[1..], drop);
    }
  }
}
