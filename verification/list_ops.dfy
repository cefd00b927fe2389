/**
 The list operations the pool performs on its two ledgers, which are
 `java.util.ArrayList`s: `add` appends, `remove(size()-1)` pops the tail,
 `contains` and `remove(Object)` locate the FIRST element equal to the
 argument. Java's `equals` is modelled by Dafny equality.
 */
module ListOps {

  /** Position of the first occurrence of `x` in `s`; `|s|` when there is none
      (where `ArrayList.indexOf` would answer -1). */
  function IndexOf<T(==)>(s: seq<T>, x: T): (i: nat)
    ensures i <= |s|
    ensures i < |s| ==> s[i] == x
    ensures forall j :: 0 <= j < i ==> s[j] != x
    ensures i == |s| <==> x !in s
  {
    if |s| == 0 then 0
    else if s[0] == x then 0
    else 1 + IndexOf(s[1..], x)
  }

  /** `ArrayList.remove(Object)`: drops the first occurrence of `x`, if any,
      and keeps every other element in order. */
  function RemoveFirst<T(==)>(s: seq<T>, x: T): (r: seq<T>)
    ensures x !in s ==> r == s
    ensures x in s ==> |r| == |s| - 1
    ensures multiset(r) == multiset(s) - multiset{x}
  {
    if |s| == 0 then s
    else if s[0] == x then
      assert s == [s[0]] + s[1..];
      s[1..]
    else
      assert s == [s[0]] + s[1..];
      [s[0]] + RemoveFirst(s[1..], x)
  }

  /** Putting the removed occurrence back gives the original contents. */
  lemma RemoveFirstRestores<T>(s: seq<T>, x: T)
    requires x in s
    ensures multiset(RemoveFirst(s, x)) + multiset{x} == multiset(s)
  {
    assert x in multiset(s);
  }

  /** Removing an entry never introduces one. */
  lemma RemoveFirstKeepsOut<T>(s: seq<T>, x: T, y: T)
    requires y !in s
    ensures y !in RemoveFirst(s, x)
  {
    assert multiset(s)[y] == 0;
    assert multiset(RemoveFirst(s, x))[y] == 0;
  }

  /** The element `ArrayList.remove(size()-1)` returns: the tail. */
  function Last<T>(s: seq<T>): T
    requires |s| > 0
  {
    s[|s| - 1]
  }

  /** The list `ArrayList.remove(size()-1)` leaves behind. */
  function DropLast<T>(s: seq<T>): (r: seq<T>)
    requires |s| > 0
    ensures r + [Last(s)] == s
    ensures multiset(r) + multiset{Last(s)} == multiset(s)
  {
    assert s == s[..|s| - 1] + [s[|s| - 1]];
    s[..|s| - 1]
  }

  /** Removing the first occurrence is splicing out the element at `IndexOf`:
      nothing before it is touched, nothing after it moves except by one. */
  lemma RemoveFirstSplices<T>(s: seq<T>, x: T)
    requires x in s
    ensures RemoveFirst(s, x) == s[..IndexOf(s, x)] + s[IndexOf(s, x) + 1..]
  {
    RemoveFirstAt(s, x, IndexOf(s, x));
  }

  /** Splicing at a position `i` that holds the first occurrence of `x`. */
  lemma {:induction false} RemoveFirstAt<T>(s: seq<T>, x: T, i: nat)
    requires i < |s| && s[i] == x
    requires forall j :: 0 <= j < i ==> s[j] != x
    ensures RemoveFirst(s, x) == s[..i] + s[i + 1..]
  {
    if i == 0 {
      assert s[..0] + s[1..] == s[1..];
    } else {
      assert s[0] != x;
      RemoveFirstAt(s[1..], x, i - 1);
      ConsSplice(s, i);
    }
  }

  /** Splicing out position `i` of `s` is keeping the head and splicing out
      position `i - 1` of the rest. */
  lemma ConsSplice<T>(s: seq<T>, i: nat)
    requires 0 < i < |s|
    ensures [s[0]] + (s[1..][..i - 1] + s[1..][i..]) == s[..i] + s[i + 1..]
  {
    assert s[..i] == [s[0]] + s[1..][..i - 1];
    assert s[i + 1..] == s[1..][i..];
  }

  /** An occurrence already present in `s` shields anything appended after it. */
  lemma {:induction false} RemoveFirstAppend<T>(s: seq<T>, t: seq<T>, x: T)
    requires x in s
    ensures RemoveFirst(s + t, x) == RemoveFirst(s, x) + t
  {
    if s[0] == x {
      assert (s + t)[1..] == s[1..] + t;
    } else {
      assert x in s[1..] by {
        var k :| 0 <= k < |s| && s[k] == x;
        assert s[1..][k - 1] == x;
      }
      RemoveFirstAppend(s[1..], t, x);
      assert (s + t)[1..] == s[1..] + t;
    }
  }

  /** With no earlier occurrence, removing `x` from `s + [x]` takes back the
      appended element. */
  lemma {:induction false} RemoveFirstOfAppended<T>(s: seq<T>, x: T)
    requires x !in s
    ensures RemoveFirst(s + [x], x) == s
  {
    if |s| == 0 {
      assert s + [x] == [x];
    } else {
      var t := s[1..];
      assert x !in t by {
        forall k | 0 <= k < |t|
          ensures t[k] != x
        {
          assert t[k] == s[k + 1];
        }
      }
      assert (s + [x])[0] == s[0] && s[0] != x;
      assert (s + [x])[1..] == t + [x];
      RemoveFirstOfAppended(t, x);
      assert RemoveFirst(s + [x], x) == [s[0]] + RemoveFirst(t + [x], x);
      assert [s[0]] + t == s;
    }
  }
}
