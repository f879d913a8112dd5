/** Distinct values of a column, in order of first appearance.

This is the behaviour the option menu relies on from `Series.unique()`: every
value of the column appears exactly once, and the values are listed in the
order in which they first occur in the column.
 */
module Distinct {

  /** No value occurs twice in `s`. */
  predicate NoDuplicates<T(==)>(s: seq<T>) {
    forall i, j :: 0 <= i < j < |s| ==> s[i] != s[j]
  }

  /** Position of the first occurrence of `x` in `s`. */
  function FirstIndex<T(==)>(s: seq<T>, x: T): (k: nat)
    requires x in s
    ensures k < |s| && s[k] == x
    ensures forall i :: 0 <= i < k ==> s[i] != x
  {
    if s[0] == x then 0 else 1 + FirstIndex(s[1..], x)
  }

  /** The first occurrence is the only position with those two properties. */
  lemma FirstIndexIsUnique<T>(s: seq<T>, x: T, k: nat)
    requires k < |s| && s[k] == x
    requires forall i :: 0 <= i < k ==> s[i] != x
    ensures FirstIndex(s, x) == k
  {
  }

  /** Appending elements does not move the first occurrence of a value
      that is already present. */
  lemma FirstIndexExtend<T>(s: seq<T>, t: seq<T>, x: T)
    requires x in s
    ensures FirstIndex(s + t, x) == FirstIndex(s, x)
  {
    var k := FirstIndex(s, x);
    FirstIndexIsUnique(s + t, x, k);
  }

  /** A non-empty sequence contains its first element. Stated as a
      disjunction so that a caller can use it where `s` is known to be empty
      without checking an index on an impossible path. */
  lemma HeadIsMember<T>(s: seq<T>)
    ensures |s| == 0 || s[0] in s
  {
  }

  /** Distinct values of `s` in order of first appearance: the values of the
      prefix without its last element, followed by the last element when it is
      new. Its properties are stated by the lemmas below. */
  function Unique<T(==)>(s: seq<T>): (r: seq<T>)
    ensures |r| <= |s|
  {
    if |s| == 0 then []
    else
      var init := Unique(s[..|s| - 1]);
      if s[|s| - 1] in s[..|s| - 1] then init else init + [s[|s| - 1]]
  }

  /** Unfolding `Unique` at an appended element. */
  lemma UniqueSnoc<T>(s: seq<T>, y: T)
    ensures Unique(s + [y]) == if y in s then Unique(s) else Unique(s) + [y]
  {
    assert (s + [y])[..|s + [y]| - 1] == s;
  }

  /** The distinct values are exactly the values of the column. */
  lemma {:induction false} UniqueMembers<T>(s: seq<T>)
    ensures forall x :: x in Unique(s) <==> x in s
  {
    if |s| > 0 {
      var p, y := s[..|s| - 1], s[|s| - 1];
      assert s == p + [y];
      UniqueMembers(p);
      UniqueSnoc(p, y);
    }
  }

  /** No value is listed twice. */
  lemma {:induction false} UniqueNoDuplicates<T>(s: seq<T>)
    ensures NoDuplicates(Unique(s))
  {
    if |s| > 0 {
      var p, y := s[..|s| - 1], s[|s| - 1];
      assert s == p + [y];
      UniqueNoDuplicates(p);
      UniqueMembers(p);
      UniqueSnoc(p, y);
    }
  }

  /** The distinct values are listed in order of their first appearance. */
  lemma {:induction false} UniqueFirstAppearanceOrder<T>(s: seq<T>)
    ensures forall x :: x in Unique(s) ==> x in s
    ensures forall i, j :: 0 <= i < j < |Unique(s)| ==>
              FirstIndex(s, Unique(s)[i]) < FirstIndex(s, Unique(s)[j])
  {
    UniqueMembers(s);
    if |s| > 0 {
      var p, y := s[..|s| - 1], s[|s| - 1];
      assert s == p + [y];
      UniqueFirstAppearanceOrder(p);
      UniqueSnoc(p, y);
      var u, r := Unique(p), Unique(s);
      forall i, j | 0 <= i < j < |r|
        ensures FirstIndex(s, r[i]) < FirstIndex(s, r[j])
      {
        assert r[i] == u[i];
        FirstIndexExtend(p, [y], r[i]);
        if j < |u| {
          assert r[j] == u[j];
          FirstIndexExtend(p, [y], r[j]);
        } else {
          assert r[j] == y && y !in p;
          FirstIndexIsUnique(s, y, |p|);
        }
      }
    }
  }

  /** The three properties that pin down the distinct values of `s`: the
      same values, each once, in order of first appearance. */
  ghost predicate DistinctInOrder<T(!new)>(s: seq<T>, r: seq<T>) {
    && (forall x :: x in r <==> x in s)
    && NoDuplicates(r)
    && (forall i, j :: 0 <= i < j < |r| ==> FirstIndex(s, r[i]) < FirstIndex(s, r[j]))
  }

  /** Appending a value already present keeps `r` a valid answer for the
      shorter column. */
  lemma DistinctInOrderDropSeen<T(!new)>(p: seq<T>, y: T, r: seq<T>)
    requires y in p
    requires DistinctInOrder(p + [y], r)
    ensures DistinctInOrder(p, r)
  {
    forall x ensures x in r <==> x in p {
      assert x in p + [y] <==> x in p;
    }
    forall i, j | 0 <= i < j < |r|
      ensures FirstIndex(p, r[i]) < FirstIndex(p, r[j])
    {
      FirstIndexExtend(p, [y], r[i]);
      FirstIndexExtend(p, [y], r[j]);
    }
  }

  /** A value whose first occurrence is the last element of `s` comes last
      in any answer listed in order of first appearance. */
  lemma LatestFirstOccurrenceIsLast<T(!new)>(s: seq<T>, r: seq<T>, k: nat)
    requires DistinctInOrder(s, r)
    requires k < |r| && FirstIndex(s, r[k]) == |s| - 1
    ensures k == |r| - 1
  {
    assert FirstIndex(s, r[|r| - 1]) < |s|;
  }

  /** Appending a new value forces it to the end of `r`, and the rest of `r`
      is a valid answer for the shorter column. */
  lemma DistinctInOrderDropNew<T(!new)>(p: seq<T>, y: T, r: seq<T>)
    requires y !in p
    requires DistinctInOrder(p + [y], r)
    ensures |r| > 0 && r[|r| - 1] == y
    ensures DistinctInOrder(p, r[..|r| - 1])
  {
    var s := p + [y];
    assert y in s;
    var k :| 0 <= k < |r| && r[k] == y;
    FirstIndexIsUnique(s, y, |p|);
    LatestFirstOccurrenceIsLast(s, r, k);
    var r' := r[..|r| - 1];
    assert r == r' + [y];
    forall x ensures x in r' <==> x in p {
      assert x in r <==> x in r' || x == y;
      assert x in s <==> x in p || x == y;
    }
    forall i, j | 0 <= i < j < |r'|
      ensures FirstIndex(p, r'[i]) < FirstIndex(p, r'[j])
    {
      assert r'[i] == r[i] && r'[j] == r[j];
      FirstIndexExtend(p, [y], r[i]);
      FirstIndexExtend(p, [y], r[j]);
    }
  }

  /** `Unique` is fully determined by its three properties: any duplicate-free
      sequence with the same values as `s`, listed in order of first
      appearance, is `Unique(s)`. */
  lemma {:induction false} UniqueIsDetermined<T(!new)>(s: seq<T>, r: seq<T>)
    requires DistinctInOrder(s, r)
    ensures r == Unique(s)
  {
    if |s| == 0 {
      HeadIsMember(r);
    } else {
      var p, y := s[..|s| - 1], s[|s| - 1];
      assert s == p + [y];
      UniqueSnoc(p, y);
      if y in p {
        DistinctInOrderDropSeen(p, y, r);
        UniqueIsDetermined(p, r);
      } else {
        DistinctInOrderDropNew(p, y, r);
        UniqueIsDetermined(p, r[..|r| - 1]);
        assert r == r[..|r| - 1] + [y];
      }
    }
  }

  /** A column that is already duplicate-free is returned unchanged. */
  lemma {:induction false} UniqueOfDistinct<T>(s: seq<T>)
    requires NoDuplicates(s)
    ensures Unique(s) == s
  {
    if |s| > 0 {
      var p, y := s[..|s| - 1], s[|s| - 1];
      assert s == p + [y];
      UniqueOfDistinct(p);
      UniqueSnoc(p, y);
      assert y !in p;
    }
  }

  /** Taking distinct values twice changes nothing. */
  lemma UniqueIdempotent<T>(s: seq<T>)
    ensures Unique(Unique(s)) == Unique(s)
  {
    UniqueNoDuplicates(s);
    UniqueOfDistinct(Unique(s));
  }

  /** The hash-table scan behind `unique()`: walk the column once, remember
      the values already seen, and emit each value on its first sighting. */
  method UniqueScan<T(==)>(s: seq<T>) returns (r: seq<T>)
    ensures r == Unique(s)
  {
    var seen: set<T> := {};
    r := [];
    var i := 0;
    while i < |s|
      invariant 0 <= i <= |s|
      invariant r == Unique(s[..i])
      invariant forall x :: x in seen <==> x in r
    {
      var prefix := s[..i];
      assert s[..i + 1] == prefix + [s[i]];
      UniqueSnoc(prefix, s[i]);
      UniqueMembers(prefix);
      if s[i] !in seen {
        r := r + [s[i]];
        seen := seen + {s[i]};
      }
      i := i + 1;
    }
    assert s[..i] == s;
  }
}
