/** Stable sorting of sequences, and the lexicographic order on names. */
module Sorting {
  ghost predicate TotalPreorder<T(!new)>(le: (T, T) -> bool) {
    && (forall x, y :: le(x, y) || le(y, x))
    && (forall x, y, z :: le(x, y) && le(y, z) ==> le(x, z))
  }

  predicate Ascending<T(==)>(le: (T, T) -> bool, s: seq<T>) {
    s == [] || ((forall y <- s[1..] :: le(s[0], y)) && Ascending(le, s[1..]))
  }

  /** Puts x in front of the first element that is not below it. */
  function Insert<T>(le: (T, T) -> bool, x: T, s: seq<T>): seq<T> {
    if s == [] || le(x, s[0]) then [x] + s else [s[0]] + Insert(le, x, s[1..])
  }

  function Sort<T>(le: (T, T) -> bool, s: seq<T>): seq<T> {
    if s == [] then [] else Insert(le, s[0], Sort(le, s[1..]))
  }

  lemma {:induction false} InsertKeepsElements<T>(le: (T, T) -> bool, x: T, s: seq<T>)
    ensures multiset(Insert(le, x, s)) == multiset{x} + multiset(s)
  {
    if s != [] {
      assert s == [s[0]] + s[1..];
      InsertKeepsElements(le, x, s[1..]);
    }
  }

  lemma {:induction false} SortIsPermutation<T>(le: (T, T) -> bool, s: seq<T>)
    ensures multiset(Sort(le, s)) == multiset(s)
  {
    if s != [] {
      assert s == [s[0]] + s[1..];
      SortIsPermutation(le, s[1..]);
      InsertKeepsElements(le, s[0], Sort(le, s[1..]));
    }
  }

  lemma SameElements<T>(s: seq<T>, t: seq<T>, x: T)
    requires multiset(s) == multiset(t)
    ensures x in s <==> x in t
  {
    assert x in s <==> x in multiset(s);
    assert x in t <==> x in multiset(t);
  }

  lemma SameTails<T>(s: seq<T>, t: seq<T>)
    requires multiset(s) == multiset(t) && s != [] && t != [] && s[0] == t[0]
    ensures multiset(s[1..]) == multiset(t[1..])
  {
    assert s == [s[0]] + s[1..] && t == [t[0]] + t[1..];
    assert multiset(s[1..]) == multiset(s) - multiset{s[0]};
    assert multiset(t[1..]) == multiset(t) - multiset{t[0]};
  }

  lemma {:induction false} InsertKeepsAscending<T(!new)>(le: (T, T) -> bool, x: T, s: seq<T>)
    requires TotalPreorder(le) && Ascending(le, s)
    ensures Ascending(le, Insert(le, x, s))
  {
    if s == [] {
    } else if le(x, s[0]) {
      assert ([x] + s)[1..] == s;
      assert forall y <- s :: y == s[0] || y in s[1..];
    } else {
      var rest := Insert(le, x, s[1..]);
      InsertKeepsAscending(le, x, s[1..]);
      InsertKeepsElements(le, x, s[1..]);
      assert ([s[0]] + rest)[1..] == rest;
      assert multiset(rest) == multiset([x] + s[1..]);
      forall y | y in rest ensures le(s[0], y) {
        SameElements(rest, [x] + s[1..], y);
      }
    }
  }

  lemma {:induction false} SortIsAscending<T(!new)>(le: (T, T) -> bool, s: seq<T>)
    requires TotalPreorder(le)
    ensures Ascending(le, Sort(le, s))
  {
    if s != [] {
      SortIsAscending(le, s[1..]);
      InsertKeepsAscending(le, s[0], Sort(le, s[1..]));
    }
  }

  /** Sorting what is sorted changes nothing. */
  lemma {:induction false} SortKeepsAscending<T>(le: (T, T) -> bool, s: seq<T>)
    requires Ascending(le, s)
    ensures Sort(le, s) == s
  {
    if s != [] {
      SortKeepsAscending(le, s[1..]);
      if |s| > 1 {
        assert s[1] in s[1..];
      }
      assert s == [s[0]] + s[1..];
    }
  }

  lemma {:induction false} AscendingPairs<T>(le: (T, T) -> bool, s: seq<T>, i: nat, j: nat)
    requires Ascending(le, s) && i < j < |s|
    ensures le(s[i], s[j])
  {
    if i == 0 {
      assert s[j] == s[1..][j - 1];
    } else {
      AscendingPairs(le, s[1..], i - 1, j - 1);
    }
  }

  ghost predicate Antisymmetric<T(!new)>(le: (T, T) -> bool) {
    forall x, y :: le(x, y) && le(y, x) ==> x == y
  }

  /** With an antisymmetric order there is only one sorted arrangement. */
  lemma {:induction false} AscendingIsUnique<T(!new)>(le: (T, T) -> bool, s: seq<T>, t: seq<T>)
    requires Antisymmetric(le) && TotalPreorder(le)
    requires Ascending(le, s) && Ascending(le, t) && multiset(s) == multiset(t)
    ensures s == t
  {
    assert |s| == |multiset(s)| == |multiset(t)| == |t|;
    if s != [] {
      SameElements(s, t, s[0]);
      SameElements(s, t, t[0]);
      assert s == [s[0]] + s[1..] && t == [t[0]] + t[1..];
      assert le(s[0], t[0]) && le(t[0], s[0]);
      SameTails(s, t);
      AscendingIsUnique(le, s[1..], t[1..]);
    }
  }

  // ---------------------------------------------------------------- names

  /** The order in which Go compares strings, character by character. */
  predicate NameAtMost(a: string, b: string) {
    a == [] || (b != [] && (a[0] < b[0] || (a[0] == b[0] && NameAtMost(a[1..], b[1..]))))
  }

  lemma {:induction false} NamesTotal(a: string, b: string)
    ensures NameAtMost(a, b) || NameAtMost(b, a)
    ensures NameAtMost(a, b) && NameAtMost(b, a) ==> a == b
  {
    if a != [] && b != [] && a[0] == b[0] {
      NamesTotal(a[1..], b[1..]);
      assert a == [a[0]] + a[1..] && b == [b[0]] + b[1..];
    }
  }

  lemma {:induction false} NamesTransitive(a: string, b: string, c: string)
    requires NameAtMost(a, b) && NameAtMost(b, c)
    ensures NameAtMost(a, c)
  {
    if a != [] && a[0] == b[0] && b[0] == c[0] {
      NamesTransitive(a[1..], b[1..], c[1..]);
    }
  }

  lemma NamesAreOrdered()
    ensures TotalPreorder(NameAtMost) && Antisymmetric(NameAtMost)
  {
    forall a, b ensures (NameAtMost(a, b) || NameAtMost(b, a)) && (NameAtMost(a, b) && NameAtMost(b, a) ==> a == b) {
      NamesTotal(a, b);
    }
    forall a, b, c | NameAtMost(a, b) && NameAtMost(b, c) ensures NameAtMost(a, c) {
      NamesTransitive(a, b, c);
    }
  }
}
