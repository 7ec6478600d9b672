/** The byte order of strings, and uniqueness of strictly sorted sequences. */
module Ordering {

  /** The byte order of Go strings. */
  predicate LexLess(a: string, b: string) {
    b != [] && (a == [] || a[0] < b[0] || (a[0] == b[0] && LexLess(a[1..], b[1..])))
  }

  predicate LexLessEq(a: string, b: string) { !LexLess(b, a) }

  lemma {:induction false} LexTransitive(a: string, b: string, c: string)
    requires LexLess(a, b) && LexLess(b, c)
    ensures LexLess(a, c)
  {
    if a == [] || a[0] != b[0] || b[0] != c[0] {
    } else {
      LexTransitive(a[1..], b[1..], c[1..]);
    }
  }

  lemma {:induction false} LexAsymmetric(a: string, b: string)
    ensures !(LexLess(a, b) && LexLess(b, a))
  {
    if a == [] || b == [] || a[0] != b[0] {
    } else {
      LexAsymmetric(a[1..], b[1..]);
    }
  }

  lemma {:induction false} LexTotal(a: string, b: string)
    ensures a == b || LexLess(a, b) || LexLess(b, a)
  {
    if a == [] || b == [] || a[0] != b[0] {
    } else {
      LexTotal(a[1..], b[1..]);
      assert a == [a[0]] + a[1..] && b == [b[0]] + b[1..];
    }
  }

  lemma LexEqTransitive(a: string, b: string, c: string)
    requires LexLessEq(a, b) && LexLessEq(b, c)
    ensures LexLessEq(a, c)
  {
    LexTotal(a, b);
    LexTotal(b, c);
    LexAsymmetric(a, c);
    if LexLess(a, b) && LexLess(b, c) { LexTransitive(a, b, c); }
  }

  ghost predicate Asymmetric<T(!new)>(less: (T, T) -> bool) { forall x, y :: less(x, y) ==> !less(y, x) }

  ghost predicate StrictlySorted<T>(less: (T, T) -> bool, s: seq<T>) {
    forall i, j :: 0 <= i < j < |s| ==> less(s[i], s[j])
  }

  lemma Splice<T>(less: (T, T) -> bool, s: seq<T>, k: nat, x: T)
    requires StrictlySorted(less, s) && k <= |s|
    requires forall j :: 0 <= j < k ==> less(s[j], x)
    requires forall j :: k <= j < |s| ==> less(x, s[j])
    ensures StrictlySorted(less, s[..k] + [x] + s[k..])
    ensures forall y :: y in s[..k] + [x] + s[k..] <==> y in s || y == x
  {
    assert s == s[..k] + s[k..];
  }

  lemma SubsetOfEqualSize<T>(a: set<T>, b: set<T>)
    requires a <= b && |a| == |b|
    ensures a == b
  {
    assert |b - a| == 0;
    assert b == a + (b - a);
  }

  ghost predicate SameMembers<T(!new)>(a: seq<T>, b: seq<T>) { forall x :: x in a <==> x in b }

  lemma SomeMember<T>(s: seq<T>) returns (x: T)
    requires s != []
    ensures x in s
  {
    x := s[0];
  }

  lemma HeadOfSorted<T(!new)>(less: (T, T) -> bool, a: seq<T>, b: seq<T>)
    requires Asymmetric(less) && StrictlySorted(less, a) && StrictlySorted(less, b) && SameMembers(a, b) && a != []
    ensures b != [] && a[0] == b[0]
  {
    assert a[0] in b;
    assert b[0] in a;
    var j :| 0 <= j < |b| && b[j] == a[0];
    var i :| 0 <= i < |a| && a[i] == b[0];
    assert j > 0 ==> less(b[0], b[j]);
    assert i > 0 ==> less(a[0], a[i]);
  }

  /** Only one strictly sorted sequence has given members. */
  lemma {:induction false} SortedUnique<T(!new)>(less: (T, T) -> bool, a: seq<T>, b: seq<T>)
    requires Asymmetric(less) && StrictlySorted(less, a) && StrictlySorted(less, b) && SameMembers(a, b)
    ensures a == b
  {
    if a == [] {
      if b != [] { var x := SomeMember(b); }
    } else {
      HeadOfSorted(less, a, b);
      TailMembers(less, a, b);
      SortedUnique(less, a[1..], b[1..]);
      assert a == [a[0]] + a[1..] && b == [b[0]] + b[1..];
    }
  }

  lemma TailMembers<T(!new)>(less: (T, T) -> bool, a: seq<T>, b: seq<T>)
    requires Asymmetric(less) && StrictlySorted(less, a) && StrictlySorted(less, b) && SameMembers(a, b)
    requires a != [] && b != [] && a[0] == b[0]
    ensures SameMembers(a[1..], b[1..])
  {
    forall x ensures x in a[1..] ==> x in b[1..] { OneTail(less, a, b, x); }
    forall x ensures x in b[1..] ==> x in a[1..] { OneTail(less, b, a, x); }
  }

  lemma OneTail<T(!new)>(less: (T, T) -> bool, a: seq<T>, b: seq<T>, x: T)
    requires Asymmetric(less) && StrictlySorted(less, a) && SameMembers(a, b) && a != [] && b != [] && a[0] == b[0]
    ensures x in a[1..] ==> x in b[1..]
  {
    if x in a[1..] {
      var i :| 0 <= i < |a[1..]| && a[1..][i] == x;
      assert less(a[0], a[i + 1]) && x in a && x in b;
      var j :| 0 <= j < |b| && b[j] == x;
      assert j > 0 && b[1..][j - 1] == x;
    }
  }

  /** Inserts into a strictly sorted sequence of strings, keeping it so. */
  function InsertString(s: seq<string>, x: string): (r: seq<string>)
    requires StrictlySorted(LexLess, s)
    ensures StrictlySorted(LexLess, r) && forall y :: y in r <==> y in s || y == x
  {
    if s == [] then [x]
    else if LexLess(x, s[0]) then
      PrependSorted(x, s);
      [x] + s
    else if x == s[0] then s
    else
      var r := InsertString(s[1..], x);
      LexTotal(x, s[0]);
      InsertedTail(s, x, r);
      [s[0]] + r
  }

  lemma PrependSorted(x: string, s: seq<string>)
    requires StrictlySorted(LexLess, s) && s != [] && LexLess(x, s[0])
    ensures StrictlySorted(LexLess, [x] + s)
  {
    forall j | 0 <= j < |s| ensures LexLess(x, s[j]) {
      if j > 0 { LexTransitive(x, s[0], s[j]); }
    }
  }

  lemma InsertedTail(s: seq<string>, x: string, r: seq<string>)
    requires StrictlySorted(LexLess, s) && s != [] && LexLess(s[0], x)
    requires StrictlySorted(LexLess, r) && forall y :: y in r <==> y in s[1..] || y == x
    ensures StrictlySorted(LexLess, [s[0]] + r) && forall y :: y in [s[0]] + r <==> y in s || y == x
  {
    forall j | 0 <= j < |r| ensures LexLess(s[0], r[j]) {
      assert r[j] in r;
      if r[j] != x {
        var i :| 0 <= i < |s[1..]| && s[1..][i] == r[j];
        assert s[i + 1] == r[j];
      }
    }
    assert s == [s[0]] + s[1..];
  }

  lemma LexIsAsymmetric()
    ensures Asymmetric(LexLess)
  {
    forall x, y { LexAsymmetric(x, y); }
  }

  /** The members of a finite set of strings in byte order. */
  ghost function SortedKeys(s: set<string>): (r: seq<string>)
    ensures StrictlySorted(LexLess, r) && forall x :: x in r <==> x in s
  {
    if s == {} then [] else
      var x :| x in s;
      InsertString(SortedKeys(s - {x}), x)
  }
}
