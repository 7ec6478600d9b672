/** Decimal digit strings, most significant digit first, and shifting by powers of ten.
    Every definition multiplies or divides by the constant ten only. */
module Digits {
  import opened Ordering

  predicate IsDigit(c: char) { '0' <= c <= '9' }

  function DigitOf(c: char): (d: nat)
    requires IsDigit(c)
    ensures d < 10
  {
    (c - '0') as int
  }

  function CharOf(d: nat): (c: char)
    requires d < 10
    ensures IsDigit(c) && DigitOf(c) == d
  {
    '0' + d as char
  }

  predicate AllDigits(s: string) { forall i :: 0 <= i < |s| ==> IsDigit(s[i]) }

  function Val(s: string): nat
    requires AllDigits(s)
  {
    if s == [] then 0 else 10 * Val(s[..|s| - 1]) + DigitOf(s[|s| - 1])
  }

  function Zeros(n: nat): (s: string)
    ensures |s| == n && AllDigits(s)
  {
    seq(n, _ => '0')
  }

  /** n * 10^k */
  function Shift(n: int, k: nat): int {
    if k == 0 then n else 10 * Shift(n, k - 1)
  }

  /** m * 10^e for a real m and an exponent of either sign */
  function Scale(m: real, e: int): real
    decreases if e < 0 then -e else e
  {
    if e == 0 then m else if e > 0 then 10.0 * Scale(m, e - 1) else Scale(m, e + 1) / 10.0
  }

  function TrimLeft(s: string): string {
    if s != [] && s[0] == '0' then TrimLeft(s[1..]) else s
  }

  function TrimRight(s: string): string {
    if s != [] && s[|s| - 1] == '0' then TrimRight(s[..|s| - 1]) else s
  }

  /** The shortest digit string of n, "0" for zero. */
  function ToDigits(n: nat): (s: string)
    ensures s != [] && AllDigits(s) && Val(s) == n
    ensures n != 0 ==> s[0] != '0'
    ensures n == 0 ==> s == "0"
  {
    if n < 10 then
      assert [CharOf(n)][..0] == [];
      [CharOf(n)]
    else
      var s := ToDigits(n / 10) + [CharOf(n % 10)];
      assert s[..|s| - 1] == ToDigits(n / 10);
      s
  }

  // ---- shifting

  lemma {:induction false} ShiftAdd(n: int, j: nat, k: nat)
    ensures Shift(Shift(n, j), k) == Shift(n, j + k)
  {
    if k == 0 {
    } else {
      ShiftAdd(n, j, k - 1);
    }
  }

  lemma {:induction false} ShiftLinear(a: int, b: int, k: nat)
    ensures Shift(a + b, k) == Shift(a, k) + Shift(b, k)
    ensures Shift(-a, k) == -Shift(a, k)
    ensures Shift(10 * a, k) == 10 * Shift(a, k)
  {
    if k == 0 {
    } else {
      ShiftLinear(a, b, k - 1);
    }
  }

  lemma {:induction false} ShiftMono(a: int, b: int, k: nat)
    ensures a < b <==> Shift(a, k) < Shift(b, k)
    ensures a > 0 ==> Shift(a, k) >= a
    ensures a == 0 <==> Shift(a, k) == 0
  {
    if k == 0 {
    } else {
      ShiftMono(a, b, k - 1);
    }
  }

  lemma {:induction false} ShiftGrows(j: nat, k: nat)
    requires j <= k
    ensures 0 < Shift(1, j) <= Shift(1, k)
    ensures j < k ==> 10 * Shift(1, j) <= Shift(1, k)
  {
    ShiftMono(1, 0, j);
    if j == k {
    } else {
      ShiftGrows(j, k - 1);
    }
  }

  lemma ScaleUp(m: real, e: int)
    ensures Scale(m, e + 1) == 10.0 * Scale(m, e)
  {
  }

  lemma {:induction false} ScaleAdd(m: real, d: int, e: int)
    ensures Scale(Scale(m, d), e) == Scale(m, d + e)
    decreases if e < 0 then -e else e
  {
    if e > 0 {
      ScaleAdd(m, d, e - 1);
      ScaleUp(m, d + e - 1);
    } else if e < 0 {
      ScaleAdd(m, d, e + 1);
      ScaleUp(m, d + e);
    }
  }

  lemma {:induction false} ScaleLinear(a: real, b: real, e: int)
    ensures Scale(a + b, e) == Scale(a, e) + Scale(b, e)
    ensures Scale(-a, e) == -Scale(a, e)
    ensures Scale(10.0 * a, e) == 10.0 * Scale(a, e)
    decreases if e < 0 then -e else e
  {
    if e > 0 { ScaleLinear(a, b, e - 1); } else if e < 0 { ScaleLinear(a, b, e + 1); }
  }

  lemma {:induction false} ScaleMono(a: real, b: real, e: int)
    ensures a < b <==> Scale(a, e) < Scale(b, e)
    ensures a == b <==> Scale(a, e) == Scale(b, e)
    ensures Scale(0.0, e) == 0.0
    decreases if e < 0 then -e else e
  {
    if e > 0 { ScaleMono(a, b, e - 1); } else if e < 0 { ScaleMono(a, b, e + 1); }
  }

  lemma {:induction false} ScaleShift(n: int, k: nat)
    ensures Scale(n as real, k) == Shift(n, k) as real
  {
    if k == 0 {
    } else {
      ScaleShift(n, k - 1);
    }
  }

  lemma {:induction false} ScaleExponentMono(d: int, e: int)
    requires d <= e
    ensures 0.0 < Scale(1.0, d) <= Scale(1.0, e)
    ensures d < e ==> Scale(1.0, d) < Scale(1.0, e)
    decreases e - d
  {
    ScaleMono(0.0, 1.0, d);
    if d == e {
    } else {
      ScaleExponentMono(d, e - 1);
      ScaleUp(1.0, e - 1);
    }
  }

  // ---- digit values

  lemma {:induction false} ValConcat(a: string, b: string)
    requires AllDigits(a) && AllDigits(b)
    ensures AllDigits(a + b) && Val(a + b) == Shift(Val(a), |b|) + Val(b)
  {
    if b == [] {
      assert a + b == a;
    } else {
      var b' := b[..|b| - 1];
      ValConcat(a, b');
      assert (a + b)[..|a + b| - 1] == a + b';
    }
  }

  lemma {:induction false} ValZeros(n: nat)
    ensures Val(Zeros(n)) == 0
  {
    if n == 0 {
    } else {
      ValZeros(n - 1);
      assert Zeros(n)[..n - 1] == Zeros(n - 1);
    }
  }

  lemma {:induction false} ValBound(s: string)
    requires AllDigits(s)
    ensures 0 <= Val(s) < Shift(1, |s|)
    ensures s != [] && s[0] != '0' ==> Shift(1, |s| - 1) <= Val(s)
  {
    if s == [] {
    } else {
      ValBound(s[..|s| - 1]);
      if |s| > 1 { assert s[..|s| - 1][0] == s[0]; }
    }
  }

  lemma SplitTens(x: int, d: nat, y: int, e: nat)
    requires d < 10 && e < 10 && 10 * x + d == 10 * y + e
    ensures x == y && d == e
  {
  }

  lemma {:induction false} ValInjective(a: string, b: string)
    requires AllDigits(a) && AllDigits(b) && |a| == |b| && Val(a) == Val(b)
    ensures a == b
  {
    if a == [] {
    } else {
      var n := |a| - 1;
      SplitTens(Val(a[..n]), DigitOf(a[n]), Val(b[..n]), DigitOf(b[n]));
      ValInjective(a[..n], b[..n]);
      assert a[..n] + [a[n]] == a;
      assert b[..n] + [b[n]] == b;
    }
  }

  lemma LongerIsLarger(a: string, b: string)
    requires AllDigits(a) && AllDigits(b) && |a| < |b| && b[0] != '0'
    ensures Val(a) < Val(b)
  {
    ShiftGrows(|a|, |b| - 1);
    ValBound(a);
    ValBound(b);
  }

  /** Two digit strings without leading zero and of the same value are the same string. */
  lemma ValUnique(a: string, b: string)
    requires AllDigits(a) && AllDigits(b) && a != [] && b != [] && a[0] != '0' && b[0] != '0'
    requires Val(a) == Val(b)
    ensures a == b
  {
    if |a| == |b| {
      ValInjective(a, b);
    } else if |a| < |b| {
      LongerIsLarger(a, b);
    } else {
      LongerIsLarger(b, a);
    }
  }

  lemma LeadingZeros(n: nat, s: string)
    requires AllDigits(s)
    ensures AllDigits(Zeros(n) + s) && Val(Zeros(n) + s) == Val(s)
  {
    ValConcat(Zeros(n), s);
    ValZeros(n);
    ShiftMono(0, 1, |s|);
  }

  lemma {:induction false} TrimLeftSplit(s: string)
    ensures var t := TrimLeft(s);
      && |t| <= |s| && s == Zeros(|s| - |t|) + t
      && (t != [] ==> t[0] != '0')
  {
    if s == [] || s[0] != '0' {
    } else {
      TrimLeftSplit(s[1..]);
      assert s == [s[0]] + s[1..];
    }
  }

  lemma TrimLeftVal(s: string)
    requires AllDigits(s)
    ensures AllDigits(TrimLeft(s)) && Val(TrimLeft(s)) == Val(s)
  {
    TrimLeftSplit(s);
    var t := TrimLeft(s);
    assert t == s[|s| - |t|..];
    LeadingZeros(|s| - |t|, t);
  }

  lemma {:induction false} TrimRightVal(s: string)
    requires AllDigits(s)
    ensures var t := TrimRight(s);
      && AllDigits(t) && |t| <= |s| && Val(s) == Shift(Val(t), |s| - |t|) && t <= s
      && (t != [] ==> t[|t| - 1] != '0')
      && (s != [] && s[0] != '0' ==> t != [])
  {
    if s == [] || s[|s| - 1] != '0' {
    } else {
      TrimRightVal(s[..|s| - 1]);
    }
  }

  lemma LastDigit(s: string)
    requires AllDigits(s) && s != []
    ensures Val(s) % 10 == 0 <==> s[|s| - 1] == '0'
  {
    assert Val(s) == 10 * Val(s[..|s| - 1]) + DigitOf(s[|s| - 1]);
  }

  // ---- lexicographic order

  lemma ValHead(s: string)
    requires AllDigits(s) && s != []
    ensures AllDigits(s[1..]) && Val(s) == Shift(DigitOf(s[0]), |s| - 1) + Val(s[1..])
  {
    assert s == s[..1] + s[1..];
    ValConcat(s[..1], s[1..]);
    assert s[..1][..0] == [];
    assert Val(s[..1]) == DigitOf(s[0]);
  }

  lemma {:induction false} ShiftStep(d: int, e: int, k: nat)
    requires d < e
    ensures Shift(d, k) + Shift(1, k) <= Shift(e, k)
  {
    ShiftLinear(d, 1, k);
    ShiftMono(e, d + 1, k);
    ShiftMono(d + 1, e, k);
  }

  /** On digit strings of one length, byte order is numeric order. */
  lemma {:induction false} LexIsNumeric(a: string, b: string)
    requires AllDigits(a) && AllDigits(b) && |a| == |b|
    ensures LexLess(a, b) <==> Val(a) < Val(b)
  {
    if a == [] {
    } else {
      ValHead(a);
      ValHead(b);
      ValBound(a[1..]);
      ValBound(b[1..]);
      var k := |a| - 1;
      if a[0] < b[0] {
        ShiftStep(DigitOf(a[0]), DigitOf(b[0]), k);
      } else if b[0] < a[0] {
        ShiftStep(DigitOf(b[0]), DigitOf(a[0]), k);
      } else {
        LexIsNumeric(a[1..], b[1..]);
      }
    }
  }

  function Complement(s: string): (c: string)
    requires AllDigits(s)
    ensures |c| == |s| && AllDigits(c)
  {
    seq(|s|, i requires 0 <= i < |s| => CharOf(9 - DigitOf(s[i])))
  }

  lemma {:induction false} ComplementVal(s: string)
    requires AllDigits(s)
    ensures Val(Complement(s)) == Shift(1, |s|) - 1 - Val(s)
  {
    if s == [] {
    } else {
      var n := |s| - 1;
      ComplementVal(s[..n]);
      assert Complement(s)[..n] == Complement(s[..n]);
    }
  }
}
