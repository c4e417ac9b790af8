/**
 The decimal reader `sc_strtod` of common/strtod.c, over exact reals.
 */
module Strtod {

  /** Largest power of ten that is applied. */
  const MAX_EXPONENT := 511

  // ----- powers of ten

  function Ten(k: nat): (r: real)
    ensures r >= 1.0
  {
    if k == 0 then 1.0 else 10.0 * Ten(k - 1)
  }

  /** Ten to an integer power. */
  function Pow10(e: int): (r: real)
    ensures r > 0.0
  {
    if e >= 0 then Ten(e) else 1.0 / Ten(-e)
  }

  lemma {:induction false} TenAdd(a: nat, b: nat)
    ensures Ten(a + b) == Ten(a) * Ten(b)
  {
    if a != 0 {
      TenAdd(a - 1, b);
    }
  }

  lemma {:induction false} TenMono(a: nat, b: nat)
    requires a <= b
    ensures Ten(a) <= Ten(b)
  {
    if a < b {
      TenMono(a, b - 1);
    }
  }

  lemma Pow10Succ(e: int)
    ensures Pow10(e + 1) == 10.0 * Pow10(e)
  {
    if e < 0 {
      var t := Ten(-e - 1);
      assert Ten(-e) == 10.0 * t;
      assert 1.0 / (10.0 * t) * 10.0 == 1.0 / t;
    }
  }

  lemma TenStep(k: nat)
    ensures Ten(0) == 1.0 && Ten(k + 1) == 10.0 * Ten(k)
  {
  }

  lemma TimesTen(a: real, b: real)
    ensures a * (10.0 * b) == 10.0 * (a * b)
  {
  }

  lemma {:induction false} Pow10Add(e: int, k: nat)
    ensures Pow10(e + k) == Pow10(e) * Ten(k)
    decreases k
  {
    hide Pow10, Ten;
    if k == 0 {
      TenStep(0);
    } else {
      Pow10Add(e, k - 1);
      Pow10Succ(e + k - 1);
      TenStep(k - 1);
      TimesTen(Pow10(e), Ten(k - 1));
    }
  }

  lemma {:induction false} Pow10Mono(d: int, e: int)
    requires d <= e
    ensures Pow10(d) <= Pow10(e)
    decreases e - d
  {
    if d < e {
      Pow10Mono(d, e - 1);
      Pow10Succ(e - 1);
    }
  }

  /** powersOf10: entry `i` is ten to the `2^i`. */
  function Table(): (t: seq<real>)
    ensures |t| == 9
  {
    [Ten(1), Ten(2), Ten(4), Ten(8), Ten(16), Ten(32), Ten(64), Ten(128), Ten(256)]
  }

  /** One turn of the scaling loop: the low bit of `e`, worth `w`, moves into the product. */
  lemma ScaleStep(product: real, e: nat, w: nat, entry: real)
    requires entry == Ten(w)
    ensures (e / 2) * (2 * w) == (e - e % 2) * w
    ensures (if e % 2 == 1 then product * entry else product) * Ten((e / 2) * (2 * w)) == product * Ten(e * w)
  {
    hide Ten;
    var rest := (e / 2) * (2 * w);
    assert e * w == rest + (e % 2) * w;
    if e % 2 == 1 {
      TenAdd(w, rest);
      assert product * entry * Ten(rest) == product * (entry * Ten(rest));
    }
  }

  /** The product of the table entries for the set bits of `exp`. */
  method ScaleFactor(exp: nat) returns (dblExp: real)
    requires exp <= MAX_EXPONENT
    ensures dblExp == Ten(exp)
  {
    hide Ten, Table;
    var e: nat, d := exp, 0;
    ghost var weight: nat := 1;
    dblExp := 1.0;
    assert Weight(9) == 512 by { assert Weight(3) == 8 && Weight(6) == 64; }
    while e != 0
      invariant 0 <= d <= 9 && weight == Weight(d) && e < Weight(9 - d)
      invariant dblExp * Ten(e * weight) == Ten(exp)
      decreases e
    {
      WeightStep(d, e);
      ScaleStep(dblExp, e, weight, Table()[d]);
      if e % 2 == 1 {
        dblExp := dblExp * Table()[d];
      }
      e, d, weight := e / 2, d + 1, 2 * weight;
    }
    TenStep(0);
  }

  function Weight(d: nat): nat {
    if d == 0 then 1 else 2 * Weight(d - 1)
  }

  /** The table entry in use has the weight of the bit, and is there as long as bits are left. */
  lemma WeightStep(d: nat, e: nat)
    requires d <= 9 && 0 < e < Weight(9 - d)
    ensures d < 9 && Table()[d] == Ten(Weight(d)) && e / 2 < Weight(9 - (d + 1))
  {
    assert Weight(1) == 2 && Weight(2) == 4 && Weight(3) == 8 && Weight(4) == 16;
    assert Weight(5) == 32 && Weight(6) == 64 && Weight(7) == 128 && Weight(8) == 256;
  }

  // ----- what a string says

  /** The character at `p`; a NUL ends the string. */
  function At(s: string, p: nat): char {
    if p < |s| then s[p] else '\0'
  }

  predicate IsSpace(c: char) { c == ' ' || '\t' <= c <= '\r' }

  predicate IsDigit(c: char) { '0' <= c <= '9' }

  function DigitOf(c: char): (d: nat)
    requires IsDigit(c)
    ensures d <= 9
  {
    c as int - '0' as int
  }

  function SkipSpaces(s: string, p: nat): (q: nat)
    requires p <= |s|
    ensures p <= q <= |s|
    decreases |s| - p
  {
    if p < |s| && IsSpace(s[p]) then SkipSpaces(s, p + 1) else p
  }

  function SkipDigits(s: string, p: nat): (q: nat)
    requires p <= |s|
    ensures p <= q <= |s|
    decreases |s| - p
  {
    if p < |s| && IsDigit(s[p]) then SkipDigits(s, p + 1) else p
  }

  /** The end of the digits from `p` on, among which one decimal point may stand. */
  function MantissaEnd(s: string, p: nat, point: bool): (q: nat)
    requires p <= |s|
    ensures p <= q <= |s|
    decreases |s| - p
  {
    if p < |s| && IsDigit(s[p]) then MantissaEnd(s, p + 1, point)
    else if p < |s| && s[p] == '.' && !point then MantissaEnd(s, p + 1, true)
    else p
  }

  /** The digits of a text, without the point. */
  function DigitsOf(t: string): (d: seq<nat>)
    ensures |d| <= |t|
    ensures forall i :: 0 <= i < |d| ==> d[i] <= 9
  {
    if t == "" then []
    else if IsDigit(t[0]) then [DigitOf(t[0])] + DigitsOf(t[1..])
    else DigitsOf(t[1..])
  }

  /** The number of characters before the decimal point, if there is one. */
  function PointOf(t: string): (n: nat)
    ensures n <= |t|
  {
    if t == "" || t[0] == '.' then 0 else 1 + PointOf(t[1..])
  }

  /** The number the digits spell. */
  function IntOf(d: seq<nat>): nat {
    if d == [] then 0 else 10 * IntOf(d[..|d| - 1]) + d[|d| - 1]
  }

  /** Sign, digits, how many of them stand before the point, exponent, and where the number ends. */
  datatype Decimal = Decimal(negative: bool, digits: seq<nat>, point: int, exponent: int, end: nat)

  function SignEnd(s: string, p: nat): (q: nat)
    requires p <= |s|
    ensures p <= q <= |s|
  {
    if At(s, p) == '-' || At(s, p) == '+' then p + 1 else p
  }

  function Scan(s: string): Decimal {
    var blanks := SkipSpaces(s, 0);
    var first := SignEnd(s, blanks);
    var last := MantissaEnd(s, first, false);
    var t := s[first..last];
    var negative := At(s, blanks) == '-';
    if DigitsOf(t) == [] then Decimal(negative, [], 0, 0, 0)
    else if At(s, last) == 'E' || At(s, last) == 'e' then
      var from := SignEnd(s, last + 1);
      var end := SkipDigits(s, from);
      var x: int := IntOf(DigitsOf(s[from..end]));
      Decimal(negative, DigitsOf(t), PointOf(t), if At(s, last + 1) == '-' then -x else x, end)
    else Decimal(negative, DigitsOf(t), PointOf(t), 0, last)
  }

  function Signed(negative: bool, x: real): real {
    if negative then -x else x
  }

  /** The number written, without its sign. */
  function Magnitude(n: Decimal): real {
    IntOf(n.digits) as real * Pow10(n.point - |n.digits| + n.exponent)
  }

  function Kept(n: Decimal): nat { if |n.digits| > 18 then 18 else |n.digits| }

  /** The power of ten of the last digit that is kept. */
  function LastPlace(n: Decimal): int { n.point - Kept(n) + n.exponent }

  function Clamp(e: int): int {
    if e > MAX_EXPONENT then MAX_EXPONENT else if e < -MAX_EXPONENT then -MAX_EXPONENT else e
  }

  /** What the reader makes of the number, without its sign. */
  function Computed(n: Decimal): real {
    if n.digits == [] then 0.0 else IntOf(n.digits[..Kept(n)]) as real * Pow10(Clamp(LastPlace(n)))
  }

  // ----- reading digits

  lemma IntStep(d: seq<nat>, x: nat)
    requires d != [] && d[|d| - 1] == x
    ensures IntOf(d) as real == 10.0 * IntOf(d[..|d| - 1]) as real + x as real
  {
  }

  lemma IntOfNone()
    ensures IntOf([]) == 0
  {
  }

  lemma TakeOut(a: real, t: real, b: real, x: real)
    ensures 10.0 * (a * t + b) + x == a * (10.0 * t) + (10.0 * b + x)
  {
  }

  lemma {:induction false} IntOfConcat(a: seq<nat>, b: seq<nat>)
    ensures IntOf(a + b) as real == IntOf(a) as real * Ten(|b|) + IntOf(b) as real
    decreases |b|
  {
    hide IntOf, Ten;
    if b == [] {
      assert a + b == a;
      IntOfNone();
      TenStep(0);
    } else {
      var b', x := b[..|b| - 1], b[|b| - 1];
      assert (a + b)[..|a + b| - 1] == a + b';
      IntOfConcat(a, b');
      TenStep(|b'|);
      IntStep(a + b, x);
      IntStep(b, x);
      TakeOut(IntOf(a) as real, Ten(|b'|), IntOf(b') as real, x as real);
    }
  }

  lemma {:induction false} IntOfBound(d: seq<nat>)
    requires forall i :: 0 <= i < |d| ==> d[i] <= 9
    ensures IntOf(d) as real <= Ten(|d|) - 1.0
    decreases |d|
  {
    if d != [] {
      IntOfBound(d[..|d| - 1]);
    }
  }

  /** Characters a mantissa is made of, with at most one point. */
  predicate Mantissa(t: string, point: bool) {
    t == "" || (IsDigit(t[0]) && Mantissa(t[1..], point)) || (t[0] == '.' && !point && Mantissa(t[1..], true))
  }

  lemma {:induction false} ScannedMantissa(s: string, p: nat, point: bool)
    requires p <= |s|
    ensures Mantissa(s[p..MantissaEnd(s, p, point)], point)
    ensures var t := s[p..MantissaEnd(s, p, point)];
      |DigitsOf(t)| == if !point && PointOf(t) < |t| then |t| - 1 else |t|
    decreases |s| - p
  {
    var q := MantissaEnd(s, p, point);
    if q > p {
      var b := if s[p] == '.' then true else point;
      ScannedMantissa(s, p + 1, b);
      assert s[p..q][1..] == s[p + 1..q];
    }
  }

  /** The next digit is at `p`, or right behind the point at `p`. */
  lemma NextDigit(s: string, p: nat, q: nat, point: bool)
    requires p <= q <= |s| && Mantissa(s[p..q], point) && DigitsOf(s[p..q]) != []
    ensures var p' := if At(s, p) == '.' then p + 1 else p;
      && p' < q && IsDigit(s[p']) && DigitsOf(s[p..q]) == [DigitOf(s[p'])] + DigitsOf(s[p' + 1..q])
      && Mantissa(s[p' + 1..q], point || s[p] == '.')
  {
    var t := s[p..q];
    assert t[1..] == s[p + 1..q];
    if s[p] == '.' {
      assert t[1..] != "";
      assert t[1..][0] == s[p + 1] && t[1..][1..] == s[p + 2..q];
    }
  }

  /** Reads `n` digits from `p` on into one integer, stepping over the point. */
  method TakeDigits(s: string, p: nat, n: nat, q: nat, point: bool) returns (frac: nat, p': nat, point': bool)
    requires p <= q <= |s| && Mantissa(s[p..q], point) && n <= |DigitsOf(s[p..q])|
    ensures p <= p' <= q && Mantissa(s[p'..q], point')
    ensures DigitsOf(s[p'..q]) == DigitsOf(s[p..q])[n..] && frac == IntOf(DigitsOf(s[p..q])[..n])
  {
    hide Mantissa, DigitsOf, DigitOf, IsDigit;
    ghost var d := DigitsOf(s[p..q]);
    frac, p', point' := 0, p, point;
    for k := 0 to n
      invariant p <= p' <= q && Mantissa(s[p'..q], point')
      invariant DigitsOf(s[p'..q]) == d[k..] && frac == IntOf(d[..k])
    {
      NextDigit(s, p', q, point');
      var c := At(s, p');
      p' := p' + 1;
      if c == '.' {
        point' := true;
        c := At(s, p');
        p' := p' + 1;
      }
      assert d[k..][1..] == d[k + 1..];
      assert d[..k + 1][..k] == d[..k];
      frac := 10 * frac + DigitOf(c);
    }
  }

  /** The two nine-digit halves of the mantissa; neither reaches 10^9. */
  method TakeMantissa(s: string, p: nat, mantSize: nat, q: nat) returns (fraction: real)
    requires p <= q <= |s| && Mantissa(s[p..q], false) && mantSize <= 18 && mantSize <= |DigitsOf(s[p..q])|
    ensures fraction == IntOf(DigitsOf(s[p..q])[..mantSize]) as real
  {
    hide Mantissa, DigitsOf, Ten, IntOf;
    ghost var d := DigitsOf(s[p..q]);
    var n1 := if mantSize > 9 then mantSize - 9 else 0;
    var frac1, p1, point1 := TakeDigits(s, p, n1, q, false);
    var frac2, p2, point2 := TakeDigits(s, p1, mantSize - n1, q, point1);
    ghost var a, b := d[..n1], d[n1..mantSize];
    assert d[n1..][..mantSize - n1] == b && d[..mantSize] == a + b;
    assert frac1 < 1_000_000_000 && frac2 < 1_000_000_000 by {
      NineDigits(a);
      NineDigits(b);
    }
    fraction := 1.0e9 * frac1 as real + frac2 as real;
    IntOfConcat(a, b);
    Billion();
    NoDigits(a);
  }

  lemma NoDigits(a: seq<nat>)
    ensures a == [] ==> IntOf(a) == 0
  {
  }

  lemma Billion()
    ensures Ten(9) == 1.0e9
  {
    TenStep(0); TenStep(1); TenStep(2); TenStep(3); TenStep(4); TenStep(5); TenStep(6); TenStep(7); TenStep(8);
    hide Ten;
  }

  lemma NineDigits(d: seq<nat>)
    requires |d| <= 9 && forall i :: 0 <= i < |d| ==> d[i] <= 9
    ensures IntOf(d) < 1_000_000_000
  {
    hide IntOf, Ten;
    IntOfBound(d);
    TenMono(|d|, 9);
    Billion();
  }

  // ----- the conversion

  /** Lines 111-123: blanks and the sign. */
  method TakeSign(s: string) returns (sign: bool, p: nat)
    ensures var blanks := SkipSpaces(s, 0); sign == (At(s, blanks) == '-') && p == SignEnd(s, blanks) && p <= |s|
  {
    p := 0;
    while p < |s| && IsSpace(s[p])
      invariant p <= |s| && SkipSpaces(s, 0) == SkipSpaces(s, p)
    {
      p := p + 1;
    }
    sign := At(s, p) == '-';
    if At(s, p) == '-' || At(s, p) == '+' {
      p := p + 1;
    }
  }

  /** Lines 130-155: how many digits there are, and how many of them before the point. */
  method CountDigits(s: string, first: nat) returns (pExp: nat, mantSize: int, decPt: int)
    requires first <= |s|
    ensures pExp == MantissaEnd(s, first, false)
    ensures var t := s[first..pExp]; mantSize == |DigitsOf(t)| && decPt == PointOf(t)
  {
    hide Mantissa;
    var p := first;
    var size, point := 0, -1;
    while IsDigit(At(s, p)) || (At(s, p) == '.' && point < 0)
      invariant first <= p <= |s| && size == p - first && -1 <= point <= size
      invariant MantissaEnd(s, first, false) == MantissaEnd(s, p, point >= 0)
      invariant PointSeen(s, first, p, point)
      decreases |s| - p
    {
      PointStep(s, first, p, point);
      if !IsDigit(At(s, p)) {
        point := size;
      }
      p := p + 1;
      size := size + 1;
    }
    ScannedMantissa(s, first, false);
    PointFound(s, first, p, point);
    pExp := p;
    if point < 0 {
      decPt := size;
    } else {
      decPt := point;
      size := size - 1;
    }
    mantSize := size;
  }

  /** The number at the start of `s`, and the position behind it. */
  method Strtod(s: string) returns (value: real, end: nat)
    ensures value == Signed(Scan(s).negative, Computed(Scan(s))) && end == Scan(s).end
  {
    hide Pow10, Mantissa, IntOf, DigitsOf, PointOf, SkipSpaces, SkipDigits, SignEnd, MantissaEnd, At;
    var sign, p := TakeSign(s);
    var pExp, mantSize, decPt := CountDigits(s, p);
    ScannedMantissa(s, p, false);
    var fracExp: int;
    if mantSize > 18 {
      fracExp := decPt - 18;
      mantSize := 18;
    } else {
      fracExp := decPt - mantSize;
    }
    if mantSize == 0 {
      return 0.0, 0;
    }
    var fraction := TakeMantissa(s, p, mantSize, pExp);
    var exp;
    exp, end := TakeExponent(s, pExp);
    value := Scale(fraction, fracExp + exp);
    if sign {
      value := -value;
    }
  }

  /** `decPt` is where the point stands among the characters read so far, -1 if none does. */
  ghost predicate PointSeen(s: string, first: nat, p: nat, decPt: int)
    requires first <= p <= |s|
  {
    if decPt < 0 then '.' !in s[first..p]
    else decPt < p - first && s[first + decPt] == '.' && '.' !in s[first..first + decPt]
  }

  lemma PointStep(s: string, first: nat, p: nat, decPt: int)
    requires first <= p < |s| && PointSeen(s, first, p, decPt) && (IsDigit(s[p]) || (s[p] == '.' && decPt < 0))
    ensures PointSeen(s, first, p + 1, if IsDigit(s[p]) then decPt else p - first)
  {
    assert s[first..p + 1] == s[first..p] + [s[p]];
  }

  lemma PointFound(s: string, first: nat, p: nat, decPt: int)
    requires first <= p <= |s| && PointSeen(s, first, p, decPt)
    ensures PointOf(s[first..p]) == if decPt < 0 then p - first else decPt
  {
    var t := s[first..p];
    if decPt < 0 {
      PointPast(t, |t|);
    } else {
      assert t[..decPt] == s[first..first + decPt];
      PointPast(t, decPt);
    }
  }

  lemma {:induction false} PointPast(t: string, k: nat)
    requires k <= |t| && '.' !in t[..k] && (k < |t| ==> t[k] == '.')
    ensures PointOf(t) == k
    decreases k
  {
    if k > 0 {
      assert t[..k][0] == t[0];
      assert t[1..][..k - 1] == t[..k][1..];
      PointPast(t[1..], k - 1);
    }
  }

  /** The exponent field, if there is one. */
  method TakeExponent(s: string, pExp: nat) returns (exp: int, p: nat)
    requires pExp <= |s|
    ensures if At(s, pExp) == 'E' || At(s, pExp) == 'e' then
              var from := SignEnd(s, pExp + 1);
              && p == SkipDigits(s, from)
              && var x: int := IntOf(DigitsOf(s[from..p])); exp == if At(s, pExp + 1) == '-' then -x else x
            else exp == 0 && p == pExp
  {
    hide IntOf;
    p, exp := pExp, 0;
    if At(s, p) == 'E' || At(s, p) == 'e' {
      p := p + 1;
      var expSign := At(s, p) == '-';
      if At(s, p) == '-' || At(s, p) == '+' {
        p := p + 1;
      }
      ghost var from := p;
      NoDigits([]);
      while IsDigit(At(s, p))
        invariant from <= p <= |s| && SkipDigits(s, from) == SkipDigits(s, p) && exp == IntOf(DigitsOf(s[from..p]))
        decreases |s| - p
      {
        assert s[from..p + 1] == s[from..p] + [s[p]];
        DigitsAppend(s[from..p], s[p]);
        IntOfAppend(DigitsOf(s[from..p]), DigitOf(s[p]));
        exp := exp * 10 + DigitOf(At(s, p));
        p := p + 1;
      }
      if expSign {
        exp := -exp;
      }
    }
  }

  lemma {:induction false} DigitsAppend(t: string, c: char)
    requires IsDigit(c)
    ensures DigitsOf(t + [c]) == DigitsOf(t) + [DigitOf(c)]
  {
    if t == "" {
      assert DigitsOf([c]) == [DigitOf(c)] + DigitsOf("");
      assert t + [c] == [c];
    } else {
      assert (t + [c])[1..] == t[1..] + [c];
      DigitsAppend(t[1..], c);
    }
  }

  lemma IntOfAppend(d: seq<nat>, x: nat)
    ensures IntOf(d + [x]) == 10 * IntOf(d) + x
  {
    assert (d + [x])[..|d|] == d;
  }

  /** The exponent applied, no further than the table reaches. */
  method Scale(fraction: real, e: int) returns (value: real)
    ensures value == fraction * Pow10(Clamp(e))
  {
    var exp, expSign := e, false;
    if exp < 0 {
      expSign := true;
      exp := -exp;
    }
    if exp > MAX_EXPONENT {
      exp := MAX_EXPONENT;
    }
    var dblExp := ScaleFactor(exp);
    if expSign {
      Reciprocal(fraction, dblExp);
      value := fraction / dblExp;
    } else {
      value := fraction * dblExp;
    }
    hide Ten;
  }

  lemma Reciprocal(x: real, y: real)
    requires y > 0.0
    ensures x / y == x * (1.0 / y)
  {
  }

  // ----- how exact it is

  /** The digits beyond the eighteenth. */
  function Dropped(n: Decimal): seq<nat> { n.digits[Kept(n)..] }

  /** The number written is what is kept, in units of the last place kept, and what is dropped. */
  lemma KeptAndDropped(n: Decimal)
    ensures Magnitude(n) == Head(n) as real * Pow10(LastPlace(n)) + Rest(n)
  {
    hide IntOf, Ten, Pow10;
    var kept, dropped := n.digits[..Kept(n)], Dropped(n);
    assert n.digits == kept + dropped;
    IntOfConcat(kept, dropped);
    var unit := Pow10(LastPlace(n) - |dropped|);
    Pow10Add(LastPlace(n) - |dropped|, |dropped|);
    Distribute(IntOf(kept) as real, Ten(|dropped|), IntOf(dropped) as real, unit);
  }

  lemma Distribute(a: real, t: real, b: real, u: real)
    ensures (a * t + b) * u == a * (u * t) + b * u
  {
  }

  ghost predicate DigitsOk(n: Decimal) {
    forall i :: 0 <= i < |n.digits| ==> n.digits[i] <= 9
  }

  /** What the dropped digits are worth. */
  function Rest(n: Decimal): real {
    IntOf(Dropped(n)) as real * Pow10(LastPlace(n) - |Dropped(n)|)
  }

  /** What is dropped is less than one unit of the last place kept. */
  lemma DroppedBound(n: Decimal)
    requires DigitsOk(n)
    ensures 0.0 <= Rest(n) < Pow10(LastPlace(n)) && (Rest(n) == 0.0 <==> IntOf(Dropped(n)) == 0)
  {
    hide IntOf, Ten, Pow10, LastPlace;
    var dropped, e := Dropped(n), LastPlace(n) - |Dropped(n)|;
    assert forall i :: 0 <= i < |dropped| ==> dropped[i] == n.digits[Kept(n) + i];
    IntOfBound(dropped);
    Pow10Add(e, |dropped|);
    assert e + |dropped| == LastPlace(n);
    Scaled(IntOf(dropped), Ten(|dropped|), Pow10(e), Rest(n), Pow10(LastPlace(n)));
  }

  /** The kept digits as a number. */
  function Head(n: Decimal): nat { IntOf(n.digits[..Kept(n)]) }

  lemma ComputedIs(n: Decimal)
    ensures Computed(n) == Head(n) as real * Pow10(Clamp(LastPlace(n)))
  {
    hide Pow10, Ten, Clamp, LastPlace;
    NoDigits(n.digits[..Kept(n)]);
    if n.digits == [] {
      TimesZero(Pow10(Clamp(LastPlace(n))));
    }
  }

  lemma TimesZero(x: real)
    ensures 0.0 * x == 0.0
  {
  }

  /** `x` units of `u` are less than `t` of them. */
  lemma Scaled(x: nat, t: real, u: real, scaled: real, limit: real)
    requires x as real < t && u > 0.0 && scaled == x as real * u && limit == u * t
    ensures 0.0 <= scaled < limit && (scaled == 0.0 <==> x == 0)
  {
    assert (t - x as real) * u > 0.0;
    assert x > 0 ==> x as real * u > 0.0;
  }

  /** Within the exponent range, the reader truncates: by less than one unit of the last place kept. */
  lemma Truncates(n: Decimal)
    requires DigitsOk(n) && -MAX_EXPONENT <= LastPlace(n) <= MAX_EXPONENT
    ensures 0.0 <= Magnitude(n) - Computed(n) < Pow10(LastPlace(n))
  {
    hide Pow10, LastPlace, Magnitude, Computed, Rest, Head, DigitsOk;
    KeptAndDropped(n);
    DroppedBound(n);
    ComputedIs(n);
  }

  /** Beyond the range, a clamped exponent changes every number whose kept digits are not all zero. */
  lemma ClampChanges(m: nat, e: int, r: real)
    requires m > 0 && Clamp(e) != e && 0.0 <= r < Pow10(e)
    ensures m as real * Pow10(Clamp(e)) != m as real * Pow10(e) + r
  {
    hide Pow10;
    var x, c := m as real, Pow10(Clamp(e));
    if e > MAX_EXPONENT {
      Pow10Succ(MAX_EXPONENT);
      Pow10Mono(MAX_EXPONENT + 1, e);
      Larger(x, c, Pow10(e));
    } else {
      Pow10Succ(-MAX_EXPONENT - 1);
      Pow10Mono(e, -MAX_EXPONENT - 1);
      Smaller(x, c, Pow10(e), r);
    }
  }

  lemma Larger(x: real, c: real, p: real)
    requires x >= 1.0 && c > 0.0 && p >= 10.0 * c
    ensures x * c < x * p
  {
    assert x * (p - c) > 0.0;
  }

  lemma Smaller(x: real, c: real, p: real, r: real)
    requires x >= 1.0 && c > 0.0 && p > 0.0 && c >= 10.0 * p && r < p
    ensures x * p + r < x * c
  {
    assert x * (c - 10.0 * p) >= 0.0;
    assert x * p >= p by { assert (x - 1.0) * p >= 0.0; }
  }

  /**
   The value is exactly the number written if and only if no digit beyond the
   eighteenth counts and the exponent of the last place is within the table,
   or all kept digits are zero.
   */
  lemma ExactIff(n: Decimal)
    requires DigitsOk(n)
    ensures Computed(n) == Magnitude(n) <==>
      IntOf(Dropped(n)) == 0 && (IntOf(n.digits[..Kept(n)]) == 0 || -MAX_EXPONENT <= LastPlace(n) <= MAX_EXPONENT)
  {
    hide Pow10, LastPlace, Magnitude, Computed, Rest, Head, DigitsOk, IntOf, Dropped, Clamp;
    KeptAndDropped(n);
    DroppedBound(n);
    ComputedIs(n);
    HeadIs(n);
    var m, e := Head(n), LastPlace(n);
    ClampIs(e);
    if m == 0 {
      TimesZero(Pow10(e));
      TimesZero(Pow10(Clamp(e)));
    } else if Clamp(e) != e {
      ClampChanges(m, e, Rest(n));
    }
  }

  lemma HeadIs(n: Decimal)
    ensures Head(n) == IntOf(n.digits[..Kept(n)])
  {
  }

  lemma ClampIs(e: int)
    ensures Clamp(e) == e <==> -MAX_EXPONENT <= e <= MAX_EXPONENT
  {
  }

  /** At most eighteen digits and an exponent in range: the exact decimal value. */
  lemma ShortNumbersExact(s: string)
    requires |Scan(s).digits| <= 18 && -MAX_EXPONENT <= LastPlace(Scan(s)) <= MAX_EXPONENT
    ensures Computed(Scan(s)) == Magnitude(Scan(s))
  {
    NoDigits(Dropped(Scan(s)));
    ExactIff(Scan(s));
    hide IntOf, Ten, Pow10;
  }
}
