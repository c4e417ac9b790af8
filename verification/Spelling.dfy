/**
 Decimal numbers written out character by character, and what `sc_strtod` of
 common/strtod.c reads in them.
 */
module Spelling {
  import opened Reader = Strtod

  datatype Sign = Bare | Plus | Minus

  datatype Exponent = NoExponent | Exponent(letter: char, sign: Sign, digits: seq<nat>)

  /** A number as it is written: blanks, sign, digits, perhaps a point and more digits, perhaps an exponent. */
  datatype Numeral = Numeral(blanks: string, sign: Sign, whole: seq<nat>, point: bool, places: seq<nat>,
                             exponent: Exponent) {
    function Digits(): seq<nat> { whole + places }

    /** The power of ten it is scaled with. */
    function Power(): int {
      match exponent
      case NoExponent => 0
      case Exponent(_, g, d) => if g.Minus? then -(IntOf(d) as int) else IntOf(d)
    }
  }

  function Glyph(d: nat): char
    requires d <= 9
  {
    "0123456789"[d]
  }

  predicate Decimals(d: seq<nat>) { forall i :: 0 <= i < |d| ==> d[i] <= 9 }

  function DigitText(d: seq<nat>): (t: string)
    requires Decimals(d)
    ensures |t| == |d|
  {
    if d == [] then "" else [Glyph(d[0])] + DigitText(d[1..])
  }

  function SignText(g: Sign): string {
    match g
    case Bare => ""
    case Plus => "+"
    case Minus => "-"
  }

  function PointText(point: bool): string { if point then "." else "" }

  function ExponentText(x: Exponent): string
    requires x.Exponent? ==> Decimals(x.digits)
  {
    match x
    case NoExponent => ""
    case Exponent(letter, g, d) => [letter] + (SignText(g) + DigitText(d))
  }

  /** Spaces, tabs, line feeds, vertical tabs, form feeds and carriage returns. */
  ghost predicate Blanks(t: string) { forall i :: 0 <= i < |t| ==> t[i] == ' ' || 9 <= t[i] as int <= 13 }

  /** Blanks are blank, digits are digits, there is one in the mantissa, and the exponent has its letter. */
  ghost predicate Proper(n: Numeral) {
    && Blanks(n.blanks)
    && Decimals(n.whole) && Decimals(n.places) && n.whole + n.places != [] && (!n.point ==> n.places == [])
    && (n.exponent.Exponent? ==> Decimals(n.exponent.digits) && (n.exponent.letter == 'e' || n.exponent.letter == 'E'))
  }

  function Mantissa(n: Numeral): string
    requires Decimals(n.whole) && Decimals(n.places)
  {
    DigitText(n.whole) + (PointText(n.point) + DigitText(n.places))
  }

  function Spell(n: Numeral): string
    requires Decimals(n.whole) && Decimals(n.places) && (n.exponent.Exponent? ==> Decimals(n.exponent.digits))
  {
    n.blanks + SignText(n.sign) + Mantissa(n) + ExponentText(n.exponent)
  }

  /** What follows does not go on with the number. */
  ghost predicate EndsBefore(n: Numeral, rest: string) {
    rest != "" ==>
      && !('0' <= rest[0] <= '9')
      && (n.exponent.NoExponent? ==> rest[0] != 'e' && rest[0] != 'E' && (n.point || rest[0] != '.'))
      && (n.exponent.Exponent? && n.exponent.sign.Bare? && n.exponent.digits == [] ==> rest[0] != '+' && rest[0] != '-')
  }

  // ----- digits

  lemma GlyphRead(d: nat)
    requires d <= 9
    ensures IsDigit(Glyph(d)) && DigitOf(Glyph(d)) == d
  {
    var g := "0123456789";
    assert g[0] == '0' && g[1] == '1' && g[2] == '2' && g[3] == '3' && g[4] == '4';
    assert g[5] == '5' && g[6] == '6' && g[7] == '7' && g[8] == '8' && g[9] == '9';
  }

  ghost predicate AllDigits(t: string) { forall i :: 0 <= i < |t| ==> IsDigit(t[i]) }

  lemma {:induction false} DigitTextRead(d: seq<nat>)
    requires Decimals(d)
    ensures AllDigits(DigitText(d)) && DigitsOf(DigitText(d)) == d
  {
    if d != [] {
      GlyphRead(d[0]);
      DigitTextRead(d[1..]);
      hide Glyph;
      assert DigitText(d)[1..] == DigitText(d[1..]);
    }
  }

  /** The digit a character is, if it is one. */
  function AsDigits(c: char): seq<nat> {
    if IsDigit(c) then [DigitOf(c)] else []
  }

  lemma DigitsStep(c: char, t: string)
    ensures DigitsOf([c] + t) == AsDigits(c) + DigitsOf(t) && DigitsOf("") == []
  {
    assert ([c] + t)[1..] == t;
  }

  lemma {:induction false} DigitsJoin(a: string, b: string)
    ensures DigitsOf(a + b) == DigitsOf(a) + DigitsOf(b)
  {
    hide DigitsOf, AsDigits;
    if a == "" {
      DigitsStep(' ', "");
      assert a + b == b;
    } else {
      var c, t := a[0], a[1..];
      assert a == [c] + t && a + b == [c] + (t + b);
      DigitsJoin(t, b);
      DigitsStep(c, t);
      DigitsStep(c, t + b);
      assert AsDigits(c) + (DigitsOf(t) + DigitsOf(b)) == AsDigits(c) + DigitsOf(t) + DigitsOf(b);
    }
  }

  // ----- how far each part goes

  lemma {:induction false} SpacesTo(s: string, p: nat, q: nat)
    requires p <= q <= |s| && (forall i :: p <= i < q ==> IsSpace(s[i])) && (q < |s| ==> !IsSpace(s[q]))
    ensures SkipSpaces(s, p) == q
    decreases q - p
  {
    if p < q {
      SpacesTo(s, p + 1, q);
    }
  }

  lemma {:induction false} DigitsTo(s: string, p: nat, q: nat)
    requires p <= q <= |s| && (forall i :: p <= i < q ==> IsDigit(s[i])) && !IsDigit(At(s, q))
    ensures SkipDigits(s, p) == q
    decreases q - p
  {
    if p < q {
      DigitsTo(s, p + 1, q);
    }
  }

  lemma {:induction false} MantissaOver(s: string, p: nat, q: nat, point: bool)
    requires p <= q <= |s| && forall i :: p <= i < q ==> IsDigit(s[i])
    ensures MantissaEnd(s, p, point) == MantissaEnd(s, q, point)
    decreases q - p
  {
    if p < q {
      MantissaOver(s, p + 1, q, point);
    }
  }

  /** The text `t` stands in `s` at `p`. */
  ghost predicate Has(s: string, p: nat, t: string) {
    p + |t| <= |s| && forall i :: 0 <= i < |t| ==> s[p + i] == t[i]
  }

  lemma HasJoin(s: string, p: nat, a: string, b: string)
    requires Has(s, p, a + b)
    ensures Has(s, p, a) && Has(s, p + |a|, b) && p + |a| + |b| <= |s|
  {
    forall i | 0 <= i < |a| ensures s[p + i] == a[i] {
      assert (a + b)[i] == a[i];
    }
    forall i | 0 <= i < |b| ensures s[p + |a| + i] == b[i] {
      assert (a + b)[|a| + i] == b[i] && s[p + (|a| + i)] == (a + b)[|a| + i];
    }
  }

  lemma HasSlice(s: string, p: nat, t: string)
    requires Has(s, p, t)
    ensures p + |t| <= |s| && s[p..p + |t|] == t
  {
  }

  lemma HasFirst(s: string, p: nat, t: string)
    requires Has(s, p, t) && t != ""
    ensures p < |s| && s[p] == t[0] && At(s, p) == t[0]
  {
    assert s[p + 0] == t[0];
  }

  lemma HasDigits(s: string, p: nat, t: string)
    requires Has(s, p, t) && AllDigits(t)
    ensures p + |t| <= |s| && forall i :: p <= i < p + |t| ==> IsDigit(s[i])
  {
    hide IsDigit;
    forall i | p <= i < p + |t| ensures IsDigit(s[i]) {
      assert s[p + (i - p)] == t[i - p];
    }
  }

  lemma PointIsNoDigit()
    ensures !IsDigit('.')
  {
  }

  /** The mantissa ends where its text ends. */
  lemma MantissaTo(s: string, p: nat, w: string, point: bool, t: string)
    requires AllDigits(w) && AllDigits(t) && (!point ==> t == "") && Has(s, p, w + (PointText(point) + t))
    requires var q := p + |w| + |PointText(point)| + |t|; !IsDigit(At(s, q)) && (!point ==> At(s, q) != '.')
    ensures MantissaEnd(s, p, false) == p + |w| + |PointText(point)| + |t|
  {
    hide IsDigit, Has, AllDigits;
    var q := p + |w| + |PointText(point)| + |t|;
    HasJoin(s, p, w, PointText(point) + t);
    HasJoin(s, p + |w|, PointText(point), t);
    HasDigits(s, p, w);
    MantissaOver(s, p, p + |w|, false);
    if point {
      HasFirst(s, p + |w|, ".");
      HasDigits(s, p + |w| + 1, t);
      MantissaOver(s, p + |w| + 1, q, true);
      PointIsNoDigit();
    }
  }

  /** The digits of a mantissa, and where its point stands. */
  lemma MantissaRead(w: string, point: bool, t: string)
    requires AllDigits(w) && (!point ==> t == "")
    ensures var m := w + (PointText(point) + t);
      DigitsOf(m) == DigitsOf(w) + DigitsOf(t) && PointOf(m) == |w|
  {
    hide DigitsOf, PointOf, IsDigit;
    var m := w + (PointText(point) + t);
    DigitsJoin(w, PointText(point) + t);
    DigitsJoin(PointText(point), t);
    PointIsNoDigit();
    assert '.' !in m[..|w|] by { assert m[..|w|] == w; }
    PointPast(m, |w|);
    DigitsStep('.', "");
    assert ['.'] + "" == ".";
    assert AsDigits('.') == [];
    assert [] + DigitsOf(t) == DigitsOf(t);
  }

  lemma SignTo(s: string, p: nat, g: Sign)
    requires Has(s, p, SignText(g)) && (g.Bare? ==> At(s, p) != '+' && At(s, p) != '-')
    ensures SignEnd(s, p) == p + |SignText(g)| && (At(s, p) == '-' <==> g.Minus?)
  {
    hide Has;
    if !g.Bare? {
      HasFirst(s, p, SignText(g));
    }
  }

  /** A sign and digits, as in an exponent. */
  lemma SignedDigits(s: string, p: nat, g: Sign, d: string)
    requires Has(s, p, SignText(g)) && Has(s, p + |SignText(g)|, d) && AllDigits(d)
    requires var e := p + |SignText(g)| + |d|;
      !IsDigit(At(s, e)) && (g.Bare? && d == "" ==> At(s, e) != '+' && At(s, e) != '-')
    ensures var from := p + |SignText(g)|;
      SignEnd(s, p) == from && SkipDigits(s, from) == from + |d| <= |s| && s[from..from + |d|] == d
    ensures At(s, p) == '-' <==> g.Minus?
  {
    hide SkipDigits, SignEnd, SignText, At, Has, AllDigits;
    var from := p + |SignText(g)|;
    if g.Bare? {
      BareStart(s, p, d);
    }
    SignTo(s, p, g);
    HasDigits(s, from, d);
    HasSlice(s, from, d);
    DigitsTo(s, from, from + |d|);
  }

  /** Digits without a sign in front. */
  lemma BareStart(s: string, p: nat, d: string)
    requires Has(s, p + |SignText(Bare)|, d) && AllDigits(d)
    requires d == "" ==> At(s, p + |SignText(Bare)|) != '+' && At(s, p + |SignText(Bare)|) != '-'
    ensures At(s, p) != '+' && At(s, p) != '-'
  {
    hide Has;
    if d != "" {
      HasFirst(s, p, d);
      assert IsDigit(d[0]);
    }
  }

  lemma SignIsNoSpace()
    ensures !IsSpace('+') && !IsSpace('-') && !IsSpace('.')
    ensures forall c :: IsDigit(c) ==> !IsSpace(c)
  {
  }

  // ----- the whole text

  lemma AtRest(s: string, e: nat, rest: string)
    requires Has(s, e, rest) && e + |rest| == |s|
    ensures At(s, e) == if rest == "" then '\0' else rest[0]
  {
    if rest != "" {
      HasFirst(s, e, rest);
    }
  }

  /** What stands where the blanks end. */
  lemma StartsWell(s: string, blanks: string, g: Sign, m: string)
    requires Blanks(blanks) && Has(s, 0, blanks) && Has(s, |blanks|, SignText(g)) && Has(s, |blanks| + |SignText(g)|, m)
    requires m != "" && (IsDigit(m[0]) || m[0] == '.')
    ensures SkipSpaces(s, 0) == |blanks|
    ensures g.Bare? ==> At(s, |blanks|) != '+' && At(s, |blanks|) != '-'
  {
    hide SkipSpaces, Has;
    var b := |blanks|;
    HasBlanks(s, blanks);
    SignIsNoSpace();
    HasFirst(s, b + |SignText(g)|, m);
    if !g.Bare? {
      HasFirst(s, b, SignText(g));
    }
    SpacesTo(s, 0, b);
  }

  lemma HasBlanks(s: string, blanks: string)
    requires Has(s, 0, blanks) && Blanks(blanks)
    ensures |blanks| <= |s| && forall i :: 0 <= i < |blanks| ==> IsSpace(s[i])
  {
    forall i | 0 <= i < |blanks| ensures IsSpace(s[i]) {
      assert s[0 + i] == blanks[i];
    }
  }

  lemma FirstOfMantissa(w: string, point: bool, t: string)
    requires AllDigits(w) && w + t != "" && (!point ==> t == "")
    ensures var m := w + (PointText(point) + t); m != "" && (IsDigit(m[0]) || m[0] == '.')
  {
    hide IsDigit;
  }

  /** Where the parts of a text stand. */
  lemma Parts(s: string, a: string, b: string, c: string, d: string, rest: string)
    requires s == a + b + c + d + rest
    ensures var i, j, k := |a|, |a| + |b|, |a| + |b| + |c|;
      && Has(s, 0, a) && Has(s, i, b) && Has(s, j, c) && Has(s, k, d) && Has(s, k + |d|, rest)
      && |s| == k + |d| + |rest|
  {
    assert s == a + (b + (c + (d + rest)));
    assert Has(s, 0, a + (b + (c + (d + rest))));
    hide Has;
    HasJoin(s, 0, a, b + (c + (d + rest)));
    HasJoin(s, |a|, b, c + (d + rest));
    HasJoin(s, |a| + |b|, c, d + rest);
    HasJoin(s, |a| + |b| + |c|, d, rest);
  }

  /** Sign and mantissa as the scan sees them. */
  lemma MantissaScan(s: string, blanks: string, g: Sign, w: string, point: bool, t: string)
    requires AllDigits(w) && AllDigits(t) && w + t != "" && (!point ==> t == "")
    requires Blanks(blanks) && Has(s, 0, blanks) && Has(s, |blanks|, SignText(g))
    requires var m, first := w + (PointText(point) + t), |blanks| + |SignText(g)|;
      Has(s, first, m) && !IsDigit(At(s, first + |m|)) && (!point ==> At(s, first + |m|) != '.')
    ensures var m, b := w + (PointText(point) + t), |blanks|;
      var first := b + |SignText(g)|;
      && SkipSpaces(s, 0) == b && SignEnd(s, b) == first && MantissaEnd(s, first, false) == first + |m| <= |s|
      && DigitsOf(s[first..first + |m|]) == DigitsOf(w) + DigitsOf(t) && PointOf(s[first..first + |m|]) == |w|
      && (At(s, b) == '-' <==> g.Minus?)
  {
    hide SkipSpaces, SignEnd, MantissaEnd, IsDigit, SignText, Has, At, DigitsOf, PointOf, AllDigits, Blanks, PointText;
    var m := w + (PointText(point) + t);
    FirstOfMantissa(w, point, t);
    StartsWell(s, blanks, g, m);
    SignTo(s, |blanks|, g);
    MantissaTo(s, |blanks| + |SignText(g)|, w, point, t);
    HasSlice(s, |blanks| + |SignText(g)|, m);
    MantissaRead(w, point, t);
  }

  /** What stands behind the mantissa, and behind the exponent. */
  lemma EndsWell(n: Numeral, rest: string, s: string, last: nat)
    requires Proper(n) && EndsBefore(n, rest)
    requires var e := last + |ExponentText(n.exponent)|;
      Has(s, last, ExponentText(n.exponent)) && Has(s, e, rest) && e + |rest| == |s|
    ensures var e := last + |ExponentText(n.exponent)|;
      && !IsDigit(At(s, e)) && !IsDigit(At(s, last)) && (!n.point ==> At(s, last) != '.')
      && ((At(s, last) == 'E' || At(s, last) == 'e') <==> n.exponent.Exponent?)
      && (n.exponent.Exponent? && n.exponent.sign.Bare? && n.exponent.digits == [] ==>
            At(s, e) != '+' && At(s, e) != '-')
    ensures n.exponent.NoExponent? ==> ExponentText(n.exponent) == "" && n.Power() == 0
  {
    hide Has, At, DigitText;
    AtRest(s, last + |ExponentText(n.exponent)|, rest);
    if n.exponent.Exponent? {
      HasFirst(s, last, ExponentText(n.exponent));
    }
  }

  /** What the scan makes of an exponent. */
  lemma PowerRead(x: Exponent, s: string, last: nat)
    requires x.Exponent? && Decimals(x.digits) && Has(s, last, ExponentText(x))
    requires var e := last + |ExponentText(x)|;
      !IsDigit(At(s, e)) && (x.sign.Bare? && x.digits == [] ==> At(s, e) != '+' && At(s, e) != '-')
    ensures var from := SignEnd(s, last + 1);
      var end := SkipDigits(s, from);
      && end == last + |ExponentText(x)|
      && DigitsOf(s[from..end]) == x.digits && (At(s, last + 1) == '-' <==> x.sign.Minus?)
  {
    hide DigitText, DigitsOf, SkipDigits, SignEnd, SignText, Has, At, IsDigit;
    var d := DigitText(x.digits);
    DigitTextRead(x.digits);
    HasJoin(s, last, [x.letter], SignText(x.sign) + d);
    HasJoin(s, last + 1, SignText(x.sign), d);
    SignedDigits(s, last + 1, x.sign, d);
  }

  /** Every number written out is scanned as what it says, and up to where it ends. */
  lemma ScanSpelled(n: Numeral, rest: string)
    requires Proper(n) && EndsBefore(n, rest)
    ensures Scan(Spell(n) + rest) == Decimal(n.sign.Minus?, n.Digits(), |n.whole|, n.Power(), |Spell(n)|)
  {
    hide DigitText, DigitsOf, SkipDigits, SkipSpaces, SignEnd, MantissaEnd, PointOf, IntOf, SignText, At, Has, IsDigit,
      PointText, Decimals, EndsBefore, AllDigits, ExponentText;
    var w, t, x := DigitText(n.whole), DigitText(n.places), ExponentText(n.exponent);
    var s := Spell(n) + rest;
    DigitTextRead(n.whole);
    DigitTextRead(n.places);
    Parts(s, n.blanks, SignText(n.sign), Mantissa(n), x, rest);
    var last := |n.blanks| + |SignText(n.sign)| + |Mantissa(n)|;
    EndsWell(n, rest, s, last);
    MantissaScan(s, n.blanks, n.sign, w, n.point, t);
    if n.exponent.Exponent? {
      PowerRead(n.exponent, s, last);
    }
  }

  /** The number written, without its sign. */
  function Written(n: Numeral): real {
    IntOf(n.Digits()) as real * Pow10(n.Power() - |n.places|)
  }

  /** The power of ten of the eighteenth digit, or of the last one if there are fewer. */
  function Place(n: Numeral): int {
    n.Power() - |n.places| + if |n.Digits()| > 18 then |n.Digits()| - 18 else 0
  }

  /**
   Every number written out, whatever stands behind it, is read up to its end: exactly, if it
   has at most 18 digits, and otherwise truncated by less than one unit of the eighteenth.
   */
  method ReadNumeral(n: Numeral, rest: string) returns (text: string, value: real, end: nat)
    requires Proper(n) && EndsBefore(n, rest)
    ensures text == Spell(n) + rest && end == |Spell(n)|
    ensures |n.Digits()| <= 18 && -511 <= Place(n) <= 511 ==> value == if n.sign.Minus? then -Written(n) else Written(n)
    ensures -511 <= Place(n) <= 511 ==>
      0.0 <= Written(n) - (if n.sign.Minus? then -value else value) < Pow10(Place(n))
  {
    hide Pow10, IntOf, Spell;
    text := Spell(n) + rest;
    value, end := Strtod(text);
    ScanSpelled(n, rest);
    ghost var d := Decimal(n.sign.Minus?, n.Digits(), |n.whole|, n.Power(), |Spell(n)|);
    assert Place(n) == LastPlace(d) && Written(n) == Magnitude(d);
    assert DigitsOk(d);
    if -511 <= Place(n) <= 511 {
      Truncates(d);
      if |n.Digits()| <= 18 {
        ShortNumbersExact(text);
      }
    }
  }

  /** Blanks, a sign and a point alone are no number: nothing is read. */
  method ReadNothing(blanks: string, g: Sign, point: bool, rest: string)
    returns (text: string, value: real, end: nat)
    requires Blanks(blanks)
    requires rest != "" ==>
      && !('0' <= rest[0] <= '9') && (!point ==> rest[0] != '.')
      && (g.Bare? && !point ==> rest[0] != '+' && rest[0] != '-' && rest[0] != ' ' && !(9 <= rest[0] as int <= 13))
    ensures text == blanks + SignText(g) + PointText(point) + rest && value == 0.0 && end == 0
  {
    text := blanks + SignText(g) + PointText(point) + rest;
    assert text == blanks + SignText(g) + PointText(point) + "" + rest;
    NothingScanned(text, blanks, g, point, rest);
    value, end := Strtod(text);
  }

  lemma NothingScanned(s: string, blanks: string, g: Sign, point: bool, rest: string)
    requires Blanks(blanks) && s == blanks + SignText(g) + PointText(point) + "" + rest
    requires rest != "" ==>
      && !('0' <= rest[0] <= '9') && (!point ==> rest[0] != '.')
      && (g.Bare? && !point ==> rest[0] != '+' && rest[0] != '-' && rest[0] != ' ' && !(9 <= rest[0] as int <= 13))
    ensures Scan(s).digits == [] && Scan(s).end == 0
  {
    hide SkipSpaces, SignEnd, MantissaEnd, SkipDigits, Has, IntOf, PointOf, DigitsOf;
    var b, first := |blanks|, |blanks| + |SignText(g)|;
    Parts(s, blanks, SignText(g), PointText(point), "", rest);
    AtRest(s, first + |PointText(point)|, rest);
    HasBlanks(s, blanks);
    if point {
      HasFirst(s, first, ".");
    }
    if !g.Bare? {
      HasFirst(s, b, SignText(g));
    }
    SpacesTo(s, 0, b);
    SignTo(s, b, g);
    PointOnly(s, first, point);
    HasSlice(s, first, PointText(point));
    NoDigitsIn(point);
  }

  lemma PointOnly(s: string, p: nat, point: bool)
    requires p + |PointText(point)| <= |s| && (point ==> s[p] == '.')
    requires !IsDigit(At(s, p + |PointText(point)|)) && (!point ==> At(s, p) != '.')
    ensures MantissaEnd(s, p, false) == p + |PointText(point)|
  {
  }

  lemma NoDigitsIn(point: bool)
    ensures DigitsOf(PointText(point)) == []
  {
    DigitsStep('.', "");
    PointIsNoDigit();
    assert ['.'] + "" == ".";
  }

  // ----- whole numbers and powers of ten

  /** The usual decimal text of a number. */
  function NatText(m: nat): string {
    if m < 10 then [Glyph(m)] else NatText(m / 10) + [Glyph(m % 10)]
  }

  function NatDigits(m: nat): seq<nat> {
    if m < 10 then [m] else NatDigits(m / 10) + [m % 10]
  }

  lemma {:induction false} NatDigitsOk(m: nat)
    ensures Decimals(NatDigits(m)) && IntOf(NatDigits(m)) == m && NatDigits(m) != []
    ensures DigitText(NatDigits(m)) == NatText(m)
  {
    hide Glyph;
    if m < 10 {
      assert IntOf([m]) == 10 * IntOf([]) + m;
      assert DigitText([m]) == [Glyph(m)] + DigitText([]);
    } else {
      NatDigitsOk(m / 10);
      IntOfAppend(NatDigits(m / 10), m % 10);
      TextAppend(NatDigits(m / 10), m % 10);
    }
  }

  lemma {:induction false} TextAppend(d: seq<nat>, x: nat)
    requires Decimals(d) && x <= 9
    ensures Decimals(d + [x]) && DigitText(d + [x]) == DigitText(d) + [Glyph(x)]
  {
    hide Glyph;
    if d == [] {
      assert d + [x] == [x];
      assert DigitText([x]) == [Glyph(x)] + DigitText([]);
    } else {
      assert (d + [x])[1..] == d[1..] + [x];
      TextAppend(d[1..], x);
    }
  }

  /** A number below ten to the `k` has at most `k` digits. */
  lemma {:induction false} FewDigits(m: nat, k: nat)
    requires k > 0 && m as real < Ten(k)
    ensures |NatDigits(m)| <= k
    decreases k
  {
    if m >= 10 {
      TenStep(k - 1);
      TenStep(0);
      hide Ten;
      var q := m / 10;
      assert 10 * q <= m;
      FewDigits(q, k - 1);
    }
  }

  /**
   `m` times ten to the `x`, in the usual text of both numbers, is read as that value, for
   every `m` of at most 18 digits and every `x` up to 511.
   */
  method ReadScientific(minus: bool, m: nat, x: int) returns (text: string, value: real, end: nat)
    requires m < 1_000_000_000_000_000_000 && -511 <= x <= 511
    ensures value == if minus then -(m as real * Pow10(x)) else m as real * Pow10(x)
    ensures text == (if minus then "-" else "") + NatText(m) + "e" + (if x < 0 then "-" + NatText(-x) else NatText(x))
    ensures end == |text|
  {
    hide Pow10, IntOf, NatText, NatDigits, DigitText, Spell, Decimals;
    var power := NatDigits(if x < 0 then -x else x);
    var n := Numeral("", if minus then Minus else Bare, NatDigits(m), false, [],
                     Exponent('e', if x < 0 then Minus else Bare, power));
    NatDigitsOk(m);
    NatDigitsOk(if x < 0 then -x else x);
    NoPlaces();
    EighteenDigits(m);
    assert n.Digits() == NatDigits(m) && n.Power() == x;
    SpelledScientific(n, minus, m, x);
    text, value, end := ReadNumeral(n, "");
  }

  lemma NoPlaces()
    ensures Decimals([]) && DigitText([]) == ""
  {
  }

  lemma EighteenDigits(m: nat)
    requires m < 1_000_000_000_000_000_000
    ensures |NatDigits(m)| <= 18
  {
    hide NatDigits, Ten;
    TenAdd(9, 9);
    Billion();
    FewDigits(m, 18);
  }

  lemma SpelledScientific(n: Numeral, minus: bool, m: nat, x: int)
    requires Decimals(NatDigits(m)) && Decimals(NatDigits(if x < 0 then -x else x)) && Decimals([])
    requires n == Numeral("", if minus then Minus else Bare, NatDigits(m), false, [],
                          Exponent('e', if x < 0 then Minus else Bare, NatDigits(if x < 0 then -x else x)))
    ensures Spell(n) ==
      (if minus then "-" else "") + NatText(m) + "e" + (if x < 0 then "-" + NatText(-x) else NatText(x))
  {
    hide DigitText, NatText, NatDigits, Decimals;
    NatDigitsOk(m);
    NatDigitsOk(if x < 0 then -x else x);
    NoPlaces();
  }
}
