/** The number grammar of section 6 of RFC 8259: agreement with the scanner, and exact values. */
module NumberGrammar {
  import opened Base
  import opened Tree
  import opened Numbers
  import opened Lexical

  /** number = [ minus ] int [ frac ] [ exp ] */
  datatype NumberText = NumberText(minus: bool, whole: bytes, frac: Option<bytes>, exp: Option<ExpText>)

  /** exp = e [ minus / plus ] 1*DIGIT */
  datatype ExpText = ExpText(e: byte, sign: Option<byte>, digits: bytes)

  predicate WellFormedNumber(n: NumberText) {
    && AllDigits(n.whole) && n.whole != [] && (n.whole[0] == 0x30 ==> |n.whole| == 1)
    && (n.frac.Some? ==> AllDigits(n.frac.value) && n.frac.value != [])
    && (n.exp.Some? ==> WellFormedExp(n.exp.value))
  }

  predicate WellFormedExp(x: ExpText) {
    IsExponentLetter(x.e) && (x.sign.Some? ==> x.sign.value == 0x2B || x.sign.value == 0x2D)
    && AllDigits(x.digits) && x.digits != []
  }

  function FracText(f: Option<bytes>): bytes {
    match f
    case None => []
    case Some(ds) => [DOT] + ds
  }

  function SignText(sign: Option<byte>): bytes {
    match sign
    case None => []
    case Some(b) => [b]
  }

  function ExponentText(x: Option<ExpText>): bytes {
    match x
    case None => []
    case Some(t) => [t.e] + (SignText(t.sign) + t.digits)
  }

  function MinusText(minus: bool): bytes { if minus then [MINUS] else [] }

  function NumText(n: NumberText): bytes {
    MinusText(n.minus) + (n.whole + (FracText(n.frac) + ExponentText(n.exp)))
  }

  /** The parts of a literal, as the scanner cuts them. */
  function Parts(n: NumberText, next: nat): Lexeme {
    Lexeme(n.minus, n.whole, FracDigits(n.frac), ExponentOf(n.exp), next)
  }

  /** No longer literal can start where this one does: the text goes on with something else. */
  predicate Ends(s: bytes, e: nat) {
    e >= |s| || (!IsDigit(s[e]) && s[e] != DOT && !IsE(s[e]))
  }

  // ---------- soundness and completeness of the scanner ----------

  /** A run of digits that something else follows is what DigitRun finds. */
  lemma {:induction false} RunComplete(s: bytes, i: nat, ds: bytes)
    requires AllDigits(ds) && At(s, i, ds)
    requires i + |ds| == |s| || !IsDigit(s[i + |ds|])
    ensures DigitRun(s, i) == ds
    ensures ds != [] ==> ds[0] == s[i] && IsDigit(s[i])
    decreases |ds|
  {
    hide At;
    AtBounds(s, i, ds);
    if ds != [] {
      var d, rest := ds[0], ds[1..];
      assert ds == [d] + rest;
      AtConcat(s, i, [d], rest);
      AtByte(s, i, d);
      RunComplete(s, i + 1, rest);
    }
  }

  lemma {:induction false} RunSound(s: bytes, i: nat)
    requires i <= |s|
    ensures At(s, i, DigitRun(s, i))
    decreases |s| - i
  {
    if i < |s| && IsDigit(s[i]) {
      RunSound(s, i + 1);
      AtConcat(s, i, [s[i]], DigitRun(s, i + 1));
    }
  }

  function FracDigits(f: Option<bytes>): bytes {
    if f.Some? then f.value else []
  }

  function ExponentOf(x: Option<ExpText>): Option<Exponent> {
    if x.Some? then Some(Exponent(x.value.sign == Some(MINUS), x.value.digits)) else None
  }

  lemma ExponentComplete(s: bytes, q: nat, minus: bool, whole: bytes, frac: bytes, x: Option<ExpText>)
    requires AllDigits(whole) && whole != [] && AllDigits(frac)
    requires (x.Some? ==> WellFormedExp(x.value)) && At(s, q, ExponentText(x)) && Ends(s, q + |ExponentText(x)|)
    ensures LexExponent(s, minus, whole, frac, q)
         == Ok(Lexeme(minus, whole, frac, ExponentOf(x), q + |ExponentText(x)|))
    ensures q == |s| || (!IsDigit(s[q]) && s[q] != DOT)
  {
    match x
    case None =>
    case Some(t) =>
      var sign := SignText(t.sign);
      AtConcat(s, q, [t.e], sign + t.digits);
      AtConcat(s, q + 1, sign, t.digits);
      assert [t.e][0] == s[q];
      if t.sign.Some? { assert sign[0] == s[q + 1]; }
      RunComplete(s, q + 1 + |sign|, t.digits);
  }

  lemma FractionComplete(s: bytes, q: nat, minus: bool, whole: bytes, frac: Option<bytes>, x: Option<ExpText>)
    requires AllDigits(whole) && whole != []
    requires frac.Some? ==> AllDigits(frac.value) && frac.value != []
    requires x.Some? ==> WellFormedExp(x.value)
    requires At(s, q, FracText(frac)) && At(s, q + |FracText(frac)|, ExponentText(x))
    requires Ends(s, q + |FracText(frac)| + |ExponentText(x)|)
    ensures LexFraction(s, minus, whole, q) ==
      Ok(Lexeme(minus, whole, FracDigits(frac), ExponentOf(x), q + |FracText(frac)| + |ExponentText(x)|))
    ensures q == |s| || !IsDigit(s[q])
  {
    hide At, LexExponent, DigitRun, ExponentText, ExponentOf, Ends;
    ExponentComplete(s, q + |FracText(frac)|, minus, whole, FracDigits(frac), x);
    if frac.Some? {
      AtConcat(s, q, [DOT], frac.value);
      AtByte(s, q, DOT);
      AtBounds(s, q + 1, frac.value);
      RunComplete(s, q + 1, frac.value);
    }
  }

  /** Completeness: a grammatical literal is cut into its parts. */
  lemma NumberComplete(s: bytes, i: nat, n: NumberText)
    requires WellFormedNumber(n) && At(s, i, NumText(n))
    requires Ends(s, i + |NumText(n)|)
    ensures LexNumber(s, i) == Ok(Parts(n, i + |NumText(n)|))
  {
    hide At, FracText, ExponentText, LexFraction, DigitRun, FracDigits, ExponentOf, Ends;
    var sign, f, e := MinusText(n.minus), FracText(n.frac), ExponentText(n.exp);
    AtConcat(s, i, sign, n.whole + (f + e));
    var p := i + |sign|;
    if n.minus { AtByte(s, i, MINUS); }
    AtConcat(s, p, n.whole, f + e);
    AtConcat(s, p + |n.whole|, f, e);
    FractionComplete(s, p + |n.whole|, n.minus, n.whole, n.frac, n.exp);
    RunComplete(s, p, n.whole);
    assert n.whole[0] == 0x30 ==> n.whole == [0x30];
  }

  /** Soundness: whatever the scanner accepts is a grammatical literal with those parts. */
  lemma NumberSound(s: bytes, i: nat) returns (n: NumberText)
    requires i <= |s| && LexNumber(s, i).Ok?
    ensures WellFormedNumber(n) && At(s, i, NumText(n))
    ensures LexNumber(s, i).value == Parts(n, i + |NumText(n)|)
  {
    hide At, FracText, ExponentText, LexFraction;
    var minus := s[i] == MINUS;
    AtByte(s, i, MINUS);
    AtNothing(s, i);
    var p := if minus then i + 1 else i;
    var whole := if s[p] == 0x30 then [0x30] else DigitRun(s, p);
    RunSound(s, p);
    AtByte(s, p, 0x30);
    var q := p + |whole|;
    var frac, exp := FractionSound(s, minus, whole, q);
    n := NumberText(minus, whole, frac, exp);
    AtConcat(s, q, FracText(frac), ExponentText(exp));
    AtConcat(s, p, whole, FracText(frac) + ExponentText(exp));
    AtConcat(s, i, MinusText(minus), whole + (FracText(frac) + ExponentText(exp)));
  }

  lemma FractionSound(s: bytes, minus: bool, whole: bytes, q: nat) returns (frac: Option<bytes>, exp: Option<ExpText>)
    requires q <= |s| && AllDigits(whole) && whole != []
    requires LexFraction(s, minus, whole, q).Ok?
    ensures frac.Some? ==> AllDigits(frac.value) && frac.value != []
    ensures exp.Some? ==> WellFormedExp(exp.value)
    ensures At(s, q, FracText(frac)) && At(s, q + |FracText(frac)|, ExponentText(exp))
    ensures LexFraction(s, minus, whole, q).value ==
      Lexeme(minus, whole, FracDigits(frac), ExponentOf(exp), q + |FracText(frac)| + |ExponentText(exp)|)
  {
    hide At, LexExponent, ExponentText;
    AtNothing(s, q);
    AtByte(s, q, DOT);
    if q < |s| && s[q] == DOT {
      var ds := DigitRun(s, q + 1);
      frac := Some(ds);
      RunSound(s, q + 1);
      AtConcat(s, q, [DOT], ds);
      exp := ExponentSound(s, minus, whole, ds, q + 1 + |ds|);
    } else {
      frac := None;
      exp := ExponentSound(s, minus, whole, [], q);
    }
  }

  lemma ExponentSound(s: bytes, minus: bool, whole: bytes, frac: bytes, q: nat) returns (exp: Option<ExpText>)
    requires q <= |s| && AllDigits(whole) && whole != [] && AllDigits(frac)
    requires LexExponent(s, minus, whole, frac, q).Ok?
    ensures exp.Some? ==> WellFormedExp(exp.value)
    ensures At(s, q, ExponentText(exp))
    ensures LexExponent(s, minus, whole, frac, q).value ==
      Lexeme(minus, whole, frac, ExponentOf(exp), q + |ExponentText(exp)|)
  {
    hide At;
    AtNothing(s, q);
    if q < |s| && IsE(s[q]) {
      var signed := s[q + 1] == PLUS || s[q + 1] == MINUS;
      var d := if signed then q + 2 else q + 1;
      var sign := if signed then Some(s[q + 1]) else None;
      var digits := DigitRun(s, d);
      exp := Some(ExpText(s[q], sign, digits));
      RunSound(s, d);
      ExponentAt(s, q, sign, digits);
    } else {
      exp := None;
    }
  }

  lemma ExponentAt(s: bytes, q: nat, sign: Option<byte>, digits: bytes)
    requires q + 1 < |s| && (sign.Some? ==> s[q + 1] == sign.value)
    requires At(s, q + 1 + |SignText(sign)|, digits)
    ensures At(s, q, ExponentText(Some(ExpText(s[q], sign, digits))))
  {
    hide At;
    AtByte(s, q, s[q]);
    AtByte(s, q + 1, s[q + 1]);
    AtNothing(s, q + 1);
    AtConcat(s, q + 1, SignText(sign), digits);
    AtConcat(s, q, [s[q]], SignText(sign) + digits);
  }

  // ---------- integers ----------

  /** The decimal digits of `n`, as jw_int64 produces them. */
  function Decimal(n: nat): (ds: bytes)
    ensures ds != [] && AllDigits(ds)
    ensures Value(ds) == n
    ensures ds[0] == 0x30 ==> |ds| == 1
  {
    if n < 10 then var d: byte := 0x30 + n; [d]
    else
      var d: byte := 0x30 + n % 10;
      var ds := Decimal(n / 10);
      SnocDigits(ds, d);
      ds + [d]
  }

  /** What jw_int64 writes. */
  function IntText(v: int): bytes {
    if v < 0 then [MINUS] + Decimal(-v) else Decimal(v)
  }

  /** The literal that jw_int64 writes is grammatical, and denotes its argument. */
  lemma IntTextIsNumber(v: int, pal: Pal, next: nat, text: bytes) returns (n: NumberText)
    requires INT64_MIN <= v <= INT64_MAX
    ensures WellFormedNumber(n) && NumText(n) == IntText(v)
    ensures WellFormedLexeme(Parts(n, next)) && NumberValue(Parts(n, next), text, pal) == Ok(Int(v))
    ensures n.minus <==> v < 0
  {
    var ds := Decimal(if v < 0 then -v else v);
    n := NumberText(v < 0, ds, None, None);
    var none: bytes := [];
    assert FracText(None) + ExponentText(None) == none;
    assert ds + none == ds;
    assert none + ds == ds;
  }

  // ---------- exact decimal values ----------

  /** Ten to an integer power. */
  function Pow10R(k: int): real
    decreases if k < 0 then -k else k
  {
    if k == 0 then 1.0 else if k > 0 then 10.0 * Pow10R(k - 1) else Pow10R(k + 1) / 10.0
  }

  /** The value of the digits after a decimal point. */
  function FracValue(ds: bytes): real
    requires AllDigits(ds)
  {
    if ds == [] then 0.0 else FracValue(ds[..|ds| - 1]) + Digit(ds[|ds| - 1]) as real * Pow10R(-|ds|)
  }

  /** The rational number that a literal denotes. */
  function ExactValue(x: Lexeme): real
    requires WellFormedLexeme(x)
  {
    var v := (Value(x.whole) as real + FracValue(x.frac)) * Pow10R(ExponentValue(x));
    if x.negative then -v else v
  }

  lemma Pow10RStep(k: int)
    ensures Pow10R(k + 1) == 10.0 * Pow10R(k)
  {}

  lemma {:induction false} Pow10RAdd(a: int, b: nat)
    ensures Pow10R(a + b) == Pow10R(a) * Pow10R(b)
    decreases b
  {
    if b > 0 {
      Pow10RAdd(a, b - 1);
      Pow10RStep(a + b - 1);
      Pow10RStep(b - 1);
    }
  }

  lemma FracSnoc(ds: bytes, d: byte)
    requires AllDigits(ds) && IsDigit(d)
    ensures AllDigits(ds + [d])
    ensures FracValue(ds + [d]) == FracValue(ds) + Digit(d) as real * Pow10R(-(|ds| + 1))
  {
    hide Pow10R, FracValue, Digit;
    var e := ds + [d];
    assert e[..|ds|] == ds && e[|ds|] == d;
    FracUnfolds(e);
  }

  lemma FracUnfolds(ds: bytes)
    requires AllDigits(ds) && ds != []
    ensures AllDigits(ds[..|ds| - 1]) && IsDigit(ds[|ds| - 1])
    ensures FracValue(ds) == FracValue(ds[..|ds| - 1]) + Digit(ds[|ds| - 1]) as real * Pow10R(-|ds|)
  {
    hide Pow10R, Digit;
  }

  lemma ConcatDigits(a: bytes, b: bytes)
    requires AllDigits(a) && AllDigits(b)
    ensures AllDigits(a + b)
  {}

  /** Shifting the decimal point past the fraction digits makes the mantissa an integer. */
  lemma {:induction false} MantissaShift(whole: bytes, frac: bytes)
    requires AllDigits(whole) && AllDigits(frac)
    ensures AllDigits(whole + frac)
    ensures Value(whole + frac) as real == (Value(whole) as real + FracValue(frac)) * Pow10R(|frac|)
    decreases |frac|
  {
    hide Pow10R, Value;
    ConcatDigits(whole, frac);
    if frac == [] {
      Pow10RZero();
      assert whole + frac == whole;
    } else {
      var init, d := frac[..|frac| - 1], frac[|frac| - 1];
      MantissaShift(whole, init);
      ShiftStep(whole, init, d);
      assert frac == init + [d];
    }
  }

  lemma ShiftStep(whole: bytes, init: bytes, d: byte)
    requires AllDigits(whole) && AllDigits(init) && AllDigits(whole + init) && IsDigit(d)
    requires Value(whole + init) as real == (Value(whole) as real + FracValue(init)) * Pow10R(|init|)
    ensures AllDigits(init + [d]) && AllDigits(whole + (init + [d]))
    ensures Value(whole + (init + [d])) as real
         == (Value(whole) as real + FracValue(init + [d])) * Pow10R(|init| + 1)
  {
    hide Value, FracValue, Pow10R, Significant;
    SnocDigits(whole + init, d);
    assert whole + init + [d] == whole + (init + [d]);
    FracSnoc(init, d);
    Pow10RStep(|init|);
    Pow10RAdd(-(|init| + 1), |init| + 1);
    Pow10RZero();
    ShiftAlgebra(Value(whole) as real + FracValue(init), Digit(d) as real,
                 Pow10R(|init|), Pow10R(|init| + 1), Pow10R(-(|init| + 1)));
  }

  lemma Pow10RZero()
    ensures Pow10R(0) == 1.0
  {}

  lemma ShiftAlgebra(v: real, d: real, p: real, q: real, inv: real)
    requires q == 10.0 * p && inv * q == 1.0
    ensures (v + d * inv) * q == v * p * 10.0 + d
  {
    assert d * inv * q == d * (inv * q);
  }

  lemma ScaleAlgebra(v: real, m: real, p: real, q: real, r: real)
    requires m == v * q && r == p * q
    ensures v * r == m * p
  {
    assert v * (p * q) == v * q * p;
  }

  /**
    * The decomposition kept by the scanner is exact: the literal is plus or minus
    * mantissa * 10^exponent, and it has no significant digit exactly when it is zero.
    */
  lemma DecimalDecomposition(x: Lexeme)
    requires WellFormedLexeme(x)
    ensures ExactValue(x) == (if x.negative then -(Mantissa(x) as real) else Mantissa(x) as real) * Pow10R(Exp10(x))
    ensures Significant(x.whole + x.frac) == 0 <==> ExactValue(x) == 0.0
  {
    hide Value, FracValue, Pow10R, Significant;
    var v, m := Value(x.whole) as real + FracValue(x.frac), Mantissa(x) as real;
    MantissaShift(x.whole, x.frac);
    var p, q := Pow10R(Exp10(x)), Pow10R(|x.frac|);
    Pow10RAdd(Exp10(x), |x.frac|);
    ScaleAlgebra(v, m, p, q, Pow10R(ExponentValue(x)));
    assert -(m * p) == (-m) * p;
    SignificantMagnitude(x.whole + x.frac);
    Pow10RPositive(Exp10(x));
    NonZeroProduct(m, p);
  }

  lemma NonZeroProduct(m: real, p: real)
    requires p > 0.0
    ensures m * p == 0.0 <==> m == 0.0
  {}

  lemma {:induction false} Pow10RPositive(k: int)
    ensures Pow10R(k) > 0.0
    decreases if k < 0 then -k else k
  {
    if k > 0 { Pow10RPositive(k - 1); } else if k < 0 { Pow10RPositive(k + 1); }
  }

  // ---------- what a literal denotes ----------

  /** The power of ten that a literal writes out. */
  function WrittenExponent(n: NumberText): int
    requires WellFormedNumber(n)
  {
    match n.exp
    case None => 0
    case Some(x) => if x.sign == Some(0x2D) then -(Value(x.digits) as int) else Value(x.digits)
  }

  /** The number that section 6 of RFC 8259 gives to a literal: sign, digits, fraction and exponent. */
  function TextValue(n: NumberText): real
    requires WellFormedNumber(n)
  {
    var fraction := if n.frac.Some? then FracValue(n.frac.value) else 0.0;
    Signed(n.minus, (Value(n.whole) as real + fraction) * Pow10R(WrittenExponent(n)))
  }

  function Signed(minus: bool, v: real): real { if minus then -v else v }

  lemma TextValueIsExact(n: NumberText, next: nat)
    requires WellFormedNumber(n)
    ensures WellFormedLexeme(Parts(n, next)) && TextValue(n) == ExactValue(Parts(n, next))
  {
    hide Value, Pow10R, FracValue;
    NoFraction();
  }

  lemma NoFraction()
    ensures FracValue([]) == 0.0
  {}

  /** A mantissa with its sign, times a power of ten. */
  function Scaled(minus: bool, m: nat, e: int): real { Signed(minus, m as real * Pow10R(e)) }

  /**
    * What the floating-point services mean: `den` is the number a double denotes, exact for a scaled
    * mantissa and for a text that strtod accepts.
    */
  ghost predicate Denotes(den: Double -> real, pal: Pal) {
    && (forall neg, m: nat, e: int :: m < TEN_19 && -22 <= e <= 22 ==>
          den(pal.scale(neg, m, e)) == Scaled(neg, m, e))
    && (forall neg :: den(pal.zero(neg)) == 0.0)
    && (forall n: NumberText :: WellFormedNumber(n) && pal.strtod(NumText(n)).Some? ==>
          den(pal.strtod(NumText(n)).value) == TextValue(n))
  }

  /** What the services do with signs. */
  ghost predicate KeepsSigns(negative: Double -> bool, pal: Pal) {
    && (forall neg, m: nat, e: int :: negative(pal.scale(neg, m, e)) == neg)
    && (forall neg :: negative(pal.zero(neg)) == neg)
    && (forall n: NumberText :: WellFormedNumber(n) && pal.strtod(NumText(n)).Some? ==>
          negative(pal.strtod(NumText(n)).value) == n.minus)
  }

  /**
    * A literal becomes an integer exactly when it has neither fraction nor exponent, and the integer or
    * the double denotes the number that the literal writes, whichever path computes it.
    */
  lemma NumberDenotes(n: NumberText, pal: Pal, den: Double -> real)
    requires WellFormedNumber(n) && Denotes(den, pal)
    ensures WellFormedLexeme(Parts(n, 0))
    ensures match NumberValue(Parts(n, 0), NumText(n), pal)
      case Err(_) => true
      case Ok(v) =>
        if n.frac.None? && n.exp.None? then v.Int? && v.i as real == TextValue(n)
        else v.Float? && den(v.f) == TextValue(n)
  {
    hide *;
    IntegerMantissa(n);
    TextValueIsExact(n, 0);
    var x := Parts(n, 0);
    DecimalDecomposition(x);
    if NumberValue(x, NumText(n), pal).Err? {
    } else if n.frac.None? && n.exp.None? {
      IntegerPath(x, NumText(n), pal);
      UnitPower(Mantissa(x) as real);
    } else {
      FloatPath(x, NumText(n), pal);
      MeaningOfPaths(n, x.negative, Mantissa(x), Exp10(x), pal, den);
    }
  }

  /**
    * A literal is an overflow exactly when it has neither fraction nor exponent and its number needs more
    * than 64 bits. A double is refused only when strtod finds no finite value, and always then unless the
    * fast path has computed it.
    */
  lemma NumberErrors(n: NumberText, pal: Pal)
    requires WellFormedNumber(n)
    ensures WellFormedLexeme(Parts(n, 0))
    ensures var r := NumberValue(Parts(n, 0), NumText(n), pal);
      var double := n.frac.Some? || n.exp.Some?;
      && (r == Err(Overflow) <==> !double && !(INT64_MIN as real <= TextValue(n) <= INT64_MAX as real))
      && (r == Err(InvalidNumber) ==> double && pal.strtod(NumText(n)).None?)
      && (double && pal.strtod(NumText(n)).None? && !pal.fastFloat ==> r == Err(InvalidNumber))
      && (r.Err? ==> r.error == Overflow || r.error == InvalidNumber)
  {
    hide *;
    IntegerMantissa(n);
    TextValueIsExact(n, 0);
    var x := Parts(n, 0);
    DecimalDecomposition(x);
    UnitPower(Mantissa(x) as real);
    ErrorPaths(x, NumText(n), pal);
  }

  lemma ErrorPaths(x: Lexeme, text: bytes, pal: Pal)
    requires WellFormedLexeme(x)
    ensures var r, m: int := NumberValue(x, text, pal), Mantissa(x);
      var v := if x.negative then -m else m;
      && (r == Err(Overflow) <==> !IsFloat(x) && !(INT64_MIN <= v <= INT64_MAX))
      && (r == Err(InvalidNumber) ==> IsFloat(x) && pal.strtod(text).None?)
      && (IsFloat(x) && pal.strtod(text).None? && !pal.fastFloat ==> r == Err(InvalidNumber))
      && (r.Err? ==> r.error == Overflow || r.error == InvalidNumber)
  {
    hide Mantissa, Exp10, IsFloat, FastOk;
  }

  lemma IntegerPath(x: Lexeme, text: bytes, pal: Pal)
    requires WellFormedLexeme(x) && !IsFloat(x) && NumberValue(x, text, pal).Ok?
    ensures NumberValue(x, text, pal).value == Int(if x.negative then -(Mantissa(x) as int) else Mantissa(x))
  {
    hide Mantissa;
  }

  lemma UnitPower(m: real)
    ensures m * Pow10R(0) == m
  {}

  /** The three sources of a double: the zero, the scaled mantissa, and the text. */
  lemma FloatPath(x: Lexeme, text: bytes, pal: Pal)
    requires WellFormedLexeme(x) && IsFloat(x) && NumberValue(x, text, pal).Ok?
    ensures var m, e, v := Mantissa(x), Exp10(x), NumberValue(x, text, pal).value;
      || (m == 0 && v == Float(pal.zero(x.negative)))
      || (m < TEN_19 && -22 <= e <= 22 && v == Float(pal.scale(x.negative, m, e)))
      || (pal.strtod(text).Some? && v == Float(pal.strtod(text).value))
  {
    hide Mantissa, Exp10, IsFloat;
  }

  lemma MeaningOfPaths(n: NumberText, neg: bool, m: nat, e: int, pal: Pal, den: Double -> real)
    requires WellFormedNumber(n) && Denotes(den, pal)
    ensures m == 0 ==> den(pal.zero(neg)) == (if neg then -(m as real) else m as real) * Pow10R(e)
    ensures m < TEN_19 && -22 <= e <= 22 ==>
      den(pal.scale(neg, m, e)) == (if neg then -(m as real) else m as real) * Pow10R(e)
    ensures pal.strtod(NumText(n)).Some? ==> den(pal.strtod(NumText(n)).value) == TextValue(n)
  {
    hide TextValue, NumText, WellFormedNumber, Denotes, Scaled;
    MeaningOfZero(neg, pal, den);
    MeaningOfScale(neg, m, e, pal, den);
    MeaningOfText(n, pal, den);
    ScaledProduct(neg, m, e);
    ZeroProduct(if neg then -(m as real) else m as real, Pow10R(e));
  }

  lemma MeaningOfZero(neg: bool, pal: Pal, den: Double -> real)
    requires Denotes(den, pal)
    ensures den(pal.zero(neg)) == 0.0
  {
    hide TextValue, NumText, WellFormedNumber, Pow10R, Signed;
  }

  lemma MeaningOfScale(neg: bool, m: nat, e: int, pal: Pal, den: Double -> real)
    requires Denotes(den, pal)
    ensures m < TEN_19 && -22 <= e <= 22 ==> den(pal.scale(neg, m, e)) == Scaled(neg, m, e)
  {
    hide TextValue, NumText, WellFormedNumber, Scaled;
  }

  lemma MeaningOfText(n: NumberText, pal: Pal, den: Double -> real)
    requires WellFormedNumber(n) && Denotes(den, pal)
    ensures pal.strtod(NumText(n)).Some? ==> den(pal.strtod(NumText(n)).value) == TextValue(n)
  {
    hide TextValue, NumText, WellFormedNumber, Pow10R, Signed;
  }

  lemma ScaledProduct(neg: bool, m: nat, e: int)
    ensures Scaled(neg, m, e) == (if neg then -(m as real) else m as real) * Pow10R(e)
  {
    hide Pow10R;
  }

  lemma IntegerMantissa(n: NumberText)
    requires WellFormedNumber(n)
    ensures WellFormedLexeme(Parts(n, 0))
    ensures IsFloat(Parts(n, 0)) <==> n.frac.Some? || n.exp.Some?
    ensures n.frac.None? && n.exp.None? ==> Exp10(Parts(n, 0)) == 0
    ensures Parts(n, 0).negative == n.minus
  {}

  lemma ZeroProduct(m: real, p: real)
    ensures m == 0.0 ==> m * p == 0.0
  {}

  /** A double has the sign of its literal, also when it is zero. */
  lemma NumberKeepsSign(n: NumberText, pal: Pal, negative: Double -> bool)
    requires WellFormedNumber(n) && KeepsSigns(negative, pal)
    ensures WellFormedLexeme(Parts(n, 0))
    ensures match NumberValue(Parts(n, 0), NumText(n), pal)
      case Ok(Float(f)) => negative(f) == n.minus
      case _ => true
  {
    IntegerMantissa(n);
    hide Value, Significant, FastOk, Mantissa, Exp10;
  }

  /** On the fast path a literal whose value is zero becomes the zero with the literal's sign. */
  lemma ZeroKeepsSign(n: NumberText, pal: Pal)
    requires WellFormedNumber(n) && (n.frac.Some? || n.exp.Some?) && TextValue(n) == 0.0
    requires pal.fastFloat && WellFormedLexeme(Parts(n, 0)) && FastOk(Parts(n, 0))
    ensures NumberValue(Parts(n, 0), NumText(n), pal) == Ok(Float(pal.zero(n.minus)))
  {
    TextValueIsExact(n, 0);
    DecimalDecomposition(Parts(n, 0));
    IntegerMantissa(n);
    hide Value, Pow10R, FracValue, ExactValue, TextValue, FastOk;
    SignificantMagnitude(Parts(n, 0).whole + Parts(n, 0).frac);
    NineteenDigits(Parts(n, 0).whole + Parts(n, 0).frac);
  }

  /** What the scanner returns for the text at s[i] is what the literal standing there denotes. */
  lemma NumberAtDenotes(s: bytes, i: nat, pal: Pal, den: Double -> real) returns (n: NumberText)
    requires i <= |s| && NumberAt(s, i, pal).Ok? && Denotes(den, pal)
    ensures var r := NumberAt(s, i, pal).value;
      && WellFormedNumber(n) && At(s, i, NumText(n)) && r.next == i + |NumText(n)|
      && (if n.frac.None? && n.exp.None? then r.value.Int? && r.value.i as real == TextValue(n)
          else r.value.Float? && den(r.value.f) == TextValue(n))
  {
    hide *;
    NumberAtIs(s, i, pal);
    n := NumberSound(s, i);
    AtSlice(s, i, NumText(n));
    NumberDenotes(n, pal, den);
    NextIgnored(n, i + |NumText(n)|, NumText(n), pal);
  }

  lemma NumberAtIs(s: bytes, i: nat, pal: Pal)
    requires i <= |s| && NumberAt(s, i, pal).Ok?
    ensures LexNumber(s, i).Ok? && i <= LexNumber(s, i).value.next <= |s|
    ensures var x := LexNumber(s, i).value;
      WellFormedLexeme(x) && NumberValue(x, s[i..x.next], pal) == Ok(NumberAt(s, i, pal).value.value)
      && NumberAt(s, i, pal).value.next == x.next
  {
    hide NumberValue, WellFormedLexeme;
  }

  lemma NextIgnored(n: NumberText, next: nat, text: bytes, pal: Pal)
    requires WellFormedNumber(n)
    ensures WellFormedLexeme(Parts(n, next)) && WellFormedLexeme(Parts(n, 0)) && Parts(n, next).next == next
    ensures NumberValue(Parts(n, next), text, pal) == NumberValue(Parts(n, 0), text, pal)
  {
    hide Value, Significant;
  }
}
