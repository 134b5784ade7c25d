/** Number literals: json__parse_number against an exact specification. */
module Numbers {
  import opened Base
  import opened Tree

  predicate IsDigit(b: byte) { 0x30 <= b <= 0x39 }

  function Digit(b: byte): (d: nat)
    requires IsDigit(b)
    ensures d <= 9
  {
    b - 0x30
  }

  predicate AllDigits(ds: bytes) { forall k :: 0 <= k < |ds| ==> IsDigit(ds[k]) }

  /** The number that a sequence of decimal digits spells. */
  function Value(ds: bytes): nat
    requires AllDigits(ds)
  {
    if ds == [] then 0 else Value(ds[..|ds| - 1]) * 10 + Digit(ds[|ds| - 1])
  }

  /** The longest run of digits that starts at s[i]. */
  function DigitRun(s: bytes, i: nat): (ds: bytes)
    requires i <= |s|
    ensures i + |ds| <= |s| && AllDigits(ds)
    ensures i + |ds| == |s| || !IsDigit(s[i + |ds|])
    ensures i < |s| && IsDigit(s[i]) ==> ds != [] && ds[0] == s[i]
    decreases |s| - i
  {
    if i < |s| && IsDigit(s[i]) then [s[i]] + DigitRun(s, i + 1) else []
  }

  datatype Exponent = Exponent(negative: bool, digits: bytes)

  /** A literal cut into sign, integer digits, fraction digits and exponent; `next` is the position after it. */
  datatype Lexeme = Lexeme(negative: bool, whole: bytes, frac: bytes, exp: Option<Exponent>, next: nat)

  predicate WellFormedLexeme(x: Lexeme) {
    && AllDigits(x.whole) && x.whole != [] && AllDigits(x.frac)
    && (x.exp.Some? ==> AllDigits(x.exp.value.digits) && x.exp.value.digits != [])
  }

  function LexNumber(s: bytes, i: nat): (r: Result<Lexeme>)
    requires i <= |s|
    ensures r.Ok? ==> i < r.value.next <= |s| && WellFormedLexeme(r.value)
  {
    var p := if i < |s| && s[i] == MINUS then i + 1 else i;
    if p >= |s| then Err(UnexpectedEof)
    else if s[p] == 0x30 then
      if p + 1 < |s| && IsDigit(s[p + 1]) then Err(InvalidNumber)
      else LexFraction(s, p > i, [0x30], p + 1)
    else if IsDigit(s[p]) then LexFraction(s, p > i, DigitRun(s, p), p + |DigitRun(s, p)|)
    else Err(InvalidNumber)
  }

  function LexFraction(s: bytes, negative: bool, whole: bytes, q: nat): (r: Result<Lexeme>)
    requires q <= |s| && AllDigits(whole) && whole != []
    ensures r.Ok? ==> q <= r.value.next <= |s| && WellFormedLexeme(r.value)
  {
    if q < |s| && s[q] == DOT then
      if q + 1 >= |s| || !IsDigit(s[q + 1]) then Err(InvalidNumber)
      else LexExponent(s, negative, whole, DigitRun(s, q + 1), q + 1 + |DigitRun(s, q + 1)|)
    else LexExponent(s, negative, whole, [], q)
  }

  predicate IsE(b: byte) { b == 0x65 || b == 0x45 }

  function LexExponent(s: bytes, negative: bool, whole: bytes, frac: bytes, q: nat): (r: Result<Lexeme>)
    requires q <= |s| && AllDigits(whole) && whole != [] && AllDigits(frac)
    ensures r.Ok? ==> q <= r.value.next <= |s| && WellFormedLexeme(r.value)
  {
    if q < |s| && IsE(s[q]) then
      var d := if q + 1 < |s| && (s[q + 1] == PLUS || s[q + 1] == MINUS) then q + 2 else q + 1;
      if d >= |s| || !IsDigit(s[d]) then Err(InvalidNumber)
      else Ok(Lexeme(negative, whole, frac, Some(Exponent(s[q + 1] == MINUS, DigitRun(s, d))), d + |DigitRun(s, d)|))
    else Ok(Lexeme(negative, whole, frac, None, q))
  }

  // ---------- what a literal means ----------

  predicate IsFloat(x: Lexeme) { x.frac != [] || x.exp.Some? }

  /** All digits of the literal, read as one integer. */
  function Mantissa(x: Lexeme): nat
    requires WellFormedLexeme(x)
  {
    Value(x.whole + x.frac)
  }

  function ExponentValue(x: Lexeme): int
    requires WellFormedLexeme(x)
  {
    match x.exp
    case None => 0
    case Some(e) => var v: int := Value(e.digits); if e.negative then -v else v
  }

  /** Power of ten that goes with the mantissa. */
  function Exp10(x: Lexeme): int
    requires WellFormedLexeme(x)
  {
    ExponentValue(x) - |x.frac|
  }

  const TEN_19: nat := 10_000_000_000_000_000_000

  /** The scan has kept the exact decomposition: fewer than 20 significant digits, a short exponent. */
  predicate FastOk(x: Lexeme)
    requires WellFormedLexeme(x)
  {
    Mantissa(x) < TEN_19 &&
    (x.exp.Some? ==> var ds := x.exp.value.digits; Value(ds[..|ds| - 1]) <= 1000)
  }

  /** The value of a literal with that source text. */
  function NumberValue(x: Lexeme, text: bytes, pal: Pal): Result<Json>
    requires WellFormedLexeme(x)
  {
    var m: int := Mantissa(x);
    if !IsFloat(x) then
      if m > (if x.negative then -INT64_MIN else INT64_MAX) then Err(Overflow)
      else Ok(Int(if x.negative then -m else m))
    else if pal.fastFloat && FastOk(x) && m == 0 then Ok(Float(pal.zero(x.negative)))
    else if pal.fastFloat && FastOk(x) && -22 <= Exp10(x) <= 22 then
      Ok(Float(pal.scale(x.negative, m, Exp10(x))))
    else match pal.strtod(text)
      case None => Err(InvalidNumber)
      case Some(f) => Ok(Float(f))
  }

  datatype Number = Number(value: Json, next: nat)

  /** The number that starts at s[i]. */
  function NumberAt(s: bytes, i: nat, pal: Pal): (r: Result<Number>)
    requires i <= |s|
    ensures r.Ok? ==> i < r.value.next <= |s|
  {
    match LexNumber(s, i)
    case Err(e) => Err(e)
    case Ok(x) =>
      match NumberValue(x, s[i..x.next], pal)
      case Err(e) => Err(e)
      case Ok(v) => Ok(Number(v, x.next))
  }

  // ---------- the 64-bit accumulator ----------

  /** 10 to the n. */
  function Pow10(n: nat): (p: nat)
    ensures p >= 1
  {
    if n == 0 then 1 else 10 * Pow10(n - 1)
  }

  /** Number of digits from the first nonzero one on. */
  function Significant(ds: bytes): nat {
    if ds == [] then 0
    else if Significant(ds[..|ds| - 1]) == 0 && ds[|ds| - 1] == 0x30 then 0
    else Significant(ds[..|ds| - 1]) + 1
  }

  /** The number of significant digits is the order of magnitude of the value. */
  lemma {:induction false} SignificantMagnitude(ds: bytes)
    requires AllDigits(ds)
    ensures Significant(ds) == 0 <==> Value(ds) == 0
    ensures Significant(ds) > 0 ==> Pow10(Significant(ds) - 1) <= Value(ds) < Pow10(Significant(ds))
  {
    if ds != [] {
      var init, last := ds[..|ds| - 1], ds[|ds| - 1];
      SignificantMagnitude(init);
      assert Value(ds) == Value(init) * 10 + Digit(last);
    }
  }

  lemma {:induction false} Pow10Monotone(a: nat, b: nat)
    requires a <= b
    ensures Pow10(a) <= Pow10(b)
    decreases b
  {
    if a < b { Pow10Monotone(a, b - 1); }
  }

  /** fast_ok, fast_mant and fast_sig of json__parse_number. */
  datatype Fast = Fast(ok: bool, mant: nat, sig: nat)

  /** The accumulator has seen the digits `ds` and kept their exact value, or knows it is too big. */
  ghost predicate Accumulated(f: Fast, ds: bytes) {
    && AllDigits(ds)
    && (f.ok <==> Value(ds) < TEN_19)
    && (f.ok ==> f.mant == Value(ds) && f.sig == Significant(ds) <= 19)
    && (!f.ok ==> f.sig >= 19)
  }

  lemma SnocDigits(ds: bytes, d: byte)
    requires AllDigits(ds) && IsDigit(d)
    ensures AllDigits(ds + [d]) && Value(ds + [d]) == Value(ds) * 10 + Digit(d)
    ensures Significant(ds + [d]) == if Significant(ds) == 0 && d == 0x30 then 0 else Significant(ds) + 1
  {
    assert (ds + [d])[..|ds|] == ds;
  }

  /** Nineteen significant digits never reach TEN_19, and twenty always do. */
  lemma NineteenDigits(ds: bytes)
    requires AllDigits(ds)
    ensures Significant(ds) == 0 <==> Value(ds) == 0
    ensures Significant(ds) <= 18 ==> Value(ds) * 10 + 9 < TEN_19
    ensures Significant(ds) >= 19 ==> Value(ds) * 10 >= TEN_19
  {
    SignificantMagnitude(ds);
    assert Pow10(6) == 1_000_000;
    assert Pow10(12) == 1_000_000_000_000;
    assert Pow10(18) * 10 == TEN_19;
    if Significant(ds) <= 18 { Pow10Monotone(Significant(ds), 18); } else { Pow10Monotone(18, Significant(ds) - 1); }
  }

  /** JSON__FAST_DIGIT, with the 64-bit wrap-around of the C multiplication and addition. */
  method FastDigit(f: Fast, digit: nat, ghost ds: bytes) returns (r: Fast)
    requires digit <= 9 && Accumulated(f, ds)
    ensures Accumulated(r, ds + [0x30 + digit])
  {
    SnocDigits(ds, 0x30 + digit);
    NineteenDigits(ds);
    if f.sig != 0 || digit != 0 {
      if f.sig >= 19 {
        r := f.(ok := false);
      } else {
        var sum := f.mant * 10 + digit;
        assert sum <= SIZE_MAX;
        r := f.(mant := sum % (SIZE_MAX + 1), sig := f.sig + 1);
      }
    } else {
      r := f;
    }
  }

  /** One more digit of a run that is being consumed. */
  lemma RunStep(s: bytes, i: nat, seen: bytes, next: nat)
    requires i <= next < |s| && IsDigit(s[next]) && DigitRun(s, i) == seen + DigitRun(s, next)
    ensures DigitRun(s, i) == seen + [s[next]] + DigitRun(s, next + 1)
  {}

  /** A loop over a run of digits: the integer part and the fraction part. */
  method FastDigits(s: bytes, i: nat, f: Fast, ghost ds: bytes) returns (next: nat, r: Fast)
    requires i <= |s| && Accumulated(f, ds)
    ensures next == i + |DigitRun(s, i)| && Accumulated(r, ds + DigitRun(s, i))
  {
    hide Accumulated, Value, Significant;
    next, r := i, f;
    ghost var seen: bytes := [];
    assert ds + seen == ds;
    while next < |s| && IsDigit(s[next])
      invariant i <= next <= |s| && next == i + |seen| && DigitRun(s, i) == seen + DigitRun(s, next)
      invariant Accumulated(r, ds + seen)
    {
      r := FastDigit(r, s[next] - 0x30, ds + seen);
      RunStep(s, i, seen, next);
      assert ds + seen + [s[next]] == ds + (seen + [s[next]]);
      seen := seen + [s[next]];
      next := next + 1;
    }
    assert seen + [] == seen;
  }

  /** What the exponent loop knows after the digits `ds`. */
  ghost predicate ExponentSeen(ds: bytes, val: nat, ok: bool) {
    && AllDigits(ds) && val <= 10009
    && (ok ==> val == Value(ds))
    && (!ok ==> val > 1000)
    && (ds == [] ==> ok)
    && (ds != [] ==> (ok <==> Value(ds[..|ds| - 1]) <= 1000))
  }

  lemma NoExponentSeen()
    ensures ExponentSeen([], 0, true)
  {}

  lemma ExponentStep(ds: bytes, d: byte, val: nat, ok: bool)
    requires ExponentSeen(ds, val, ok) && IsDigit(d)
    ensures if val > 1000 then ExponentSeen(ds + [d], val, false) else ExponentSeen(ds + [d], val * 10 + Digit(d), ok)
  {
    SnocDigits(ds, d);
    assert (ds + [d])[..|ds + [d]| - 1] == ds;
  }

  /** The exponent loop: `ok` stays true while no digit arrives after the value has passed 1000. */
  method ScanExponent(s: bytes, i: nat) returns (next: nat, val: nat, ok: bool)
    requires i < |s| && IsDigit(s[i])
    ensures next == i + |DigitRun(s, i)| && ExponentSeen(DigitRun(s, i), val, ok)
  {
    hide ExponentSeen, Value;
    next, val, ok := i, 0, true;
    ghost var seen: bytes := [];
    NoExponentSeen();
    while next < |s| && IsDigit(s[next])
      invariant i <= next <= |s| && next == i + |seen| && DigitRun(s, i) == seen + DigitRun(s, next)
      invariant ExponentSeen(seen, val, ok)
    {
      ExponentStep(seen, s[next], val, ok);
      RunStep(s, i, seen, next);
      if val > 1000 { ok := false; } else { val := val * 10 + (s[next] - 0x30); }
      seen := seen + [s[next]];
      next := next + 1;
    }
    assert seen + [] == seen;
  }

  // ---------- json__parse_number ----------

  lemma ZeroAccumulated()
    ensures Accumulated(Fast(true, 0, 0), []) && Accumulated(Fast(true, 0, 0), [0x30])
  {
    SnocDigits([], 0x30);
    assert [] + [0x30] == [0x30];
  }

  /** The optional minus and the integer digits. */
  method ScanWhole(s: bytes, i: nat)
    returns (error: Option<Error>, negative: bool, ghost whole: bytes, q: nat, f: Fast)
    requires i <= |s|
    ensures error.Some? ==> LexNumber(s, i) == Err(error.value)
    ensures error.None? ==> i < q <= |s| && Accumulated(f, whole) && whole != []
    ensures error.None? ==> LexNumber(s, i) == LexFraction(s, negative, whole, q)
  {
    hide Accumulated, Value, Significant;
    error, negative, whole, q, f := None, false, [], i, Fast(true, 0, 0);
    ZeroAccumulated();
    if q < |s| && s[q] == MINUS { negative, q := true, q + 1; }
    if q >= |s| { error := Some(UnexpectedEof); return; }
    if s[q] == 0x30 {
      whole, q := [0x30], q + 1;
      if q < |s| && IsDigit(s[q]) { error := Some(InvalidNumber); return; }
    } else if IsDigit(s[q]) {
      whole := DigitRun(s, q);
      q, f := FastDigits(s, q, f, []);
      assert [] + whole == whole;
    } else {
      error := Some(InvalidNumber);
    }
  }

  /** The optional fraction after the integer digits. */
  method ScanFraction(s: bytes, q: nat, f: Fast, ghost negative: bool, ghost whole: bytes)
    returns (err: bool, ghost frac: bytes, fracLen: nat, next: nat, r: Fast)
    requires q <= |s| && Accumulated(f, whole) && whole != []
    ensures err ==> LexFraction(s, negative, whole, q) == Err(InvalidNumber)
    ensures !err ==> q <= next <= |s| && fracLen == |frac| && AllDigits(frac) && Accumulated(r, whole + frac)
    ensures !err ==> LexFraction(s, negative, whole, q) == LexExponent(s, negative, whole, frac, next)
  {
    err, frac, fracLen, next, r := false, [], 0, q, f;
    if q < |s| && s[q] == DOT {
      if q + 1 >= |s| || !IsDigit(s[q + 1]) { err := true; return; }
      frac := DigitRun(s, q + 1);
      next, r := FastDigits(s, q + 1, f, whole);
      fracLen := next - (q + 1);
    } else {
      assert whole + [] == whole;
    }
  }

  /** The optional exponent: signed value, whether the fast path may still be used, position after it. */
  method ScanExponentPart(s: bytes, q: nat, ghost negative: bool, ghost whole: bytes, ghost frac: bytes)
    returns (err: bool, present: bool, exp: int, ok: bool, next: nat)
    requires q <= |s| && AllDigits(whole) && whole != [] && AllDigits(frac)
    ensures err <==> LexExponent(s, negative, whole, frac, q).Err?
    ensures !err ==> var x := LexExponent(s, negative, whole, frac, q).value;
      && next == x.next && (present <==> x.exp.Some?)
      && (ok <==> (x.exp.Some? ==> Value(x.exp.value.digits[..|x.exp.value.digits| - 1]) <= 1000))
      && (ok ==> exp == ExponentValue(x)) && -10009 <= exp <= 10009
  {
    err, present, exp, ok, next := false, false, 0, true, q;
    if q < |s| && IsE(s[q]) {
      present := true;
      var d, negate := q + 1, false;
      if d < |s| && (s[d] == PLUS || s[d] == MINUS) { negate := s[d] == MINUS; d := d + 1; }
      if d >= |s| || !IsDigit(s[d]) { err := true; return; }
      var val;
      next, val, ok := ScanExponent(s, d);
      exp := if negate then -(val as int) else val;
    }
  }

  /**
    * json__parse_number: scans with the 64-bit accumulator and dispatches to the integer result,
    * the fast float path or strtod.
    */
  method ParseNumber(s: bytes, i: nat, pal: Pal) returns (r: Result<Number>)
    requires i <= |s|
    ensures r == NumberAt(s, i, pal)
  {
    var error, negative, whole, q, f := ScanWhole(s, i);
    if error.Some? { return Err(error.value); }
    var err, frac, fracLen, fracEnd, g := ScanFraction(s, q, f, negative, whole);
    if err { return Err(InvalidNumber); }
    var err', present, exp, expOk, next := ScanExponentPart(s, fracEnd, negative, whole, frac);
    if err' { return Err(InvalidNumber); }
    r := Finish(s, i, pal, LexNumber(s, i).value, negative, fracLen > 0 || present, g, expOk, exp - fracLen, next);
  }

  /** The tail of json__parse_number: from the accumulators to the value. */
  method Finish(s: bytes, i: nat, pal: Pal, ghost x: Lexeme, negative: bool, isFloat: bool, f: Fast,
                expOk: bool, exp10: int, next: nat)
    returns (r: Result<Number>)
    requires i <= next <= |s| && LexNumber(s, i) == Ok(x)
    requires negative == x.negative && next == x.next && isFloat == IsFloat(x)
    requires Accumulated(f, x.whole + x.frac)
    requires f.ok && expOk <==> FastOk(x)
    requires f.ok && expOk ==> exp10 == Exp10(x)
    requires !isFloat ==> expOk
    ensures r == NumberAt(s, i, pal)
  {
    var fastOk := f.ok && expOk;
    if isFloat {
      SignificantMagnitude(x.whole + x.frac);
      if pal.fastFloat && fastOk && f.sig == 0 { return Ok(Number(Float(pal.zero(negative)), next)); }
      if pal.fastFloat && fastOk && -22 <= exp10 <= 22 {
        return Ok(Number(Float(pal.scale(negative, f.mant, exp10)), next));
      }
      var v := pal.strtod(s[i..next]);
      if v.None? { return Err(InvalidNumber); }
      return Ok(Number(Float(v.value), next));
    }
    var limit := if negative then 0x8000_0000_0000_0000 else 0x7FFF_FFFF_FFFF_FFFF;
    if !fastOk || f.mant > limit { return Err(Overflow); }
    return Ok(Number(Int(if negative then -(f.mant as int) else f.mant), next));
  }
}
