/** The other errors of json_parse: the text ends too early, or something in it is wrong. */
module ParserErrors {
  import opened Base
  import opened Utf8
  import opened Tree
  import opened StringLex
  import opened Lexical
  import opened StringGrammar
  import opened Numbers
  import opened ParserSpec
  import opened ParserLimits

  // ---------- one more byte ----------

  /** The text with a NUL behind it, a byte that no rule of the grammar admits. */
  function Longer(s: bytes): (t: bytes)
    ensures |t| == |s| + 1 && t[|s|] == 0 && forall k :: 0 <= k < |s| ==> t[k] == s[k]
  {
    s + [0]
  }

  /** A report that the text ends too early is replaced by another error; everything else stays. */
  predicate Kept<T(==)>(r: Result<T>, longer: Result<T>) {
    if r == Err(UnexpectedEof) then longer.Err? && longer != r else longer == r
  }

  lemma {:induction false} LongerWs(s: bytes, i: nat)
    requires i <= |s|
    ensures SkipWs(Longer(s), i) == SkipWs(s, i)
    decreases |s| - i
  {
    if i < |s| && IsWs(s[i]) { LongerWs(s, i + 1); }
  }

  lemma {:induction false} LongerRun(s: bytes, i: nat)
    requires i <= |s|
    ensures DigitRun(Longer(s), i) == DigitRun(s, i)
    decreases |s| - i
  {
    if i < |s| && IsDigit(s[i]) { LongerRun(s, i + 1); }
  }

  lemma LongerExponent(s: bytes, negative: bool, whole: bytes, frac: bytes, q: nat)
    requires q <= |s| && AllDigits(whole) && whole != [] && AllDigits(frac)
    ensures LexExponent(Longer(s), negative, whole, frac, q) == LexExponent(s, negative, whole, frac, q)
    ensures LexExponent(s, negative, whole, frac, q) != Err(UnexpectedEof)
  {
    if q < |s| && IsE(s[q]) {
      var d := if q + 1 < |s| && (s[q + 1] == PLUS || s[q + 1] == MINUS) then q + 2 else q + 1;
      LongerRun(s, d);
    }
  }

  lemma LongerFraction(s: bytes, negative: bool, whole: bytes, q: nat)
    requires q <= |s| && AllDigits(whole) && whole != []
    ensures LexFraction(Longer(s), negative, whole, q) == LexFraction(s, negative, whole, q)
    ensures LexFraction(s, negative, whole, q) != Err(UnexpectedEof)
  {
    hide LexExponent;
    if q < |s| && s[q] == DOT {
      if q + 1 < |s| && IsDigit(s[q + 1]) {
        LongerRun(s, q + 1);
        LongerExponent(s, negative, whole, DigitRun(s, q + 1), q + 1 + |DigitRun(s, q + 1)|);
      }
    } else {
      LongerExponent(s, negative, whole, [], q);
    }
  }

  lemma LongerLexeme(s: bytes, i: nat)
    requires i <= |s|
    ensures Kept(LexNumber(s, i), LexNumber(Longer(s), i))
  {
    hide LexFraction;
    var p := if i < |s| && s[i] == MINUS then i + 1 else i;
    if p < |s| && s[p] == 0x30 {
      LongerFraction(s, p > i, [0x30], p + 1);
    } else if p < |s| && IsDigit(s[p]) {
      LongerRun(s, p);
      LongerFraction(s, p > i, DigitRun(s, p), p + |DigitRun(s, p)|);
    }
  }

  lemma LongerNumber(s: bytes, i: nat, pal: Pal)
    requires i <= |s|
    ensures Kept(NumberAt(s, i, pal), NumberAt(Longer(s), i, pal))
  {
    hide LexNumber, NumberValue;
    LongerLexeme(s, i);
    if LexNumber(s, i).Ok? {
      ValueNotEof(s, i, pal);
      assert Longer(s)[i..LexNumber(s, i).value.next] == s[i..LexNumber(s, i).value.next];
    }
  }

  lemma ValueNotEof(s: bytes, i: nat, pal: Pal)
    requires i <= |s| && LexNumber(s, i).Ok?
    ensures NumberValue(LexNumber(s, i).value, s[i..LexNumber(s, i).value.next], pal) != Err(UnexpectedEof)
  {
    hide LexNumber, Mantissa, FastOk, Exp10;
  }

  lemma {:induction false} LongerContinue(s: bytes, k: nat, e: nat, code: nat)
    requires k <= e <= |s|
    ensures Continue(Longer(s), k, e, code) == Continue(s, k, e, code)
    decreases e - k
  {
    if k < e && IsTail(s[k]) { LongerContinue(s, k + 1, e, code * 64 + s[k] % 64); }
  }

  /** A continuation byte that is missing at the end of the text is not there with one more byte either. */
  lemma {:induction false} NoContinue(s: bytes, k: nat, code: nat)
    requires k <= |s|
    ensures Continue(Longer(s), k, |s| + 1, code).None?
    decreases |s| - k
  {
    if k < |s| && IsTail(s[k]) { NoContinue(s, k + 1, code * 64 + s[k] % 64); }
  }

  lemma LongerDecode(s: bytes, i: nat)
    requires i < |s|
    ensures DecodeAt(Longer(s), i) == DecodeAt(s, i)
    ensures DecodeAt(s, i).Some? ==> 0 < DecodeAt(s, i).value.count <= |s| - i
  {
    hide Continue;
    if LeadOf(s[i]).Some? {
      var lead := LeadOf(s[i]).value;
      if i + lead.count <= |s| {
        LongerContinue(s, i + 1, i + lead.count, lead.bits);
      } else {
        NoContinue(s, i + 1, lead.bits);
      }
    }
  }

  lemma LongerHex4(s: bytes, i: nat)
    ensures Hex4(Longer(s), i) == Hex4(s, i)
  {
    assert HexVal(0).None?;
  }

  lemma LongerEscape(s: bytes, i: nat)
    requires i + 1 < |s|
    ensures UnicodeEscapeAt(Longer(s), i) == UnicodeEscapeAt(s, i)
    ensures UnicodeEscapeAt(s, i) != Err(UnexpectedEof)
  {
    hide Hex4, Encode, PairValue;
    LongerHex4(s, i + 2);
    LongerHex4(s, i + 8);
  }

  lemma LongerItem(s: bytes, i: nat)
    requires i < |s| && s[i] != QUOTE
    ensures Kept(ItemAt(s, i), ItemAt(Longer(s), i))
  {
    hide UnicodeEscapeAt, DecodeAt, Encode;
    LongerDecode(s, i);
    if i + 1 < |s| { LongerEscape(s, i); }
  }

  lemma {:induction false} LongerContent(s: bytes, i: nat)
    requires i <= |s|
    ensures Kept(ContentAt(s, i), ContentAt(Longer(s), i))
    decreases |s| - i
  {
    hide ItemAt, ContentAt, Longer;
    ContentUnfolds(s, i);
    ContentUnfolds(Longer(s), i);
    if i == |s| {
      assert ItemAt(Longer(s), i) == Err(InvalidString) by { ControlCharacter(Longer(s), i); }
    } else if s[i] != QUOTE {
      LongerItem(s, i);
      if ItemAt(s, i).Ok? { LongerContent(s, i + ItemAt(s, i).value.len); }
    }
  }

  lemma ControlCharacter(s: bytes, i: nat)
    requires i < |s| && s[i] < 0x20
    ensures s[i] != QUOTE && ItemAt(s, i) == Err(InvalidString)
  {}

  lemma LongerString(s: bytes, i: nat, maxLen: nat)
    requires i <= |s|
    ensures Kept(StringAt(s, i, maxLen), StringAt(Longer(s), i, maxLen))
  {
    hide ContentAt;
    LongerContent(s, i);
  }

  lemma LongerKeyword(s: bytes, i: nat, rest: bytes, value: Json, n: nat)
    requires i <= |s| && forall k :: 0 <= k < |rest| ==> rest[k] != 0
    ensures KeywordAt(Longer(s), i, rest, value, n) == KeywordAt(s, i, rest, value, n)
  {
    if At(Longer(s), i, rest) && rest != [] { assert rest[|rest| - 1] == Longer(s)[i + |rest| - 1]; }
  }

  lemma {:induction false} LongerValue(e: Env, pos: nat, depth: nat, n: nat)
    requires pos <= |e.src|
    ensures Kept(ParseValue(e, pos, depth, n), ParseValue(e.(src := Longer(e.src)), pos, depth, n))
    decreases |e.src| - pos, 0
  {
    hide StringAt, NumberAt, KeywordAt, Longer, ULL, RUE, ALSE, ParseItem, ArrayCont, ParseKey, ParseColon,
      ParseMember, ObjectCont;
    var s := e.src;
    LongerWs(s, pos);
    var p := SkipWs(s, pos);
    if p < |s| && n < e.l.nodes {
      LongerScalar(e, p, n);
      LongerWs(s, p + 1);
      var q := SkipWs(s, p + 1);
      if s[p] == LBRACKET && depth < e.l.depth {
        if q == |s| || s[q] != RBRACKET { LongerArray(e, q, depth, n + 1, []); }
      } else if s[p] == LBRACE && depth < e.l.depth {
        if q == |s| || s[q] != RBRACE { LongerKey(e, q, depth, n + 1, []); }
      }
    }
  }

  lemma LongerScalar(e: Env, p: nat, n: nat)
    requires p < |e.src|
    ensures KeywordAt(Longer(e.src), p + 1, ULL, Null, n + 1) == KeywordAt(e.src, p + 1, ULL, Null, n + 1)
    ensures KeywordAt(Longer(e.src), p + 1, RUE, Bool(true), n + 1) == KeywordAt(e.src, p + 1, RUE, Bool(true), n + 1)
    ensures KeywordAt(Longer(e.src), p + 1, ALSE, Bool(false), n + 1)
        == KeywordAt(e.src, p + 1, ALSE, Bool(false), n + 1)
    ensures KeywordAt(e.src, p + 1, ULL, Null, n + 1) != Err(UnexpectedEof)
    ensures KeywordAt(e.src, p + 1, RUE, Bool(true), n + 1) != Err(UnexpectedEof)
    ensures KeywordAt(e.src, p + 1, ALSE, Bool(false), n + 1) != Err(UnexpectedEof)
    ensures Kept(StringAt(e.src, p + 1, e.l.stringLen), StringAt(Longer(e.src), p + 1, e.l.stringLen))
    ensures Kept(NumberAt(e.src, p, e.pal), NumberAt(Longer(e.src), p, e.pal))
  {
    hide StringAt, NumberAt;
    LongerKeyword(e.src, p + 1, ULL, Null, n + 1);
    LongerKeyword(e.src, p + 1, RUE, Bool(true), n + 1);
    LongerKeyword(e.src, p + 1, ALSE, Bool(false), n + 1);
    LongerString(e.src, p + 1, e.l.stringLen);
    LongerNumber(e.src, p, e.pal);
  }

  lemma {:induction false} LongerArray(e: Env, pos: nat, depth: nat, n: nat, items: seq<Json>)
    requires pos <= |e.src|
    ensures Kept(ParseItem(e, pos, depth, n, items), ParseItem(e.(src := Longer(e.src)), pos, depth, n, items))
    decreases |e.src| - pos, 1
  {
    hide ParseValue, ArrayCont, ParseKey, ParseColon, ParseMember, ObjectCont;
    LongerValue(e, pos, depth + 1, n);
    var v := ParseValue(e, pos, depth + 1, n);
    if v.Ok? && |items| < e.l.arrayLen {
      LongerArrayCont(e, v.value.next, depth, v.value.nodes, items + [v.value.value]);
    }
  }

  lemma {:induction false} LongerArrayCont(e: Env, pos: nat, depth: nat, n: nat, items: seq<Json>)
    requires pos <= |e.src|
    ensures Kept(ArrayCont(e, pos, depth, n, items), ArrayCont(e.(src := Longer(e.src)), pos, depth, n, items))
    decreases |e.src| - pos, 0
  {
    hide ParseValue, ParseItem, ParseKey, ParseColon, ParseMember, ObjectCont;
    LongerWs(e.src, pos);
    var p := SkipWs(e.src, pos);
    if p < |e.src| && e.src[p] == COMMA && depth < e.l.depth { LongerArray(e, p + 1, depth, n, items); }
  }

  lemma {:induction false} LongerKey(e: Env, pos: nat, depth: nat, n: nat, pairs: seq<Pair>)
    requires pos <= |e.src|
    ensures Kept(ParseKey(e, pos, depth, n, pairs), ParseKey(e.(src := Longer(e.src)), pos, depth, n, pairs))
    decreases |e.src| - pos, 0
  {
    hide StringAt, ParseValue, ParseItem, ArrayCont, ParseColon, ParseMember, ObjectCont;
    LongerWs(e.src, pos);
    var p := SkipWs(e.src, pos);
    if p < |e.src| && e.src[p] == QUOTE {
      LongerString(e.src, p + 1, e.l.stringLen);
      var lit := StringAt(e.src, p + 1, e.l.stringLen);
      if lit.Ok? { LongerColon(e, lit.value.next, depth, n, pairs, lit.value.value); }
    }
  }

  lemma {:induction false} LongerColon(e: Env, pos: nat, depth: nat, n: nat, pairs: seq<Pair>, key: bytes)
    requires pos <= |e.src|
    ensures Kept(ParseColon(e, pos, depth, n, pairs, key),
                 ParseColon(e.(src := Longer(e.src)), pos, depth, n, pairs, key))
    decreases |e.src| - pos, 0
  {
    hide ParseValue, ParseItem, ArrayCont, ParseKey, ParseMember, ObjectCont;
    LongerWs(e.src, pos);
    var p := SkipWs(e.src, pos);
    if p < |e.src| && e.src[p] == COLON && depth < e.l.depth { LongerMember(e, p + 1, depth, n, pairs, key); }
  }

  lemma {:induction false} LongerMember(e: Env, pos: nat, depth: nat, n: nat, pairs: seq<Pair>, key: bytes)
    requires pos <= |e.src|
    ensures Kept(ParseMember(e, pos, depth, n, pairs, key),
                 ParseMember(e.(src := Longer(e.src)), pos, depth, n, pairs, key))
    decreases |e.src| - pos, 1
  {
    hide ParseValue, ParseItem, ArrayCont, ParseKey, ParseColon, ObjectCont;
    LongerValue(e, pos, depth + 1, n);
    var v := ParseValue(e, pos, depth + 1, n);
    if v.Ok? && |pairs| < e.l.arrayLen {
      LongerObjectCont(e, v.value.next, depth, v.value.nodes, pairs + [Pair(key, v.value.value)]);
    }
  }

  lemma {:induction false} LongerObjectCont(e: Env, pos: nat, depth: nat, n: nat, pairs: seq<Pair>)
    requires pos <= |e.src|
    ensures Kept(ObjectCont(e, pos, depth, n, pairs), ObjectCont(e.(src := Longer(e.src)), pos, depth, n, pairs))
    decreases |e.src| - pos, 0
  {
    hide ParseValue, ParseItem, ArrayCont, ParseKey, ParseColon, ParseMember;
    LongerWs(e.src, pos);
    var p := SkipWs(e.src, pos);
    if p < |e.src| && e.src[p] == COMMA { LongerKey(e, p + 1, depth, n, pairs); }
  }

  /**
    * UNEXPECTED_EOF is reported exactly for the texts that are refused for another reason when a byte
    * follows that no rule admits: the parse came to the end of the text and wanted more.
    */
  lemma EofErrorExact(e: Env, n: nat)
    ensures ParseDocument(e, n) == Err(UnexpectedEof) <==>
      ParseDocument(e, n).Err? && ParseDocument(e.(src := Longer(e.src)), n) != ParseDocument(e, n)
    ensures ParseDocument(e.(src := Longer(e.src)), n).Err?
  {
    LongerValue(e, 0, 1, n);
    var v := ParseValue(e, 0, 1, n);
    if v.Ok? { LongerWs(e.src, v.value.next); }
    hide ParseValue;
  }

  lemma {:induction false} OnlyWs(s: bytes, i: nat)
    requires i <= |s|
    ensures SkipWs(s, i) == |s| <==> forall k :: i <= k < |s| ==> IsSpace(s[k])
    decreases |s| - i
  {
    if i < |s| {
      SpaceAgrees(s[i]);
      if IsWs(s[i]) { OnlyWs(s, i + 1); }
    }
  }

  /** Blank texts end too early; any other text needs a node, whatever stands in it. */
  lemma FirstNode(e: Env, n: nat)
    requires n >= e.l.nodes
    ensures ParseDocument(e, n) ==
      Err(if forall k :: 0 <= k < |e.src| ==> IsSpace(e.src[k]) then UnexpectedEof else NodeLimit)
  {
    OnlyWs(e.src, 0);
    hide SkipWs, IsSpace;
  }

  // ---------- something in the text is wrong ----------

  /**
    * Where an error comes from: a string, a number, or an array or object that is too long. Only the
    * errors of json_parse occur.
    */
  ghost predicate Blamed<T>(e: Env, r: Result<T>) {
    r.Err? ==> match r.error
      case InvalidString => InSomeString(e, InvalidString)
      case InvalidUtf8 => InSomeString(e, InvalidUtf8)
      case InvalidNumber => InSomeNumber(e, InvalidNumber)
      case Overflow => InSomeString(e, Overflow) || InSomeNumber(e, Overflow) || e.l.arrayLen < |e.src|
      case InvalidJson => true
      case UnexpectedEof => true
      case DepthExceeded => true
      case NodeLimit => true
      case _ => false
  }

  ghost predicate InSomeString(e: Env, x: Error) {
    exists i: nat :: 0 < i <= |e.src| && e.src[i - 1] == QUOTE && StringAt(e.src, i, e.l.stringLen) == Err(x)
  }

  ghost predicate InSomeNumber(e: Env, x: Error) {
    exists i: nat :: i < |e.src| && (e.src[i] == MINUS || IsDigit(e.src[i])) && NumberAt(e.src, i, e.pal) == Err(x)
  }

  lemma BlamedString(e: Env, i: nat)
    requires 0 < i <= |e.src| && e.src[i - 1] == QUOTE
    ensures Blamed(e, StringAt(e.src, i, e.l.stringLen))
  {
    ScalarErrors(e, i);
  }

  lemma BlamedNumber(e: Env, i: nat)
    requires i < |e.src| && (e.src[i] == MINUS || IsDigit(e.src[i]))
    ensures Blamed(e, NumberAt(e.src, i, e.pal))
  {
    ScalarErrors(e, i);
  }

  lemma {:induction false} BlamedValue(e: Env, pos: nat, depth: nat, n: nat)
    requires pos <= |e.src|
    ensures Blamed(e, ParseValue(e, pos, depth, n))
    decreases |e.src| - pos, 0
  {
    hide StringAt, NumberAt, InSomeString, InSomeNumber, ParseItem, ArrayCont, ParseKey, ParseColon,
      ParseMember, ObjectCont;
    var s, p := e.src, SkipWs(e.src, pos);
    if p < |s| && n < e.l.nodes {
      if s[p] == QUOTE {
        BlamedString(e, p + 1);
      } else if s[p] == MINUS || IsDigit(s[p]) {
        BlamedNumber(e, p);
      } else if s[p] == LBRACKET && depth < e.l.depth {
        var q := SkipWs(s, p + 1);
        if q == |s| || s[q] != RBRACKET { BlamedItem(e, q, depth, n + 1, []); }
      } else if s[p] == LBRACE && depth < e.l.depth {
        var q := SkipWs(s, p + 1);
        if q == |s| || s[q] != RBRACE { BlamedKey(e, q, depth, n + 1, []); }
      }
    }
  }

  lemma {:induction false} BlamedItem(e: Env, pos: nat, depth: nat, n: nat, items: seq<Json>)
    requires |items| < pos <= |e.src|
    ensures Blamed(e, ParseItem(e, pos, depth, n, items))
    decreases |e.src| - pos, 1
  {
    hide InSomeString, InSomeNumber, ParseValue, ArrayCont, ParseKey, ParseColon, ParseMember, ObjectCont;
    BlamedValue(e, pos, depth + 1, n);
    var v := ParseValue(e, pos, depth + 1, n);
    if v.Ok? && |items| < e.l.arrayLen {
      BlamedArrayCont(e, v.value.next, depth, v.value.nodes, items + [v.value.value]);
    }
  }

  lemma {:induction false} BlamedArrayCont(e: Env, pos: nat, depth: nat, n: nat, items: seq<Json>)
    requires |items| < pos <= |e.src|
    ensures Blamed(e, ArrayCont(e, pos, depth, n, items))
    decreases |e.src| - pos, 0
  {
    hide InSomeString, InSomeNumber, ParseValue, ParseItem, ParseKey, ParseColon, ParseMember, ObjectCont;
    var p := SkipWs(e.src, pos);
    if p < |e.src| && e.src[p] == COMMA && depth < e.l.depth { BlamedItem(e, p + 1, depth, n, items); }
  }

  lemma {:induction false} BlamedKey(e: Env, pos: nat, depth: nat, n: nat, pairs: seq<Pair>)
    requires |pairs| < pos <= |e.src|
    ensures Blamed(e, ParseKey(e, pos, depth, n, pairs))
    decreases |e.src| - pos, 0
  {
    hide InSomeString, InSomeNumber, StringAt, ParseValue, ParseItem, ArrayCont, ParseColon, ParseMember, ObjectCont;
    var p := SkipWs(e.src, pos);
    if p < |e.src| && e.src[p] == QUOTE {
      BlamedString(e, p + 1);
      var lit := StringAt(e.src, p + 1, e.l.stringLen);
      if lit.Ok? { BlamedColon(e, lit.value.next, depth, n, pairs, lit.value.value); }
    }
  }

  lemma {:induction false} BlamedColon(e: Env, pos: nat, depth: nat, n: nat, pairs: seq<Pair>, key: bytes)
    requires |pairs| < pos <= |e.src|
    ensures Blamed(e, ParseColon(e, pos, depth, n, pairs, key))
    decreases |e.src| - pos, 0
  {
    hide InSomeString, InSomeNumber, ParseValue, ParseItem, ArrayCont, ParseKey, ParseMember, ObjectCont;
    var p := SkipWs(e.src, pos);
    if p < |e.src| && e.src[p] == COLON && depth < e.l.depth { BlamedMember(e, p + 1, depth, n, pairs, key); }
  }

  lemma {:induction false} BlamedMember(e: Env, pos: nat, depth: nat, n: nat, pairs: seq<Pair>, key: bytes)
    requires |pairs| < pos <= |e.src|
    ensures Blamed(e, ParseMember(e, pos, depth, n, pairs, key))
    decreases |e.src| - pos, 1
  {
    hide InSomeString, InSomeNumber, ParseValue, ParseItem, ArrayCont, ParseKey, ParseColon, ObjectCont;
    BlamedValue(e, pos, depth + 1, n);
    var v := ParseValue(e, pos, depth + 1, n);
    if v.Ok? && |pairs| < e.l.arrayLen {
      BlamedObjectCont(e, v.value.next, depth, v.value.nodes, pairs + [Pair(key, v.value.value)]);
    }
  }

  lemma {:induction false} BlamedObjectCont(e: Env, pos: nat, depth: nat, n: nat, pairs: seq<Pair>)
    requires |pairs| < pos <= |e.src|
    ensures Blamed(e, ObjectCont(e, pos, depth, n, pairs))
    decreases |e.src| - pos, 0
  {
    hide InSomeString, InSomeNumber, ParseValue, ParseItem, ArrayCont, ParseKey, ParseColon, ParseMember;
    var p := SkipWs(e.src, pos);
    if p < |e.src| && e.src[p] == COMMA { BlamedKey(e, p + 1, depth, n, pairs); }
  }

  /** Every error has its cause in the text. */
  lemma ErrorHasCause(e: Env, n: nat)
    ensures Blamed(e, ParseDocument(e, n))
  {
    hide ParseValue, InSomeString, InSomeNumber;
    BlamedValue(e, 0, 1, n);
  }

  /** A grammatical character does not stand at s[j]. */
  ghost predicate NoChar(s: bytes, j: nat) { forall c: StrChar :: WellFormedChar(c) ==> !At(s, j, CharText(c)) }

  /** Why the content of a literal is refused at s[j]. */
  ghost predicate Refused(s: bytes, j: nat, x: Error) {
    match x
    case UnexpectedEof => j == |s| || (j + 1 == |s| && s[j] == 0x5C)
    case InvalidUtf8 => j < |s| && s[j] >= 0x80 && forall n :: j < n <= |s| ==> !IsUtf8Char(s[j..n])
    case InvalidString => j < |s| && (s[j] < 0x20 || (j + 1 < |s| && s[j] == 0x5C && NoChar(s, j)))
    case _ => false
  }

  /** Refused content: grammatical characters, and then what the error says. */
  lemma {:induction false} ContentError(s: bytes, i: nat) returns (cs: seq<StrChar>)
    requires i <= |s| && ContentAt(s, i).Err?
    ensures WellFormedChars(cs) && At(s, i, CharsText(cs))
    ensures Refused(s, i + |CharsText(cs)|, ContentAt(s, i).error)
    decreases |s| - i
  {
    hide *;
    ContentUnfolds(s, i);
    cs := [];
    NothingRead();
    AtNothing(s, i);
    if i == |s| {
      EndRefused(s);
    } else if ItemAt(s, i).Err? {
      ItemError(s, i);
    } else {
      var c := ItemSound(s, i);
      ErrorBehind(ItemAt(s, i).value.out, ContentAt(s, i + ItemAt(s, i).value.len));
      var rest := ContentError(s, i + |CharText(c)|);
      cs := [c] + rest;
      CharsCons(c, rest);
      AtConcat(s, i, CharText(c), CharsText(rest));
    }
  }

  lemma ErrorBehind(out: bytes, r: Result<Content>)
    ensures Prepend(out, r).Err? ==> r == Err(Prepend(out, r).error)
  {}

  lemma NothingRead()
    ensures WellFormedChars([]) && CharsText([]) == []
  {}

  lemma EndRefused(s: bytes)
    ensures Refused(s, |s|, UnexpectedEof)
  {}

  lemma ItemError(s: bytes, i: nat)
    requires i < |s| && s[i] != QUOTE && ItemAt(s, i).Err?
    ensures Refused(s, i, ItemAt(s, i).error)
  {
    hide WellFormedChar, CharText, CharMeaning, Encode, IsUtf8Char;
    forall c | WellFormedChar(c) ensures !At(s, i, CharText(c)) {
      if At(s, i, CharText(c)) { ItemComplete(s, i, c); }
    }
    DecodeAcceptsExactly(s, i);
    LongerDecode(s, i);
    if s[i] == BACKSLASH {
      if i + 1 < |s| { EscapeError(s, i); }
    } else {
      hide DecodeAt, NoChar;
    }
  }

  lemma EscapeError(s: bytes, i: nat)
    requires i + 1 < |s|
    ensures UnicodeEscapeAt(s, i).Err? ==> UnicodeEscapeAt(s, i).error == InvalidString
  {
    hide Hex4, Encode, PairValue;
  }
}
