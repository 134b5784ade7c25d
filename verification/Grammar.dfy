/** The grammar of sections 2 to 5 of RFC 8259, as derivation trees with a text and a meaning. */
module Grammar {
  import opened Base
  import opened Tree
  import opened StringGrammar
  import opened Numbers
  import opened NumberGrammar
  import opened ParserSpec
  import opened Lexical

  /** Insignificant whitespace before and after a structural character (section 2). */
  datatype Pad = Pad(before: bytes, after: bytes)

  /** A derivation of the nonterminal `value` (section 3). */
  datatype Value =
    | LitNull
    | LitTrue
    | LitFalse
    | LitNumber(num: NumberText)
    | LitString(chars: seq<StrChar>)
    | EmptyArray(open: Pad, close: Pad)
    | Array(open: Pad, first: Value, rest: Items, close: Pad)
    | EmptyObject(open: Pad, close: Pad)
    | Object(open: Pad, head: Member, tail: Members, close: Pad)

  /** *( value-separator value ) */
  datatype Items = NoItems | MoreItems(sep: Pad, item: Value, items: Items)

  /** member = string name-separator value */
  datatype Member = Member(key: seq<StrChar>, colon: Pad, val: Value)

  /** *( value-separator member ) */
  datatype Members = NoMembers | MoreMembers(sep: Pad, member: Member, members: Members)

  /** JSON-text = ws value ws */
  datatype Document = Document(before: bytes, value: Value, after: bytes)

  predicate AllWs(ws: bytes) { forall k :: 0 <= k < |ws| ==> IsSpace(ws[k]) }

  predicate WellFormedPad(p: Pad) { AllWs(p.before) && AllWs(p.after) }

  predicate WellFormed(v: Value) {
    match v
    case LitNumber(num) => WellFormedNumber(num)
    case LitString(chars) => WellFormedChars(chars)
    case EmptyArray(open, close) => WellFormedPad(open) && WellFormedPad(close)
    case Array(open, first, rest, close) =>
      WellFormedPad(open) && WellFormed(first) && WellFormedItems(rest) && WellFormedPad(close)
    case EmptyObject(open, close) => WellFormedPad(open) && WellFormedPad(close)
    case Object(open, head, tail, close) =>
      WellFormedPad(open) && WellFormedMember(head) && WellFormedMembers(tail) && WellFormedPad(close)
    case _ => true
  }

  predicate WellFormedItems(items: Items) {
    items.MoreItems? ==> WellFormedPad(items.sep) && WellFormed(items.item) && WellFormedItems(items.items)
  }

  predicate WellFormedMember(m: Member) {
    WellFormedChars(m.key) && WellFormedPad(m.colon) && WellFormed(m.val)
  }

  predicate WellFormedMembers(ms: Members) {
    ms.MoreMembers? ==> WellFormedPad(ms.sep) && WellFormedMember(ms.member) && WellFormedMembers(ms.members)
  }

  predicate WellFormedDocument(d: Document) { AllWs(d.before) && WellFormed(d.value) && AllWs(d.after) }

  // ---------- text ----------

  /** A structural character with its whitespace. */
  function TokenText(p: Pad, c: byte): bytes { p.before + ([c] + p.after) }

  function QuotedText(chars: seq<StrChar>): bytes { [QUOTE] + (CharsText(chars) + [QUOTE]) }

  function ValueText(v: Value): bytes {
    match v
    case LitNull => [0x6E] + ULL
    case LitTrue => [0x74] + RUE
    case LitFalse => [0x66] + ALSE
    case LitNumber(num) => NumText(num)
    case LitString(chars) => QuotedText(chars)
    case EmptyArray(open, close) => TokenText(open, LBRACKET) + TokenText(close, RBRACKET)
    case Array(open, first, rest, close) =>
      TokenText(open, LBRACKET) + (ValueText(first) + (ItemsText(rest) + TokenText(close, RBRACKET)))
    case EmptyObject(open, close) => TokenText(open, LBRACE) + TokenText(close, RBRACE)
    case Object(open, head, tail, close) =>
      TokenText(open, LBRACE) + (MemberText(head) + (MembersText(tail) + TokenText(close, RBRACE)))
  }

  function ItemsText(items: Items): bytes {
    match items
    case NoItems => []
    case MoreItems(sep, item, more) => TokenText(sep, COMMA) + (ValueText(item) + ItemsText(more))
  }

  function MemberText(m: Member): bytes {
    QuotedText(m.key) + (TokenText(m.colon, COLON) + ValueText(m.val))
  }

  function MembersText(ms: Members): bytes {
    match ms
    case NoMembers => []
    case MoreMembers(sep, member, more) => TokenText(sep, COMMA) + (MemberText(member) + MembersText(more))
  }

  function DocumentText(d: Document): bytes { d.before + (ValueText(d.value) + d.after) }

  /** The bytes of an ASCII string. */
  function Ascii(s: string): bytes
    requires forall k :: 0 <= k < |s| ==> s[k] < 128 as char
  {
    seq(|s|, k requires 0 <= k < |s| => s[k] as int)
  }

  /** The three literal names. */
  lemma LiteralNames()
    ensures ValueText(LitNull) == Ascii("null") && ValueText(LitTrue) == Ascii("true")
    ensures ValueText(LitFalse) == Ascii("false")
  {}

  // ---------- meaning ----------

  /** The tree that a derivation denotes; None when a number has no int64 or finite double value. */
  function Meaning(v: Value, pal: Pal): Option<Json>
    requires WellFormed(v)
  {
    match v
    case LitNull => Some(Null)
    case LitTrue => Some(Bool(true))
    case LitFalse => Some(Bool(false))
    case LitNumber(num) =>
      (match NumberValue(Parts(num, 0), NumText(num), pal)
       case Ok(t) => Some(t)
       case Err(_) => None)
    case LitString(chars) => Some(Str(CharsMeaning(chars)))
    case EmptyArray(_, _) => Some(Arr([]))
    case Array(_, first, rest, _) =>
      (match (Meaning(first, pal), ItemsMeaning(rest, pal))
       case (Some(t), Some(ts)) => Some(Arr([t] + ts))
       case _ => None)
    case EmptyObject(_, _) => Some(Obj([]))
    case Object(_, head, tail, _) =>
      (match (MemberMeaning(head, pal), MembersMeaning(tail, pal))
       case (Some(p), Some(ps)) => Some(Obj([p] + ps))
       case _ => None)
  }

  function ItemsMeaning(items: Items, pal: Pal): Option<seq<Json>>
    requires WellFormedItems(items)
  {
    match items
    case NoItems => Some([])
    case MoreItems(_, item, more) =>
      match (Meaning(item, pal), ItemsMeaning(more, pal))
      case (Some(t), Some(ts)) => Some([t] + ts)
      case _ => None
  }

  function MemberMeaning(m: Member, pal: Pal): Option<Pair>
    requires WellFormedMember(m)
  {
    match Meaning(m.val, pal)
    case Some(t) => Some(Pair(CharsMeaning(m.key), t))
    case None => None
  }

  function MembersMeaning(ms: Members, pal: Pal): Option<seq<Pair>>
    requires WellFormedMembers(ms)
  {
    match ms
    case NoMembers => Some([])
    case MoreMembers(_, member, more) =>
      match (MemberMeaning(member, pal), MembersMeaning(more, pal))
      case (Some(p), Some(ps)) => Some([p] + ps)
      case _ => None
  }

  /** The text `s` derives the tree `t`. */
  ghost predicate Derives(s: bytes, t: Json, pal: Pal) {
    exists d: Document :: IsDerivation(d, s, t, pal)
  }

  ghost predicate IsDerivation(d: Document, s: bytes, t: Json, pal: Pal) {
    WellFormedDocument(d) && DocumentText(d) == s && Meaning(d.value, pal) == Some(t)
  }
}
