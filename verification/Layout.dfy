/** How written text looks: its whitespace, and which characters of a string are escaped. */
module Layout {
  import opened Base
  import opened Lexical
  import opened StringGrammar
  import opened WriterSpec
  import G = Grammar

  // ---------- strings ----------

  /** Hexadecimal digits in lower case. */
  predicate LowerHex(h: bytes) { forall k :: 0 <= k < |h| ==> 0x30 <= h[k] <= 0x39 || 0x61 <= h[k] <= 0x66 }

  /** Backspace, tab, line feed, form feed and carriage return have a letter. */
  predicate HasLetter(u: nat) { u == 0x08 || u == 0x09 || u == 0x0A || u == 0x0C || u == 0x0D }

  /**
    * Characters are escaped only where they must be, and in ASCII mode where they are not ASCII; the
    * shortest escape is taken, and the slash is left alone.
    */
  predicate StyledChar(c: StrChar, ascii: bool)
    requires WellFormedChar(c)
  {
    match c
    case Unescaped(cp) => ascii ==> cp < 0x80
    case Short(letter) => letter != 0x2F
    case Unicode(h) =>
      var u := HexNumber(h);
      LowerHex(h) && ((u < 0x20 && !HasLetter(u)) || (ascii && u >= 0x80))
    case SurrogatePair(hi, lo) => ascii && LowerHex(hi) && LowerHex(lo)
  }

  predicate StyledChars(cs: seq<StrChar>, ascii: bool)
    requires WellFormedChars(cs)
  {
    forall k :: 0 <= k < |cs| ==> StyledChar(cs[k], ascii)
  }

  // ---------- whitespace ----------

  /** A line break and `depth` times the indentation in pretty mode, nothing otherwise. */
  predicate IsBreak(ws: bytes, o: Opts, depth: nat) {
    if o.pretty then
      |ws| == 1 + depth * o.indent && ws[0] == 0x0A && forall k :: 1 <= k < |ws| ==> ws[k] == 0x20
    else ws == []
  }

  /** An opening bracket: the first element goes to a line of its own. */
  predicate StyledOpen(p: G.Pad, o: Opts, depth: nat) { p.before == [] && IsBreak(p.after, o, depth + 1) }

  /** A closing bracket: on a line of its own, at the level of the opening one. */
  predicate StyledClose(p: G.Pad, o: Opts, depth: nat) { IsBreak(p.before, o, depth) && p.after == [] }

  /** A comma: behind its element, and the next one on a line of its own. */
  predicate StyledComma(p: G.Pad, o: Opts, depth: nat) { p.before == [] && IsBreak(p.after, o, depth) }

  /** A colon: behind its key, and followed by one space in pretty mode. */
  predicate StyledColon(p: G.Pad, o: Opts) { p.before == [] && p.after == if o.pretty then [0x20] else [] }

  predicate NoPad(p: G.Pad) { p.before == [] && p.after == [] }

  /** A value that starts at nesting level `depth`. */
  predicate Styled(v: G.Value, o: Opts, depth: nat)
    requires G.WellFormed(v)
  {
    match v
    case LitString(chars) => StyledChars(chars, o.asciiOnly)
    case EmptyArray(open, close) => NoPad(open) && NoPad(close)
    case Array(open, first, rest, close) =>
      StyledOpen(open, o, depth) && Styled(first, o, depth + 1) && StyledItems(rest, o, depth + 1)
      && StyledClose(close, o, depth)
    case EmptyObject(open, close) => NoPad(open) && NoPad(close)
    case Object(open, head, tail, close) =>
      StyledOpen(open, o, depth) && StyledMember(head, o, depth + 1) && StyledMembers(tail, o, depth + 1)
      && StyledClose(close, o, depth)
    case _ => true
  }

  predicate StyledItems(items: G.Items, o: Opts, depth: nat)
    requires G.WellFormedItems(items)
  {
    match items
    case NoItems => true
    case MoreItems(sep, item, more) =>
      StyledComma(sep, o, depth) && Styled(item, o, depth) && StyledItems(more, o, depth)
  }

  predicate StyledMember(m: G.Member, o: Opts, depth: nat)
    requires G.WellFormedMember(m)
  {
    StyledChars(m.key, o.asciiOnly) && StyledColon(m.colon, o) && Styled(m.val, o, depth)
  }

  predicate StyledMembers(ms: G.Members, o: Opts, depth: nat)
    requires G.WellFormedMembers(ms)
  {
    match ms
    case NoMembers => true
    case MoreMembers(sep, member, more) =>
      StyledComma(sep, o, depth) && StyledMember(member, o, depth) && StyledMembers(more, o, depth)
  }

  /** A whole text: nothing before the value, and behind it a newline if the options ask for it. */
  predicate StyledDocument(d: G.Document, o: Opts)
    requires G.WellFormedDocument(d)
  {
    d.before == [] && Styled(d.value, o, 0) && d.after == if o.trailingNl then [0x0A] else []
  }
}
