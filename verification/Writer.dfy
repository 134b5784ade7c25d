/** The bounded writer: jw_put to json_write, with its measuring mode and its key sort. */
module Writer {
  import opened Base
  import opened Utf8
  import opened Tree
  import opened Numbers
  import opened NumberGrammar
  import opened KeyOrder
  import opened Sort
  import opened Objects
  import opened WriterSpec
  import opened Arrangement

  /** PTRDIFF_MAX: no object of the host is larger. */
  const PTRDIFF_MAX: nat := 0x7FFF_FFFF_FFFF_FFFF

  /** The first `n` bytes at most. */
  function Cut(s: bytes, n: nat): bytes { if |s| <= n then s else s[..n] }

  /**
    * JsonWriter. `written` is the output so far, also when it is only measured; `goal` is everything
    * the code has asked to write, whether or not there was room for it.
    */
  class JsonWriter {
    const buf: array<byte>
    const cap: nat
    const measureOnly: bool
    const st: Style
    var used: nat
    var err: Option<Error>
    ghost var written: bytes
    ghost var goal: bytes

    /** The number of bytes there is room for; one byte of the buffer is kept for the NUL. */
    ghost function Room(): nat { if measureOnly then SIZE_MAX else if cap == 0 then 0 else cap - 1 }

    /** Whether the writer's behaviour is promised: the output fits, or it is compact and goes to a buffer. */
    ghost predicate Tracked()
      reads this
    {
      |goal| <= Room() || (!measureOnly && !st.opts.pretty)
    }

    ghost predicate Valid()
      reads this, buf
    {
      && |written| == used && used <= Room()
      && (!measureOnly ==> cap <= buf.Length && cap <= PTRDIFF_MAX && buf[..used] == written)
      && (Tracked() ==> written == Cut(goal, Room()))
    }

    /** The sticky error says whether something did not fit. */
    ghost predicate Sane()
      reads this
    {
      Tracked() ==> err == if |goal| <= Room() then None else Some(BufferTooSmall)
    }

    /** The status of a write of part of the goal that stops with `error`. */
    ghost predicate Reports(status: Option<Error>, error: Option<Error>)
      reads this
    {
      && (status.None? ==> error.None?)
      && (|goal| <= Room() ==> status == error)
      && (|goal| > Room() && Tracked() ==> status.Some? && (error.None? ==> status == Some(BufferTooSmall)))
    }

    constructor (buf: array<byte>, cap: nat, measureOnly: bool, st: Style)
      requires !measureOnly ==> cap <= buf.Length && cap <= PTRDIFF_MAX
      ensures Valid() && Sane() && goal == [] && used == 0
      ensures this.buf == buf && this.cap == cap && this.measureOnly == measureOnly && this.st == st
    {
      this.buf, this.cap, this.measureOnly, this.st := buf, cap, measureOnly, st;
      used, err, written, goal := 0, None, [], [];
    }

    /** Gives up an output that did not fit: what is left of it counts as asked for. */
    ghost method Abandon(full: bytes, status: Option<Error>, error: Option<Error>)
      requires Valid() && goal <= full && status.Some? && Reports(status, None)
      modifies this`goal
      ensures Valid() && goal == full && Reports(status, error)
      ensures old(Sane()) ==> Sane()
    {
      assert full[..Room()] == goal[..Room()];
      goal := full;
    }

    /** Stops with an error of its own. */
    method Fail(e: Error) returns (status: Option<Error>)
      requires Valid()
      modifies this`err
      ensures Valid() && Reports(status, Some(e))
    {
      err := Some(e);
      return err;
    }

    /** The sticky error as a status. */
    method Outcome() returns (status: Option<Error>)
      requires Sane()
      ensures Reports(status, None)
    {
      return err;
    }

    /** jw_put. */
    method Put(c: byte) returns (status: Option<Error>)
      requires Valid() && Sane()
      modifies this, buf
      ensures Valid() && Sane() && goal == old(goal) + [c] && Reports(status, None)
    {
      goal := goal + [c];
      if used == SIZE_MAX { err := Some(Overflow); return err; }
      if measureOnly {
        used := used + 1;
        written := written + [c];
        return None;
      }
      if cap == 0 || used >= cap - 1 { err := Some(BufferTooSmall); return err; }
      buf[used] := c;
      used := used + 1;
      written := written + [c];
      return None;
    }

    /** jw_puts. */
    method Puts(s: bytes) returns (status: Option<Error>)
      requires Valid() && Sane() && 0 < |s| <= PTRDIFF_MAX
      modifies this, buf
      ensures Valid() && Sane() && goal == old(goal) + s && Reports(status, None)
    {
      ghost var full := goal + s;
      if |s| > SIZE_MAX - used { err, goal := Some(Overflow), full; return err; }
      if measureOnly {
        used := used + |s|;
        written, goal := written + s, full;
        return None;
      }
      for i := 0 to |s|
        invariant Valid() && Sane() && goal == old(goal) + s[..i]
        invariant i > 0 ==> Reports(None, None)
      {
        status := Put(s[i]);
        assert s[..i + 1] == s[..i] + [s[i]];
        if status.Some? {
          assert full == goal + s[i + 1..];
          Abandon(full, Some(BufferTooSmall), None);
          return Some(BufferTooSmall);
        }
      }
      assert s[..|s|] == s;
      return None;
    }

    /** jw_indent; the product cannot wrap, both factors being 32-bit. */
    method Indent(depth: nat) returns (status: Option<Error>)
      requires Valid() && Sane() && st.opts.pretty && goal != []
      modifies this, buf
      ensures Valid() && Sane() && goal == old(goal) + Spaces(depth * st.opts.indent) && Reports(status, None)
    {
      assert |goal| <= Room() ==> used == |goal|;
      var count := depth * st.opts.indent;
      var blanks := Spaces(count);
      goal := goal + blanks;
      if count > SIZE_MAX - used { err := Some(Overflow); return err; }
      if !measureOnly {
        if cap == 0 || used >= cap || count >= cap - used {
          assert |goal| > Room();
          err := Some(BufferTooSmall);
          return err;
        }
        FillSpaces(used, count);
      }
      written := written + blanks;
      used := used + count;
      return None;
    }

    /** memset of `count` spaces at buf[from..]. */
    method FillSpaces(from: nat, count: nat)
      requires from + count <= buf.Length
      modifies buf
      ensures buf[..from] == old(buf[..from]) && buf[from..from + count] == Spaces(count)
    {
      for i := 0 to count
        invariant buf[..from] == old(buf[..from])
        invariant forall k :: from <= k < from + i ==> buf[k] == SPACE
      {
        buf[from + i] := SPACE;
      }
    }

    /** jw_u16. */
    method PutU16(code: nat) returns (status: Option<Error>)
      requires Valid() && Sane() && code < 0x1_0000
      modifies this, buf
      ensures Valid() && Sane() && goal == old(goal) + U16Text(code) && Reports(status, None)
    {
      var escaped: bytes := [BACKSLASH, 0x75];
      for i := 0 to 4
        invariant |escaped| == 2 + i && escaped == U16Text(code)[..2 + i]
      {
        var shifted :=
          if i == 0 then code / 4096 else if i == 1 then code / 256 else if i == 2 then code / 16 else code;
        escaped := escaped + [HexDigit(shifted % 16)];
      }
      status := Puts(escaped);
    }

    /** The escaping branch of jw_string_content for one ASCII byte. */
    method PutAscii(c: nat) returns (status: Option<Error>)
      requires Valid() && Sane() && c < 0x80
      modifies this, buf
      ensures Valid() && Sane() && goal == old(goal) + AsciiText(c) && Reports(status, None)
    {
      if c < 0x20 || c == QUOTE || c == BACKSLASH {
        if c == QUOTE { status := Puts([BACKSLASH, QUOTE]); }
        else if c == BACKSLASH { status := Puts([BACKSLASH, BACKSLASH]); }
        else if c == 0x0A { status := Puts([BACKSLASH, 0x6E]); }
        else if c == 0x0D { status := Puts([BACKSLASH, 0x72]); }
        else if c == 0x09 { status := Puts([BACKSLASH, 0x74]); }
        else if c == 0x08 { status := Puts([BACKSLASH, 0x62]); }
        else if c == 0x0C { status := Puts([BACKSLASH, 0x66]); }
        else { status := Puts([BACKSLASH, 0x75, 0x30, 0x30, HexDigit(c / 16 % 16), HexDigit(c % 16)]); }
      } else {
        status := Put(c);
      }
    }

    /** The multi-byte branch of jw_string_content. */
    method PutWide(cp: scalar, source: bytes) returns (status: Option<Error>)
      requires Valid() && Sane() && cp >= 0x80 && source == Encode(cp)
      modifies this, buf
      ensures Valid() && Sane() && goal == old(goal) + CharOut(cp, st.opts.asciiOnly) && Reports(status, None)
    {
      hide *;
      WideText(cp);
      if !st.opts.asciiOnly {
        status := Puts(source);
      } else if cp <= 0xFFFF {
        status := PutU16(cp);
      } else {
        var code := cp - 0x1_0000;
        ghost var hi, lo := U16Text(0xD800 + code / 1024), U16Text(0xDC00 + code % 1024);
        status := PutU16(0xD800 + code / 1024);
        if status.None? {
          status := PutU16(0xDC00 + code % 1024);
        } else {
          Abandon(goal + lo, status, None);
        }
        assert goal == old(goal) + (hi + lo);
      }
    }

    /** jw_string_content. */
    method StringContent(s: bytes) returns (status: Option<Error>)
      requires Valid() && Sane()
      modifies this, buf
      ensures Valid() && goal == old(goal) + StringOut(s, 0, st.opts.asciiOnly).text
      ensures Reports(status, StringOut(s, 0, st.opts.asciiOnly).error)
      ensures StringOut(s, 0, st.opts.asciiOnly).error.None? ==> Sane()
    {
      hide *;
      StringEnds(s, st.opts.asciiOnly);
      ghost var ascii := st.opts.asciiOnly;
      ghost var whole := StringOut(s, 0, ascii);
      ghost var full := goal + whole.text;
      var i := 0;
      while i < |s|
        invariant i <= |s| && Valid() && Sane()
        invariant whole.error == StringOut(s, i, ascii).error && full == goal + StringOut(s, i, ascii).text
      {
        var c := s[i];
        StringStep(s, i, ascii);
        if c >= 0x80 {
          var d := Utf8Decode(s, i);
          if d.None? { status := Fail(InvalidUtf8); return; }
          DecodeSound(s, i);
          AtSlice(s, i, Encode(d.value.cp));
          status := PutWide(d.value.cp, s[i..i + d.value.count]);
          i := i + d.value.count;
          assert full == goal + StringOut(s, i, ascii).text;
          if status.Some? { Abandon(full, status, whole.error); return; }
        } else {
          var _ := PutAscii(c);
          i := i + 1;
          assert full == goal + StringOut(s, i, ascii).text;
        }
      }
      status := Outcome();
    }

    /** The digit loop of jw_int64: the decimal digits of `n`, last one first. */
    static method Digits(n: nat, tmp: array<byte>) returns (len: nat)
      requires 0 < n < Pow10(20) && tmp.Length == 22
      modifies tmp
      ensures len == |Decimal(n)| <= 20 && forall k :: 0 <= k < len ==> tmp[len - 1 - k] == Decimal(n)[k]
    {
      hide Decimal, Pow10;
      len := 0;
      var rest := n;
      ghost var digits := Decimal(n);
      while rest > 0
        invariant len <= 20 && rest < Pow10(20 - len) && len <= |digits|
        invariant if rest > 0 then Decimal(rest) == digits[..|digits| - len] else len == |digits|
        invariant forall k :: |digits| - len <= k < |digits| ==> tmp[|digits| - 1 - k] == digits[k]
        decreases rest
      {
        DigitStep(rest, 20 - len, digits, |digits| - len);
        tmp[len] := 0x30 + rest % 10;
        len := len + 1;
        rest := rest / 10;
      }
    }

    /** jw_int64. */
    method Int64(v: int) returns (status: Option<Error>)
      requires Valid() && Sane() && INT64_MIN <= v <= INT64_MAX
      modifies this, buf
      ensures Valid() && Sane() && goal == old(goal) + IntText(v) && Reports(status, None)
    {
      hide Valid, Sane, Reports, IntText, Decimal, Pow10;
      IntTextIs(v);
      var magnitude: nat := if v >= 0 then v else if v == INT64_MIN then INT64_MAX + 1 else -v;
      ghost var full := goal + IntText(v);
      if v < 0 {
        status := Put(MINUS);
        assert full == goal + Decimal(magnitude);
        if status.Some? { Abandon(full, status, None); return; }
      }
      if magnitude == 0 { status := Put(0x30); return; }
      var tmp := new byte[22];
      MagnitudeBound();
      var len := Digits(magnitude, tmp);
      status := PutBackwards(tmp, len, Decimal(magnitude));
    }

    method PutBackwards(tmp: array<byte>, len: nat, ghost digits: bytes) returns (status: Option<Error>)
      requires Valid() && Sane() && tmp != buf
      requires 0 < len == |digits| <= tmp.Length && forall k :: 0 <= k < len ==> tmp[len - 1 - k] == digits[k]
      modifies this, buf
      ensures Valid() && Sane() && goal == old(goal) + digits && Reports(status, None)
    {
      hide Valid, Sane;
      ghost var full := goal + digits;
      for i := 0 to len
        invariant Valid() && Sane() && goal == old(goal) + digits[..i]
        invariant i > 0 ==> Reports(None, None)
      {
        status := Put(tmp[len - 1 - i]);
        assert digits[..i + 1] == digits[..i] + [digits[i]];
        if status.Some? {
          assert full == goal + digits[i + 1..];
          Abandon(full, status, None);
          return;
        }
      }
      assert digits[..len] == digits;
      return None;
    }

    static method ScanForDot(u: bytes) returns (hasDot: bool)
      ensures hasDot <==> HasDot(u)
    {
      for i := 0 to |u|
        invariant forall k :: 0 <= k < i ==> u[k] != DOT && u[k] != 0x65 && u[k] != 0x45
      {
        if u[i] == DOT || u[i] == 0x65 || u[i] == 0x45 { return true; }
      }
      return false;
    }

    /** jw_double; the rendering itself is foreign. */
    method WriteDouble(f: Double) returns (status: Option<Error>)
      requires Valid() && Sane()
      modifies this, buf
      ensures Valid() && Sane() && goal == old(goal) + FloatOut(f, st.pal).text
      ensures Reports(status, FloatOut(f, st.pal).error)
    {
      match st.pal.format(f)
      case None => return Some(InvalidNumber);
      case Some(u) =>
        if |u| >= 32 { return Some(Overflow); }
        var text := u;
        var hasDot := ScanForDot(u);
        if !hasDot && |u| + 2 < 32 { text := u + [DOT, 0x30]; }
        status := Puts(text);
    }

    /** The writing of a string value: quotes around its content. */
    method WriteString(s: bytes) returns (status: Option<Error>)
      requires Valid() && Sane()
      modifies this, buf
      ensures Valid() && goal == old(goal) + QuotedOut(s, st.opts.asciiOnly).text
      ensures Reports(status, QuotedOut(s, st.opts.asciiOnly).error)
      ensures QuotedOut(s, st.opts.asciiOnly).error.None? ==> Sane()
    {
      hide *;
      ghost var content := StringOut(s, 0, st.opts.asciiOnly);
      QuotedIs(s, st.opts.asciiOnly);
      status := Put(QUOTE);
      if status.Some? {
        Abandon(goal + content.text + (if content.error.None? then [QUOTE] else []), status, content.error);
        return;
      }
      status := StringContent(s);
      if status.Some? {
        if content.error.None? { Abandon(goal + [QUOTE], status, None); }
        return;
      }
      assert content.error.None? by { SuccessIsClean(status, content.error); }
      status := Put(QUOTE);
    }

    lemma SuccessIsClean(status: Option<Error>, error: Option<Error>)
      requires Reports(status, error) && status.None?
      ensures error.None?
    {}

    /** The line break before an element, and before the closing bracket; its status is ignored. */
    method NewLine(depth: nat)
      requires Valid() && Sane()
      modifies this, buf
      ensures Valid() && Sane() && goal == old(goal) + LineBreak(st, depth)
    {
      hide Valid, Sane, Spaces;
      if st.opts.pretty {
        var _ := Put(NEWLINE);
        var _ := Indent(depth);
      }
    }

    /** A key, its quotes and its colon; every status is ignored. */
    method WriteKey(key: bytes)
      requires Valid() && Sane() && ValidUtf8(key)
      modifies this, buf
      ensures Valid() && Sane() && goal == old(goal) + KeyText(key, st)
    {
      hide Valid, Sane, StringOut, ValidUtf8;
      ValidKey(key, st.opts.asciiOnly);
      var _ := Put(QUOTE);
      var _ := StringContent(key);
      var _ := Put(QUOTE);
      var _ := Put(COLON);
      if st.opts.pretty { var _ := Put(SPACE); }
    }

    /** Whether objects are being sorted: never while measuring. */
    predicate Sorting() { st.opts.sortKeys && !measureOnly }

    /** The effect of a write: the goal has grown by the text of `r`, and the status is its error. */
    ghost predicate Wrote(before: bytes, r: Out, status: Option<Error>)
      reads this, buf
    {
      Valid() && goal == before + r.text && Reports(status, r.error) && (r.error.None? ==> Sane())
    }

    /** What has been written of the items of an array before item number |done|. */
    ghost predicate AtItem(items: seq<Json>, done: seq<Json>, depth: nat, base: bytes)
      reads this, buf
    {
      var body := ItemsOut(done, st, depth + 1);
      && Valid() && Sane() && ItemsDone(items, done, Sorting()) && body.error.None?
      && goal == base + body.text + Comma(|done|, |items|)
    }

    /** The end of an array whose output stops after the items `done`. */
    ghost method StopArray(items: seq<Json>, done: seq<Json>, depth: nat, before: bytes, status: Option<Error>)
      returns (u: Json)
      requires Valid() && ItemsDone(items, done, Sorting()) && status.Some? && depth < st.maxDepth
      requires ItemsOut(done, st, depth + 1).error.None? ==> Sane()
      requires goal == before + [LBRACKET] + ItemsOut(done, st, depth + 1).text
      requires Reports(status, ItemsOut(done, st, depth + 1).error)
      modifies this`goal
      ensures Arranges(Arr(items), u, Sorting()) && Wrote(before, ValueOut(u, st, depth), status)
    {
      hide *;
      var all := FinishItems(items, done, Sorting());
      u := Arr(all);
      ItemsPrefix(done, all, st, depth + 1);
      ArrayFacts(items, all, done, st, depth, Sorting());
      var r := ValueOut(u, st, depth);
      if ItemsOut(done, st, depth + 1).error.None? {
        Abandon(before + r.text, status, r.error);
      }
      Finish(before, r, status);
    }

    lemma Finish(before: bytes, r: Out, status: Option<Error>)
      requires Valid() && goal == before + r.text && Reports(status, r.error) && (r.error.None? ==> Sane())
      ensures Wrote(before, r, status)
    {}

    /** One round of the array loop. */
    method WriteItem(items: seq<Json>, i: nat, depth: nat, ghost done: seq<Json>, ghost base: bytes)
      returns (status: Option<Error>, ghost done': seq<Json>)
      requires i == |done| < |items| && AtItem(items, done, depth, base) && Proper(items[i])
      modifies this, buf
      ensures Valid() && ItemsDone(items, done', Sorting()) && |done'| == i + 1
      ensures status.None? ==> AtItem(items, done', depth, base)
      ensures status.Some? ==>
        && goal == base + ItemsOut(done', st, depth + 1).text && Reports(status, ItemsOut(done', st, depth + 1).error)
        && (ItemsOut(done', st, depth + 1).error.None? ==> Sane())
      decreases items, 0
    {
      hide *;
      LeaveItem(items, done, depth, base);
      NewLine(depth + 1);
      ghost var u, before := Null, goal;
      status, u := WriteValue(items[i], depth + 1);
      done' := done + [u];
      ItemStep(items, done, u, st, depth + 1, Sorting());
      Written(before, ValueOut(u, st, depth + 1), status);
      if status.None? {
        if i + 1 < |items| { var _ := Put(COMMA); }
        ReachItem(items, done', depth, base);
      }
    }

    lemma Written(before: bytes, r: Out, status: Option<Error>)
      requires Wrote(before, r, status)
      ensures Valid() && goal == before + r.text && Reports(status, r.error) && (r.error.None? ==> Sane())
      ensures status.None? ==> r.error.None?
    {}

    lemma LeaveItem(items: seq<Json>, done: seq<Json>, depth: nat, base: bytes)
      requires AtItem(items, done, depth, base) && |done| < |items|
      ensures Valid() && Sane() && ItemsDone(items, done, Sorting()) && ItemsOut(done, st, depth + 1).error.None?
      ensures goal == base + ItemsOut(done, st, depth + 1).text + Sep(|done|)
    {}

    lemma ReachItem(items: seq<Json>, done: seq<Json>, depth: nat, base: bytes)
      requires Valid() && Sane() && ItemsDone(items, done, Sorting()) && ItemsOut(done, st, depth + 1).error.None?
      requires goal == base + ItemsOut(done, st, depth + 1).text + if |done| < |items| then [COMMA] else []
      requires |done| > 0
      ensures AtItem(items, done, depth, base)
    {}

    /** The array branch of json__write_value. */
    method WriteArray(items: seq<Json>, depth: nat) returns (status: Option<Error>, ghost u: Json)
      requires Valid() && Sane() && depth < st.maxDepth && forall k :: 0 <= k < |items| ==> Proper(items[k])
      modifies this, buf
      ensures Arranges(Arr(items), u, Sorting()) && Wrote(old(goal), ValueOut(u, st, depth), status)
      decreases items, 1
    {
      hide *;
      ghost var before, base := goal, goal + [LBRACKET];
      ghost var done := [];
      NoItems(items, st, depth, Sorting());
      status := Put(LBRACKET);
      if status.Some? { u := StopArray(items, done, depth, before, status); return; }
      FirstItem(items, depth, base);
      for i := 0 to |items|
        invariant |done| == i && AtItem(items, done, depth, base)
      {
        status, done := WriteItem(items, i, depth, done, base);
        if status.Some? { u := StopArray(items, done, depth, before, status); return; }
      }
      LastItem(items, done, depth, base);
      u := Arr(done);
      StartsItself(ItemsOut(done, st, depth + 1));
      ArrayFacts(items, done, done, st, depth, Sorting());
      if |items| > 0 { NewLine(depth); }
      CloseText(st, depth, |items|);
      status := Put(RBRACKET);
      Finish(before, ValueOut(u, st, depth), status);
    }

    lemma FirstItem(items: seq<Json>, depth: nat, base: bytes)
      requires Valid() && Sane() && goal == base
      ensures AtItem(items, [], depth, base)
    {}

    lemma LastItem(items: seq<Json>, done: seq<Json>, depth: nat, base: bytes)
      requires AtItem(items, done, depth, base) && |done| == |items|
      ensures Valid() && Sane() && ItemsDone(items, done, Sorting())
      ensures ItemsOut(done, st, depth + 1).error.None? && goal == base + ItemsOut(done, st, depth + 1).text
    {}

    /** What has been written of the members of an object before member number |done|. */
    ghost predicate AtPair(pairs: seq<Pair>, order: seq<nat>, done: seq<Pair>, depth: nat, base: bytes)
      reads this, buf
    {
      var body := PairsOut(done, st, depth + 1);
      && Valid() && Sane() && PairsDone(pairs, done, order, Sorting()) && body.error.None?
      && goal == base + body.text + Comma(|done|, |pairs|)
    }

    /** The end of an object whose output stops after the members `done`. */
    ghost method StopObject(pairs: seq<Pair>, order: seq<nat>, done: seq<Pair>, depth: nat, before: bytes,
                            status: Option<Error>)
      returns (u: Json)
      requires Valid() && PairsDone(pairs, done, order, Sorting()) && status.Some? && depth < st.maxDepth
      requires PairsOut(done, st, depth + 1).error.None? ==> Sane()
      requires goal == before + [LBRACE] + PairsOut(done, st, depth + 1).text
      requires Reports(status, PairsOut(done, st, depth + 1).error)
      modifies this`goal
      ensures Arranges(Obj(pairs), u, Sorting()) && Wrote(before, ValueOut(u, st, depth), status)
    {
      hide *;
      var all := FinishPairs(pairs, order, done, Sorting());
      u := Obj(all);
      PairsPrefix(done, all, st, depth + 1);
      ObjectFacts(pairs, all, order, done, st, depth, Sorting());
      var r := ValueOut(u, st, depth);
      if PairsOut(done, st, depth + 1).error.None? {
        Abandon(before + r.text, status, r.error);
      }
      Finish(before, r, status);
    }

    /** One round of the object loop. */
    method WritePair(pairs: seq<Pair>, order: seq<nat>, i: nat, depth: nat, ghost done: seq<Pair>, ghost base: bytes)
      returns (status: Option<Error>, ghost done': seq<Pair>)
      requires i == |done| < |pairs| == |order| && AtPair(pairs, order, done, depth, base)
      requires order[i] < |pairs| && ProperPair(pairs[order[i]])
      modifies this, buf
      ensures Valid() && PairsDone(pairs, done', order, Sorting()) && |done'| == i + 1
      ensures status.None? ==> AtPair(pairs, order, done', depth, base)
      ensures status.Some? ==>
        && goal == base + PairsOut(done', st, depth + 1).text && Reports(status, PairsOut(done', st, depth + 1).error)
        && (PairsOut(done', st, depth + 1).error.None? ==> Sane())
      decreases pairs, 0
    {
      hide *;
      ProperParts(pairs[order[i]]);
      LeavePair(pairs, order, done, depth, base);
      var pair := pairs[order[i]];
      NewLine(depth + 1);
      WriteKey(pair.key);
      ghost var u, before := Null, goal;
      status, u := WriteValue(pair.val, depth + 1);
      done' := done + [Pair(pair.key, u)];
      PairStep(pairs, order, done, Pair(pair.key, u), st, depth + 1, Sorting());
      Written(before, ValueOut(u, st, depth + 1), status);
      if status.None? {
        if i + 1 < |pairs| { var _ := Put(COMMA); }
        ReachPair(pairs, order, done', depth, base);
      }
    }

    lemma LeavePair(pairs: seq<Pair>, order: seq<nat>, done: seq<Pair>, depth: nat, base: bytes)
      requires AtPair(pairs, order, done, depth, base) && |done| < |pairs|
      ensures Valid() && Sane() && PairsDone(pairs, done, order, Sorting()) && PairsOut(done, st, depth + 1).error.None?
      ensures goal == base + PairsOut(done, st, depth + 1).text + Sep(|done|)
    {}

    lemma ReachPair(pairs: seq<Pair>, order: seq<nat>, done: seq<Pair>, depth: nat, base: bytes)
      requires Valid() && Sane() && PairsDone(pairs, done, order, Sorting())
        && PairsOut(done, st, depth + 1).error.None?
      requires goal == base + PairsOut(done, st, depth + 1).text + if |done| < |pairs| then [COMMA] else []
      requires |done| > 0
      ensures AtPair(pairs, order, done, depth, base)
    {}

    /** The object branch of json__write_value. */
    method WriteObject(pairs: seq<Pair>, depth: nat) returns (status: Option<Error>, ghost u: Json)
      requires Valid() && Sane() && depth < st.maxDepth && forall k :: 0 <= k < |pairs| ==> ProperPair(pairs[k])
      modifies this, buf
      ensures Arranges(Obj(pairs), u, Sorting()) && Wrote(old(goal), ValueOut(u, st, depth), status)
      decreases pairs, 1
    {
      hide *;
      ghost var before, base := goal, goal + [LBRACE];
      ghost var done := [];
      var order := OrderPairs(pairs, Sorting());
      NoPairs(pairs, order, st, depth, Sorting());
      status := Put(LBRACE);
      if status.Some? { u := StopObject(pairs, order, done, depth, before, status); return; }
      FirstPair(pairs, order, depth, base);
      for i := 0 to |pairs|
        invariant |done| == i && AtPair(pairs, order, done, depth, base)
      {
        status, done := WritePair(pairs, order, i, depth, done, base);
        if status.Some? { u := StopObject(pairs, order, done, depth, before, status); return; }
      }
      LastPair(pairs, order, done, depth, base);
      u := Obj(done);
      StartsItself(PairsOut(done, st, depth + 1));
      ObjectFacts(pairs, done, order, done, st, depth, Sorting());
      if |pairs| > 0 { NewLine(depth); }
      CloseText(st, depth, |pairs|);
      status := Put(RBRACE);
      Finish(before, ValueOut(u, st, depth), status);
    }

    lemma FirstPair(pairs: seq<Pair>, order: seq<nat>, depth: nat, base: bytes)
      requires Valid() && Sane() && goal == base && PairsDone(pairs, [], order, Sorting())
      ensures AtPair(pairs, order, [], depth, base)
    {}

    lemma LastPair(pairs: seq<Pair>, order: seq<nat>, done: seq<Pair>, depth: nat, base: bytes)
      requires AtPair(pairs, order, done, depth, base) && |done| == |pairs|
      ensures Valid() && Sane() && ArrangesBy(pairs, done, order, Sorting())
      ensures PairsOut(done, st, depth + 1).error.None? && goal == base + PairsOut(done, st, depth + 1).text
    {}

    /**
      * json__write_value. The ghost result is the value with the members of its objects in the order
      * in which they were written.
      */
    method WriteValue(t: Json, depth: nat) returns (status: Option<Error>, ghost u: Json)
      requires Valid() && Sane() && Proper(t)
      modifies this, buf
      ensures Arranges(t, u, Sorting()) && Wrote(old(goal), ValueOut(u, st, depth), status)
      decreases t, 2
    {
      hide Valid, Sane, Reports, Tracked, ItemsOut, PairsOut, QuotedOut, FloatOut, IntText, ValidUtf8;
      if depth >= st.maxDepth {
        u := Arrange(t, Sorting());
        Immediately(Some(DepthExceeded));
        return Some(DepthExceeded), u;
      }
      u := t;
      match t
      case Null => status := Puts(NULL_TEXT);
      case Bool(b) => status := Puts(if b then TRUE_TEXT else FALSE_TEXT);
      case Int(i) => status := Int64(i);
      case Float(f) => status := WriteDouble(f);
      case Str(s) => status := WriteString(s);
      case Arr(items) => status, u := WriteArray(items, depth);
      case Obj(pairs) => status, u := WriteObject(pairs, depth);
    }

    /** The value and the optional newline of json_write. */
    method WriteDocument(v: Json) returns (status: Option<Error>, ghost u: Json)
      requires Valid() && Sane() && Proper(v) && goal == []
      modifies this, buf
      ensures Arranges(v, u, Sorting()) && Valid()
      ensures goal == DocumentOut(u, st).text && Reports(status, DocumentOut(u, st).error)
    {
      hide *;
      status, u := WriteValue(v, 0);
      var r := ValueOut(u, st, 0);
      Written([], r, status);
      DocumentIs(u, st);
      if status.None? {
        if st.opts.trailingNl { status := Put(NEWLINE); }
      } else if r.error.None? && st.opts.trailingNl {
        Abandon(goal + [NEWLINE], status, None);
      }
    }

    lemma Immediately(status: Option<Error>)
      requires status.Some? && status.value == DepthExceeded
      ensures Reports(status, status)
    {}
  }

  /** The comma after `i` of `n` elements. */
  function Comma(i: nat, n: nat): bytes { if 0 < i < n then [COMMA] else [] }

  lemma NoItems(items: seq<Json>, st: Style, depth: nat, sort: bool)
    ensures ItemsOut([], st, depth + 1) == Out([], None) && ItemsDone(items, [], sort)
  {}

  /** An array stops where its items stop, or after its closing bracket. */
  lemma ArrayFacts(items: seq<Json>, all: seq<Json>, done: seq<Json>, st: Style, depth: nat, sort: bool)
    requires |all| == |items| && ItemsDone(items, all, sort) && depth < st.maxDepth
    requires Starts(ItemsOut(done, st, depth + 1), ItemsOut(all, st, depth + 1))
    ensures Arranges(Arr(items), Arr(all), sort)
    ensures var r, body := ValueOut(Arr(all), st, depth), ItemsOut(all, st, depth + 1);
      && r.error == body.error
      && r.text == [LBRACKET] + body.text
                   + (if body.error.None? then CloseBreak(st, depth, |items|) + [RBRACKET] else [])
      && [LBRACKET] + ItemsOut(done, st, depth + 1).text <= r.text
      && (ItemsOut(done, st, depth + 1).error.Some? ==> body == ItemsOut(done, st, depth + 1))
  {
    hide ItemsOut, CloseBreak;
  }

  lemma ItemStep(items: seq<Json>, done: seq<Json>, u: Json, st: Style, depth: nat, sort: bool)
    requires ItemsDone(items, done, sort) && |done| < |items| && Arranges(items[|done|], u, sort)
    requires ItemsOut(done, st, depth).error.None?
    ensures ItemsDone(items, done + [u], sort)
    ensures var v := ValueOut(u, st, depth);
      ItemsOut(done + [u], st, depth)
      == Out(ItemsOut(done, st, depth).text + Sep(|done|) + LineBreak(st, depth) + v.text, v.error)
  {
    hide LineBreak, Sep, ValueOut, Arranges;
    ItemsSnoc(done, u, st, depth);
    var a, b, c, d := ItemsOut(done, st, depth).text, Sep(|done|), LineBreak(st, depth), ValueOut(u, st, depth).text;
    assert a + ((b + c) + d) == a + b + c + d;
  }

  lemma ProperParts(p: Pair)
    requires ProperPair(p)
    ensures ValidUtf8(p.key) && Proper(p.val)
  {}

  lemma PairStep(pairs: seq<Pair>, order: seq<nat>, done: seq<Pair>, p: Pair, st: Style, depth: nat, sort: bool)
    requires PairsDone(pairs, done, order, sort) && |done| < |pairs| == |order| && order[|done|] < |pairs|
    requires p.key == pairs[order[|done|]].key && Arranges(pairs[order[|done|]].val, p.val, sort)
    requires PairsOut(done, st, depth).error.None?
    ensures PairsDone(pairs, done + [p], order, sort)
    ensures var v := ValueOut(p.val, st, depth);
      PairsOut(done + [p], st, depth)
      == Out(PairsOut(done, st, depth).text + Sep(|done|) + LineBreak(st, depth) + KeyText(p.key, st) + v.text, v.error)
  {
    hide LineBreak, Sep, ValueOut, Arranges, KeyText, WriteOrder;
    PairsSnoc(done, p, st, depth);
    var a, b, c, d, e := PairsOut(done, st, depth).text, Sep(|done|), LineBreak(st, depth), KeyText(p.key, st),
      ValueOut(p.val, st, depth).text;
    assert a + ((b + c + d) + e) == a + b + c + d + e;
  }

  lemma NoPairs(pairs: seq<Pair>, order: seq<nat>, st: Style, depth: nat, sort: bool)
    requires WriteOrder(pairs, order, sort)
    ensures PairsOut([], st, depth + 1) == Out([], None) && PairsDone(pairs, [], order, sort)
    ensures |order| == |pairs| && forall k :: 0 <= k < |order| ==> order[k] < |pairs|
  {}

  lemma ObjectFacts(pairs: seq<Pair>, all: seq<Pair>, order: seq<nat>, done: seq<Pair>, st: Style, depth: nat,
    sort: bool)
    requires ArrangesBy(pairs, all, order, sort) && depth < st.maxDepth
    requires Starts(PairsOut(done, st, depth + 1), PairsOut(all, st, depth + 1))
    ensures Arranges(Obj(pairs), Obj(all), sort)
    ensures var r, body := ValueOut(Obj(all), st, depth), PairsOut(all, st, depth + 1);
      && r.error == body.error
      && r.text == [LBRACE] + body.text + (if body.error.None? then CloseBreak(st, depth, |pairs|) + [RBRACE] else [])
      && [LBRACE] + PairsOut(done, st, depth + 1).text <= r.text
      && (PairsOut(done, st, depth + 1).error.Some? ==> body == PairsOut(done, st, depth + 1))
  {
    hide PairsOut, CloseBreak, WriteOrder, ArrangedPair;
  }

  /** The index array that json__write_value sorts; without sorting, or for one pair, the order is the stored one. */
  method OrderPairs(pairs: seq<Pair>, sort: bool) returns (order: seq<nat>)
    ensures WriteOrder(pairs, order, sort)
    ensures sort ==> forall x, y :: 0 <= x < y < |order| ==> !Before(pairs[order[y]].key, pairs[order[x]].key)
  {
    hide Permuted, Sorted;
    var n := |pairs|;
    var a := new nat[n](i => i);
    if sort && n > 1 {
      ghost var start := a[..];
      ghost var _, _ := SortIndices(LexCtx(pairs), INTROSORT_THRESH, a, n);
      PermutedIdentity(start, a[..], n, LexCtx(pairs));
      order := a[..];
      assert a[..n] == order;
    } else {
      order := a[..];
      assert order == Identity(n);
      Trivial(LexCtx(pairs), order);
    }
    InRange(order, n);
    if sort { SortedByPlaces(pairs, order); }
  }

  lemma Trivial(ctx: Ctx, order: seq<nat>)
    ensures |order| <= 1 ==> Sorted(ctx, order, 0, |order|)
  {}

  lemma DocumentIs(t: Json, st: Style)
    ensures var r := ValueOut(t, st, 0);
      DocumentOut(t, st) == Out(r.text + (if st.opts.trailingNl && r.error.None? then [NEWLINE] else []), r.error)
  {}

  lemma CloseText(st: Style, depth: nat, n: nat)
    ensures CloseBreak(st, depth, n) == if n > 0 then LineBreak(st, depth) else []
  {}

  lemma QuotedIs(s: bytes, ascii: bool)
    ensures var c := StringOut(s, 0, ascii);
      QuotedOut(s, ascii) == Out([QUOTE] + c.text + (if c.error.None? then [QUOTE] else []), c.error)
  {}

  lemma ValidKey(key: bytes, ascii: bool)
    requires ValidUtf8(key)
    ensures StringOut(key, 0, ascii).error.None?
  {
    ValidContent(key, 0, ascii);
  }

  /** The last of the first `m` digits, and the room that the others take. */
  lemma DigitStep(n: nat, room: nat, digits: bytes, m: nat)
    requires 0 < n < Pow10(room) && m <= |digits| && Decimal(n) == digits[..m]
    ensures room > 0 && n / 10 < Pow10(room - 1)
    ensures m > 0 && digits[m - 1] == 0x30 + n % 10
    ensures if n / 10 > 0 then Decimal(n / 10) == digits[..m - 1] else m == 1
  {
    assert Decimal(n) == (if n / 10 > 0 then Decimal(n / 10) else []) + [0x30 + n % 10];
    assert digits[..m][m - 1] == 0x30 + n % 10;
    assert digits[..m - 1] == digits[..m][..m - 1];
  }

  lemma IntTextIs(v: int)
    ensures IntText(v) == if v < 0 then [MINUS] + Decimal(-v) else Decimal(v)
    ensures Decimal(0) == [0x30]
  {}

  lemma MagnitudeBound()
    ensures INT64_MAX + 1 < Pow10(20)
  {
    assert Pow10(10) == 10000000000;
    assert Pow10(20) == 10 * (10 * (10 * (10 * (10 * (10 * (10 * (10 * (10 * (10 * Pow10(10))))))))));
  }

  lemma WideText(cp: scalar)
    requires cp >= 0x80
    ensures |Encode(cp)| <= PTRDIFF_MAX && CharOut(cp, false) == Encode(cp)
    ensures cp <= 0xFFFF ==> CharOut(cp, true) == U16Text(cp)
    ensures cp > 0xFFFF ==>
      CharOut(cp, true) == U16Text(0xD800 + (cp - 0x1_0000) / 1024) + U16Text(0xDC00 + (cp - 0x1_0000) % 1024)
  {}

  lemma StringStep(s: bytes, i: nat, ascii: bool)
    requires i < |s|
    ensures s[i] < 0x80 ==> DecodeAt(s, i) == Some(Decoded(s[i], 1)) && CharOut(s[i], ascii) == AsciiText(s[i])
    ensures s[i] >= 0x80 && DecodeAt(s, i).Some? ==> DecodeAt(s, i).value.cp >= 0x80
    ensures var r := StringOut(s, i, ascii);
      match DecodeAt(s, i)
      case None => r == Out([], Some(InvalidUtf8))
      case Some(d) =>
        && 0 < d.count && i + d.count <= |s|
        && var rest := StringOut(s, i + d.count, ascii);
           r == Out(CharOut(d.cp, ascii) + rest.text, rest.error)
  {
  }

  lemma StringEnds(s: bytes, ascii: bool)
    ensures StringOut(s, |s|, ascii) == Out([], None)
  {}

  /** Every complete output of a value has at least one byte. */
  lemma NotEmpty(t: Json, st: Style, depth: nat)
    ensures ValueOut(t, st, depth).error.None? ==> ValueOut(t, st, depth).text != []
  {}

  /** The room that json_write has: all but the last byte of the buffer, or all of memory when it measures. */
  function RoomOf(buf: array?<byte>): nat {
    if buf == null then SIZE_MAX else if buf.Length == 0 then 0 else buf.Length - 1
  }

  /**
    * json_write, into a buffer of `size` bytes, or measuring when `buf` is null. An output that fits is
    * written whole and closed with a NUL; otherwise compact output stops when the buffer is full.
    */
  method Write(v: Json, buf: array?<byte>, size: nat, st: Style)
    returns (status: Option<Error>, written: nat, ghost u: Json)
    requires Proper(v) && (buf != null ==> size == buf.Length <= PTRDIFF_MAX)
    modifies if buf != null then {buf} else {}
    ensures buf == null && size > 0 ==> status == Some(NullParam)
    ensures buf != null || size == 0 ==> Arranges(v, u, st.opts.sortKeys && buf != null)
    ensures var r := DocumentOut(u, st); (buf != null || size == 0) && |r.text| <= RoomOf(buf) ==>
      && status == r.error && written == |r.text|
      && (buf != null ==> buf[..written] == r.text && (status.None? ==> buf[written] == 0))
    ensures var r := DocumentOut(u, st); buf != null && !st.opts.pretty && |r.text| > RoomOf(buf) ==>
      && status.Some? && (r.error.None? ==> status == Some(BufferTooSmall))
      && written == RoomOf(buf) && buf[..written] == r.text[..written]
  {
    hide ValueOut, DocumentOut, Arranges, Proper;
    u := v;
    if buf == null && size > 0 { return Some(NullParam), 0, v; }
    var target: array<byte>;
    if buf == null { target := new byte[0]; } else { target := buf; }
    var w := new JsonWriter(target, size, buf == null, st);
    status, u := w.WriteDocument(v);
    NotEmpty(u, st, 0);
    DocumentIs(u, st);
    if status.None? && !w.measureOnly {
      if w.used < size { target[w.used] := 0; } else { status := Some(BufferTooSmall); }
    }
    written := w.used;
  }
}
