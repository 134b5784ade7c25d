/** The language that json_parse accepts, as a recursive-descent parser with the same limits and errors. */
module ParserSpec {
  import opened Base
  import opened Tree
  import opened StringLex
  import opened Numbers

  predicate IsWs(b: byte) { b == 0x20 || b == 0x0A || b == 0x0D || b == 0x09 }

  /** Position of the first byte at or after s[i] that is not whitespace. */
  function SkipWs(s: bytes, i: nat): (e: nat)
    requires i <= |s|
    ensures i <= e <= |s|
    ensures e == |s| || !IsWs(s[e])
    decreases |s| - i
  {
    if i < |s| && IsWs(s[i]) then SkipWs(s, i + 1) else i
  }

  /** What stays fixed during a parse. */
  datatype Env = Env(src: bytes, l: Limits, pal: Pal)

  /** A parsed value, the position after it and the number of nodes allocated so far. */
  datatype Parsed = Parsed(value: Json, next: nat, nodes: nat)

  const ULL: bytes := [0x75, 0x6C, 0x6C]
  const RUE: bytes := [0x72, 0x75, 0x65]
  const ALSE: bytes := [0x61, 0x6C, 0x73, 0x65]

  /** The rest of a literal name at s[i..]. */
  function KeywordAt(s: bytes, i: nat, rest: bytes, value: Json, n: nat): (r: Result<Parsed>)
    ensures r.Ok? ==> i <= r.value.next <= |s| && r.value.nodes == n
  {
    if At(s, i, rest) then Ok(Parsed(value, i + |rest|, n)) else Err(InvalidJson)
  }

  /** A value at or after s[pos]; `depth` is the number of enclosing containers plus one. */
  function ParseValue(e: Env, pos: nat, depth: nat, n: nat): (r: Result<Parsed>)
    requires pos <= |e.src|
    ensures r.Ok? ==> pos < r.value.next <= |e.src|
    decreases |e.src| - pos, 0
  {
    var s, p := e.src, SkipWs(e.src, pos);
    if p == |s| then Err(UnexpectedEof)
    else if n >= e.l.nodes then Err(NodeLimit)
    else
      var c := s[p];
      if c == 0x6E then KeywordAt(s, p + 1, ULL, Null, n + 1)
      else if c == 0x74 then KeywordAt(s, p + 1, RUE, Bool(true), n + 1)
      else if c == 0x66 then KeywordAt(s, p + 1, ALSE, Bool(false), n + 1)
      else if c == QUOTE then
        match StringAt(s, p + 1, e.l.stringLen)
        case Err(x) => Err(x)
        case Ok(lit) => Ok(Parsed(Str(lit.value), lit.next, n + 1))
      else if c == MINUS || IsDigit(c) then
        match NumberAt(s, p, e.pal)
        case Err(x) => Err(x)
        case Ok(num) => Ok(Parsed(num.value, num.next, n + 1))
      else if c == LBRACKET then
        if depth >= e.l.depth then Err(DepthExceeded)
        else
          var q := SkipWs(s, p + 1);
          if q < |s| && s[q] == RBRACKET then Ok(Parsed(Arr([]), q + 1, n + 1))
          else ParseItem(e, q, depth, n + 1, [])
      else if c == LBRACE then
        if depth >= e.l.depth then Err(DepthExceeded)
        else
          var q := SkipWs(s, p + 1);
          if q < |s| && s[q] == RBRACE then Ok(Parsed(Obj([]), q + 1, n + 1))
          else ParseKey(e, q, depth, n + 1, [])
      else Err(InvalidJson)
  }

  /** The next item of an array that already has `items`. */
  function ParseItem(e: Env, pos: nat, depth: nat, n: nat, items: seq<Json>): (r: Result<Parsed>)
    requires pos <= |e.src|
    ensures r.Ok? ==> pos < r.value.next <= |e.src|
    decreases |e.src| - pos, 1
  {
    match ParseValue(e, pos, depth + 1, n)
    case Err(x) => Err(x)
    case Ok(v) =>
      if |items| >= e.l.arrayLen then Err(Overflow)
      else ArrayCont(e, v.next, depth, v.nodes, items + [v.value])
  }

  /** After an array item: a comma or the closing bracket. */
  function ArrayCont(e: Env, pos: nat, depth: nat, n: nat, items: seq<Json>): (r: Result<Parsed>)
    requires pos <= |e.src|
    ensures r.Ok? ==> pos < r.value.next <= |e.src|
    decreases |e.src| - pos, 0
  {
    var s, p := e.src, SkipWs(e.src, pos);
    if p == |s| then Err(UnexpectedEof)
    else if s[p] == RBRACKET then Ok(Parsed(Arr(items), p + 1, n))
    else if s[p] == COMMA then
      if depth >= e.l.depth then Err(DepthExceeded) else ParseItem(e, p + 1, depth, n, items)
    else Err(InvalidJson)
  }

  /** The key of the next member of an object that already has `pairs`. */
  function ParseKey(e: Env, pos: nat, depth: nat, n: nat, pairs: seq<Pair>): (r: Result<Parsed>)
    requires pos <= |e.src|
    ensures r.Ok? ==> pos < r.value.next <= |e.src|
    decreases |e.src| - pos, 0
  {
    var s, p := e.src, SkipWs(e.src, pos);
    if p == |s| then Err(UnexpectedEof)
    else if s[p] != QUOTE then Err(InvalidJson)
    else match StringAt(s, p + 1, e.l.stringLen)
      case Err(x) => Err(x)
      case Ok(lit) => ParseColon(e, lit.next, depth, n, pairs, lit.value)
  }

  function ParseColon(e: Env, pos: nat, depth: nat, n: nat, pairs: seq<Pair>, key: bytes): (r: Result<Parsed>)
    requires pos <= |e.src|
    ensures r.Ok? ==> pos < r.value.next <= |e.src|
    decreases |e.src| - pos, 0
  {
    var s, p := e.src, SkipWs(e.src, pos);
    if p == |s| then Err(UnexpectedEof)
    else if s[p] != COLON then Err(InvalidJson)
    else if depth >= e.l.depth then Err(DepthExceeded)
    else ParseMember(e, p + 1, depth, n, pairs, key)
  }

  /** The value of the member whose key has been read. */
  function ParseMember(e: Env, pos: nat, depth: nat, n: nat, pairs: seq<Pair>, key: bytes): (r: Result<Parsed>)
    requires pos <= |e.src|
    ensures r.Ok? ==> pos < r.value.next <= |e.src|
    decreases |e.src| - pos, 1
  {
    match ParseValue(e, pos, depth + 1, n)
    case Err(x) => Err(x)
    case Ok(v) =>
      if |pairs| >= e.l.arrayLen then Err(Overflow)
      else ObjectCont(e, v.next, depth, v.nodes, pairs + [Pair(key, v.value)])
  }

  /** After a member: a comma or the closing brace. */
  function ObjectCont(e: Env, pos: nat, depth: nat, n: nat, pairs: seq<Pair>): (r: Result<Parsed>)
    requires pos <= |e.src|
    ensures r.Ok? ==> pos < r.value.next <= |e.src|
    decreases |e.src| - pos, 0
  {
    var s, p := e.src, SkipWs(e.src, pos);
    if p == |s| then Err(UnexpectedEof)
    else if s[p] == RBRACE then Ok(Parsed(Obj(pairs), p + 1, n))
    else if s[p] == COMMA then ParseKey(e, p + 1, depth, n, pairs)
    else Err(InvalidJson)
  }

  /** A whole text, parsed when `n` nodes are already allocated. */
  function ParseDocument(e: Env, n: nat): Result<Parsed> {
    match ParseValue(e, 0, 1, n)
    case Err(x) => Err(x)
    case Ok(v) => if SkipWs(e.src, v.next) < |e.src| then Err(InvalidJson) else Ok(v)
  }
}
