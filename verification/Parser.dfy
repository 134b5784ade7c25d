/** json_parse: the loop over an explicit stack of frames, proved to compute ParseDocument. */
module Parser {
  import opened Base
  import opened Tree
  import opened StringLex
  import opened Numbers
  import opened ParserSpec

  /** ParseState. */
  datatype State = ValueState | ArrItem | ArrContState | ObjKey | ObjColon | ObjVal | ObjContState

  /** ParseFrame: the container under construction, its capacity, and the key waiting for its value. */
  datatype Frame = Frame(state: State, container: Json, cap: nat, key: bytes)

  /** What one turn of the loop leads to. */
  datatype Outcome = Continue | Done(root: Json) | Fail(error: Error)

  /** A frame below the top: a container that waits for the value being parsed above it. */
  ghost predicate Waiting(f: Frame, l: Limits) {
    || (f.state == ArrItem && f.container.Arr? && |f.container.items| <= f.cap <= l.arrayLen)
    || (f.state == ObjVal && f.container.Obj? && |f.container.pairs| <= f.cap <= l.arrayLen)
  }

  /** The top frame: a value to come, or a container between two of its tokens. */
  ghost predicate Active(f: Frame, l: Limits) {
    || f.state == ValueState
    || (f.state == ArrContState && f.container.Arr? && |f.container.items| <= f.cap <= l.arrayLen)
    || (f.state in {ObjKey, ObjColon, ObjContState} && f.container.Obj? && |f.container.pairs| <= f.cap <= l.arrayLen)
  }

  /** Configurations under which the 32-bit counters of the source cannot wrap. */
  ghost predicate ValidLimits(l: Limits) {
    1 <= l.depth && l.arrayLen <= 0x8000_0000 && l.stringLen <= UINT32_MAX
  }

  // ---------- the stack as a continuation ----------

  /** What the whole parse returns once the value above `frames` has been parsed to `r`. */
  ghost function Deliver(e: Env, frames: seq<Frame>, r: Result<Parsed>): Result<Parsed>
    requires r.Ok? ==> r.value.next <= |e.src|
    decreases |frames|
  {
    if r.Err? || frames == [] then r
    else
      var d := |frames|;
      var f, below, v := frames[d - 1], frames[..d - 1], r.value;
      match f.state
      case ArrItem =>
        if !f.container.Arr? then Err(InvalidJson)
        else if |f.container.items| >= e.l.arrayLen then Err(Overflow)
        else Deliver(e, below, ArrayCont(e, v.next, d, v.nodes, f.container.items + [v.value]))
      case ObjVal =>
        if !f.container.Obj? then Err(InvalidJson)
        else if |f.container.pairs| >= e.l.arrayLen then Err(Overflow)
        else Deliver(e, below, ObjectCont(e, v.next, d, v.nodes, f.container.pairs + [Pair(f.key, v.value)]))
      case _ => Err(InvalidJson)
  }

  /** What the recursive parser still has to do for the top frame. */
  ghost function Pending(e: Env, f: Frame, d: nat, pos: nat, n: nat): (r: Result<Parsed>)
    requires pos <= |e.src|
    ensures r.Ok? ==> r.value.next <= |e.src|
  {
    match f.state
    case ValueState => ParseValue(e, pos, d, n)
    case ArrContState => if f.container.Arr? then ArrayCont(e, pos, d, n, f.container.items) else Err(InvalidJson)
    case ObjKey => if f.container.Obj? then ParseKey(e, pos, d, n, f.container.pairs) else Err(InvalidJson)
    case ObjColon => if f.container.Obj? then ParseColon(e, pos, d, n, f.container.pairs, f.key) else Err(InvalidJson)
    case ObjContState => if f.container.Obj? then ObjectCont(e, pos, d, n, f.container.pairs) else Err(InvalidJson)
    case _ => Err(InvalidJson)
  }

  /** What the whole parse returns from this stack, position and node count. */
  ghost function Resume(e: Env, below: seq<Frame>, top: Frame, pos: nat, n: nat): Result<Parsed>
    requires pos <= |e.src|
  {
    Deliver(e, below, Pending(e, top, |below| + 1, pos, n))
  }

  lemma DeliverErr(e: Env, frames: seq<Frame>, x: Error)
    ensures Deliver(e, frames, Err(x)) == Err(x)
  {}

  /** json__arr_grow and json__obj_grow: the next capacity, with the 32-bit multiplication. */
  method GrowCap(cap: nat, limit: nat) returns (r: Result<nat>)
    requires cap <= limit <= 0x8000_0000
    ensures cap == limit ==> r == Err(Overflow)
    ensures cap < limit ==> r.Ok? && cap < r.value <= limit
    ensures r.Ok? ==> r.value == limit || r.value == if cap == 0 then 8 else 2 * cap
  {
    var newCap := if cap == 0 then 8 else cap * 2 % 0x1_0000_0000;
    if newCap < cap { return Err(Overflow); }
    if cap >= limit { return Err(Overflow); }
    if newCap > limit { newCap := limit; }
    return Ok(newCap);
  }

  /** The waiting frame after its container has received a value, growing the table when it is full. */
  method AddTo(parent: Frame, result: Json, l: Limits) returns (r: Result<Frame>)
    requires Waiting(parent, l) && ValidLimits(l)
    ensures r.Err? ==> r.error == Overflow
    ensures parent.state == ArrItem ==> (r.Err? <==> |parent.container.items| >= l.arrayLen)
    ensures parent.state == ObjVal ==> (r.Err? <==> |parent.container.pairs| >= l.arrayLen)
    ensures r.Ok? ==> Active(r.value, l) && r.value.key == parent.key
    ensures r.Ok? && parent.state == ArrItem ==>
      r.value.state == ArrContState && r.value.container == Arr(parent.container.items + [result])
    ensures r.Ok? && parent.state == ObjVal ==>
      r.value.state == ObjContState && r.value.container == Obj(parent.container.pairs + [Pair(parent.key, result)])
  {
    var cap := parent.cap;
    if parent.state == ArrItem || parent.state == ArrContState {
      if |parent.container.items| >= cap {
        var g := GrowCap(cap, l.arrayLen);
        if g.Err? { return Err(g.error); }
        cap := g.value;
      }
      return Ok(Frame(ArrContState, Arr(parent.container.items + [result]), cap, parent.key));
    } else if parent.state == ObjVal {
      if |parent.container.pairs| >= cap {
        var g := GrowCap(cap, l.arrayLen);
        if g.Err? { return Err(g.error); }
        cap := g.value;
      }
      return Ok(Frame(ObjContState, Obj(parent.container.pairs + [Pair(parent.key, result)]), cap, parent.key));
    } else {
      assert false;
    }
  }

  /** json__lex_skip_ws. */
  method SkipWhitespace(s: bytes, start: nat) returns (p: nat)
    requires start <= |s|
    ensures p == SkipWs(s, start)
  {
    p := start;
    while p < |s| && IsWs(s[p])
      invariant start <= p <= |s| && SkipWs(s, p) == SkipWs(s, start)
    {
      p := p + 1;
    }
  }

  /** LEX_EXPECT_LITERAL. */
  method ExpectKeyword(s: bytes, p: nat, rest: bytes) returns (ok: bool)
    requires p <= |s|
    ensures ok == At(s, p, rest)
  {
    if p + |rest| > |s| { return false; }
    for k := 0 to |rest|
      invariant forall j :: 0 <= j < k ==> rest[j] == s[p + j]
    {
      if s[p + k] != rest[k] { return false; }
    }
    return true;
  }

  class Machine {
    const env: Env
    const stack: array<Frame>
    var depth: nat
    var pos: nat
    var nodes: nat

    ghost predicate Valid()
      reads this, stack
    {
      && ValidLimits(env.l) && stack.Length == env.l.depth && depth <= stack.Length
      && pos <= |env.src| && 1 <= depth
      && (forall k :: 0 <= k < depth - 1 ==> Waiting(stack[k], env.l))
      && Active(stack[depth - 1], env.l)
      && (stack[depth - 1].state != ValueState ==> depth < env.l.depth)
    }

    ghost function Rest(): Result<Parsed>
      requires Valid()
      reads this, stack
    {
      Resume(env, stack[..depth - 1], stack[depth - 1], pos, nodes)
    }

    constructor (env: Env, nodes: nat)
      requires ValidLimits(env.l)
      ensures Valid() && fresh(stack) && this.env == env
      ensures depth == 1 && pos == 0 && this.nodes == nodes
      ensures Rest() == ParseValue(env, 0, 1, nodes)
    {
      this.env := env;
      stack := new Frame[env.l.depth](_ => Frame(ValueState, Null, 0, []));
      depth, pos, this.nodes := 1, 0, nodes;
      new;
    }

    /** deliver_to_parent: hands a finished value to the frame below the top. */
    method DeliverToParent(result: Json) returns (o: Outcome)
      requires Valid()
      modifies this, stack
      ensures o.Continue? ==> Valid() && pos == old(pos)
      ensures o.Continue? ==> Rest() == old(Deliver(env, stack[..depth - 1], Ok(Parsed(result, pos, nodes))))
      ensures o.Done? ==> pos == old(pos) && nodes == old(nodes)
      ensures o.Done? ==>
        old(Deliver(env, stack[..depth - 1], Ok(Parsed(result, pos, nodes)))) == Ok(Parsed(o.root, pos, nodes))
      ensures o.Fail? ==> old(Deliver(env, stack[..depth - 1], Ok(Parsed(result, pos, nodes)))) == Err(o.error)
    {
      hide ArrayCont, ObjectCont, ParseValue, ParseKey, ParseColon, ParseItem, ParseMember, ParseDocument, SkipWs;
      if depth == 1 { return Done(result); }
      ghost var frames := stack[..depth - 1];
      depth := depth - 1;
      assert frames[..depth - 1] == stack[..depth - 1];
      var r := AddTo(stack[depth - 1], result, env.l);
      if r.Err? { return Fail(r.error); }
      stack[depth - 1] := r.value;
      assert stack[..depth - 1] == frames[..depth - 1];
      return Continue;
    }

    /** The top frame waits for a value or a token, and the next byte is not whitespace. */
    ghost predicate Facing(state: State)
      reads this, stack
    {
      Valid() && stack[depth - 1].state == state && pos < |env.src| && SkipWs(env.src, pos) == pos
    }

    /** A step keeps the invariant, makes progress, and does not change what the parse will return. */
    twostate predicate Stepped(o: Outcome)
      requires old(Valid())
      reads this, stack
    {
      && (o.Continue? ==> Valid() && pos > old(pos) && Rest() == old(Rest()))
      && (o.Done? ==> old(Rest()) == Ok(Parsed(o.root, pos, nodes)) && pos <= |env.src|)
      && (o.Fail? ==> old(Rest()) == Err(o.error))
    }

    /** PS_ARR_CONT. */
    method StepArrayCont() returns (o: Outcome)
      requires Facing(ArrContState)
      modifies this, stack
      ensures Stepped(o)
    {
      hide ParseItem, ParseValue, ObjectCont, ParseKey, ParseColon, Deliver;
      if Pending(env, stack[depth - 1], depth, pos, nodes).Err? {
        DeliverErr(env, stack[..depth - 1], Pending(env, stack[depth - 1], depth, pos, nodes).error);
      }
      var c, frame := env.src[pos], stack[depth - 1];
      if c == RBRACKET {
        pos := pos + 1;
        o := DeliverToParent(frame.container);
      } else if c == COMMA {
        pos := pos + 1;
        ghost var below := stack[..depth - 1];
        var waiting := frame.(state := ArrItem);
        PushItem(env, below, waiting, pos, nodes);
        stack[depth - 1] := waiting;
        Push();
        assert stack[..depth - 1] == below + [waiting];
        o := Continue;
      } else {
        o := Fail(InvalidJson);
      }
    }

    /** PS_OBJ_KEY. */
    method StepKey() returns (o: Outcome)
      requires Facing(ObjKey)
      modifies this, stack
      ensures Stepped(o)
    {
      hide ParseItem, ParseValue, ArrayCont, ObjectCont, ParseColon, StringAt, Deliver;
      if Pending(env, stack[depth - 1], depth, pos, nodes).Err? {
        DeliverErr(env, stack[..depth - 1], Pending(env, stack[depth - 1], depth, pos, nodes).error);
      }
      if env.src[pos] != QUOTE { return Fail(InvalidJson); }
      var lit, hash := ParseString(env.src, pos + 1, env.l.stringLen);
      if lit.Err? { return Fail(lit.error); }
      pos := lit.value.next;
      ghost var below := stack[..depth - 1];
      stack[depth - 1] := stack[depth - 1].(key := lit.value.value, state := ObjColon);
      assert stack[..depth - 1] == below;
      o := Continue;
    }

    /** PS_OBJ_COLON. */
    method StepColon() returns (o: Outcome)
      requires Facing(ObjColon)
      modifies this, stack
      ensures Stepped(o)
    {
      hide ParseItem, ParseValue, ArrayCont, ObjectCont, ParseKey, ParseMember, Deliver;
      if Pending(env, stack[depth - 1], depth, pos, nodes).Err? {
        DeliverErr(env, stack[..depth - 1], Pending(env, stack[depth - 1], depth, pos, nodes).error);
      }
      if env.src[pos] != COLON { return Fail(InvalidJson); }
      pos := pos + 1;
      ghost var below := stack[..depth - 1];
      var waiting := stack[depth - 1].(state := ObjVal);
      PushMember(env, below, waiting, pos, nodes);
      stack[depth - 1] := waiting;
      Push();
      assert stack[..depth - 1] == below + [waiting];
      o := Continue;
    }

    /** PS_OBJ_CONT. */
    method StepObjectCont() returns (o: Outcome)
      requires Facing(ObjContState)
      modifies this, stack
      ensures Stepped(o)
    {
      hide ParseItem, ParseValue, ArrayCont, ParseKey, ParseColon, Deliver;
      if Pending(env, stack[depth - 1], depth, pos, nodes).Err? {
        DeliverErr(env, stack[..depth - 1], Pending(env, stack[depth - 1], depth, pos, nodes).error);
      }
      var c, frame := env.src[pos], stack[depth - 1];
      if c == RBRACE {
        pos := pos + 1;
        o := DeliverToParent(frame.container);
      } else if c == COMMA {
        pos := pos + 1;
        ghost var below := stack[..depth - 1];
        stack[depth - 1] := frame.(state := ObjKey);
        assert stack[..depth - 1] == below;
        o := Continue;
      } else {
        o := Fail(InvalidJson);
      }
    }

    /** The scalar arms of PS_VALUE: the value at `pos` and the position after it. */
    method Scalar() returns (r: Result<(Json, nat)>)
      requires Facing(ValueState) && nodes < env.l.nodes
      requires env.src[pos] != LBRACKET && env.src[pos] != LBRACE
      ensures r.Ok? ==> pos < r.value.1 <= |env.src|
      ensures ParseValue(env, pos, depth, nodes) ==
        match r
        case Err(x) => Err(x)
        case Ok(v) => Ok(Parsed(v.0, v.1, nodes + 1))
    {
      hide ParseItem, ParseKey, StringAt, NumberAt;
      var s, c := env.src, env.src[pos];
      if c == 0x6E {
        var ok := ExpectKeyword(s, pos + 1, ULL);
        r := if ok then Ok((Null, pos + 4)) else Err(InvalidJson);
      } else if c == 0x74 {
        var ok := ExpectKeyword(s, pos + 1, RUE);
        r := if ok then Ok((Bool(true), pos + 4)) else Err(InvalidJson);
      } else if c == 0x66 {
        var ok := ExpectKeyword(s, pos + 1, ALSE);
        r := if ok then Ok((Bool(false), pos + 5)) else Err(InvalidJson);
      } else if c == QUOTE {
        var lit, hash := ParseString(s, pos + 1, env.l.stringLen);
        r := if lit.Err? then Err(lit.error) else Ok((Str(lit.value.value), lit.value.next));
      } else if c == MINUS || IsDigit(c) {
        var num := ParseNumber(s, pos, env.pal);
        r := if num.Err? then Err(num.error) else Ok((num.value.value, num.value.next));
      } else {
        r := Err(InvalidJson);
      }
    }

    /** The '[' arm of PS_VALUE, after its node has been allocated. */
    method OpenArray() returns (o: Outcome)
      requires Facing(ValueState) && env.src[pos] == LBRACKET
      requires 0 < nodes <= env.l.nodes
      modifies this, stack
      ensures o.Continue? ==> Valid() && pos > old(pos)
      ensures o.Continue? ==> Rest() == old(Resume(env, stack[..depth - 1], stack[depth - 1], pos, nodes - 1))
      ensures o.Done? ==>
        old(Resume(env, stack[..depth - 1], stack[depth - 1], pos, nodes - 1)) == Ok(Parsed(o.root, pos, nodes))
        && pos <= |env.src|
      ensures o.Fail? ==> old(Resume(env, stack[..depth - 1], stack[depth - 1], pos, nodes - 1)) == Err(o.error)
    {
      hide ParseItem, ArrayCont, ObjectCont, ParseKey, ParseColon, Deliver;
      DeliverErr(env, stack[..depth - 1], DepthExceeded);
      pos := pos + 1;
      if depth >= env.l.depth { return Fail(DepthExceeded); }
      ghost var below := stack[..depth - 1];
      pos := SkipWhitespace(env.src, pos);
      if pos < |env.src| && env.src[pos] == RBRACKET {
        pos := pos + 1;
        o := DeliverToParent(Arr([]));
        return;
      }
      var waiting := Frame(ArrItem, Arr([]), 0, []);
      PushItem(env, below, waiting, pos, nodes);
      stack[depth - 1] := waiting;
      Push();
      assert stack[..depth - 1] == below + [waiting];
      o := Continue;
    }

    /** The '{' arm of PS_VALUE, after its node has been allocated. */
    method OpenObject() returns (o: Outcome)
      requires Facing(ValueState) && env.src[pos] == LBRACE
      requires 0 < nodes <= env.l.nodes
      modifies this, stack
      ensures o.Continue? ==> Valid() && pos > old(pos)
      ensures o.Continue? ==> Rest() == old(Resume(env, stack[..depth - 1], stack[depth - 1], pos, nodes - 1))
      ensures o.Done? ==>
        old(Resume(env, stack[..depth - 1], stack[depth - 1], pos, nodes - 1)) == Ok(Parsed(o.root, pos, nodes))
        && pos <= |env.src|
      ensures o.Fail? ==> old(Resume(env, stack[..depth - 1], stack[depth - 1], pos, nodes - 1)) == Err(o.error)
    {
      hide ParseItem, ArrayCont, ObjectCont, ParseKey, ParseColon, Deliver;
      DeliverErr(env, stack[..depth - 1], DepthExceeded);
      pos := pos + 1;
      if depth >= env.l.depth { return Fail(DepthExceeded); }
      ghost var below := stack[..depth - 1];
      pos := SkipWhitespace(env.src, pos);
      if pos < |env.src| && env.src[pos] == RBRACE {
        pos := pos + 1;
        o := DeliverToParent(Obj([]));
        return;
      }
      stack[depth - 1] := Frame(ObjKey, Obj([]), 0, []);
      assert stack[..depth - 1] == below;
      o := Continue;
    }

    /** A value frame on top stands for parsing a value. */
    lemma ValueRest()
      requires Facing(ValueState)
      ensures Rest() == Deliver(env, stack[..depth - 1], ParseValue(env, pos, depth, nodes))
      ensures nodes >= env.l.nodes ==> Rest() == Err(NodeLimit)
    {
      hide ParseItem, ParseKey, StringAt, NumberAt, Deliver;
      DeliverErr(env, stack[..depth - 1], NodeLimit);
    }

    /** The scalar arms of PS_VALUE, up to the delivery. */
    method StepScalar() returns (o: Outcome)
      requires Facing(ValueState) && nodes < env.l.nodes
      requires env.src[pos] != LBRACKET && env.src[pos] != LBRACE
      modifies this, stack
      ensures Stepped(o)
    {
      hide ParseValue, ArrayCont, ObjectCont, ParseKey, ParseColon, ParseItem, ParseMember, Deliver, SkipWs;
      ValueRest();
      var r := Scalar();
      nodes := nodes + 1;
      if r.Err? {
        DeliverErr(env, stack[..depth - 1], r.error);
        return Fail(r.error);
      }
      pos := r.value.1;
      o := DeliverToParent(r.value.0);
    }

    /** PS_VALUE. */
    method StepValue() returns (o: Outcome)
      requires Facing(ValueState)
      modifies this, stack
      ensures Stepped(o)
    {
      hide ParseValue, ArrayCont, ObjectCont, ParseKey, ParseColon, ParseItem, ParseMember, Deliver;
      ValueRest();
      if nodes >= env.l.nodes { return Fail(NodeLimit); }
      var c := env.src[pos];
      if c == LBRACKET {
        nodes := nodes + 1;
        o := OpenArray();
      } else if c == LBRACE {
        nodes := nodes + 1;
        o := OpenObject();
      } else {
        o := StepScalar();
      }
    }

    /** The main loop. */
    method Run() returns (r: Result<Parsed>)
      requires Valid()
      modifies this, stack
      ensures r == old(Rest())
    {
      hide ArrayCont, ObjectCont, ParseKey, ParseColon, ParseItem, ParseValue;
      while true
        invariant Valid() && Rest() == old(Rest())
        decreases |env.src| - pos
      {
        SkipKeepsRest(env, stack[..depth - 1], stack[depth - 1], pos, nodes);
        pos := SkipWhitespace(env.src, pos);
        if pos >= |env.src| { return Err(UnexpectedEof); }
        var o: Outcome;
        match stack[depth - 1].state {
          case ValueState => o := StepValue();
          case ArrContState => o := StepArrayCont();
          case ObjKey => o := StepKey();
          case ObjColon => o := StepColon();
          case ObjContState => o := StepObjectCont();
          case _ => assert false;
        }
        if o.Done? { return Ok(Parsed(o.root, pos, nodes)); }
        if o.Fail? { return Err(o.error); }
      }
    }

    /** Pushes a fresh value frame. */
    method Push()
      requires ValidLimits(env.l) && stack.Length == env.l.depth && 1 <= depth < stack.Length
      requires pos <= |env.src|
      requires forall k :: 0 <= k < depth ==> Waiting(stack[k], env.l)
      modifies this`depth, stack
      ensures depth == old(depth) + 1 && Valid()
      ensures stack[..depth - 1] == old(stack[..depth]) && stack[depth - 1] == Frame(ValueState, Null, 0, [])
    {
      stack[depth] := Frame(ValueState, Null, 0, []);
      depth := depth + 1;
    }
  }

  /** An item frame under a value frame stands for ParseItem. */
  lemma PushItem(e: Env, below: seq<Frame>, f: Frame, pos: nat, n: nat)
    requires f.state == ArrItem && f.container.Arr? && pos <= |e.src|
    ensures Resume(e, below + [f], Frame(ValueState, Null, 0, []), pos, n)
      == Deliver(e, below, ParseItem(e, pos, |below| + 1, n, f.container.items))
  {
    hide ParseValue, ArrayCont, ObjectCont, ParseKey, ParseColon;
    assert (below + [f])[..|below|] == below;
  }

  lemma PushMember(e: Env, below: seq<Frame>, f: Frame, pos: nat, n: nat)
    requires f.state == ObjVal && f.container.Obj? && pos <= |e.src|
    ensures Resume(e, below + [f], Frame(ValueState, Null, 0, []), pos, n)
      == Deliver(e, below, ParseMember(e, pos, |below| + 1, n, f.container.pairs, f.key))
  {
    hide ParseValue, ArrayCont, ObjectCont, ParseKey, ParseColon;
    assert (below + [f])[..|below|] == below;
  }

  /** Skipping whitespace changes nothing; at the end of the text every state fails the same way. */
  lemma SkipKeepsRest(e: Env, below: seq<Frame>, top: Frame, pos: nat, n: nat)
    requires Active(top, e.l) && pos <= |e.src|
    ensures SkipWs(e.src, SkipWs(e.src, pos)) == SkipWs(e.src, pos)
    ensures Resume(e, below, top, SkipWs(e.src, pos), n) == Resume(e, below, top, pos, n)
    ensures SkipWs(e.src, pos) == |e.src| ==> Resume(e, below, top, pos, n) == Err(UnexpectedEof)
  {
    hide ParseItem, StringAt, NumberAt;
    var p := SkipWs(e.src, pos);
    assert SkipWs(e.src, p) == p;
    assert Pending(e, top, |below| + 1, p, n) == Pending(e, top, |below| + 1, pos, n);
  }

  /** json_parse: the parsed tree and the node count it leaves, or the error. */
  method Parse(env: Env, nodes: nat) returns (r: Result<Parsed>)
    requires ValidLimits(env.l)
    ensures r == ParseDocument(env, nodes)
  {
    hide ParseValue;
    var m := new Machine(env, nodes);
    r := m.Run();
    if r.Err? { return; }
    var p := SkipWhitespace(env.src, r.value.next);
    if p < |env.src| { return Err(InvalidJson); }
  }
}
