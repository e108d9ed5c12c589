/** The legacy ESIL tokenizer: a smaller stack decoder that turns an ESIL
    string into three-address instructions without building a graph. It
    has no error values: on input it cannot handle it stops silently, and
    on some it panics. */
module EsilLegacy {
  import opened TokenSyntax
  import Ir

  datatype Arity = Zero | Unary | Binary | Ternary

  /** `Arity::n`: the operand count of an arity. */
  function N(a: Arity): (n: nat)
    ensures n <= 3
  {
    match a
    case Zero => 0
    case Unary => 1
    case Binary => 2
    case Ternary => 3
  }

  /** The count tells the arities apart. */
  lemma NInjective(a: Arity, b: Arity)
    requires N(a) == N(b)
    ensures a == b
  {
  }

  datatype Opcode =
    | OpAdd | OpSub | OpMul | OpDiv | OpMod | OpAnd | OpOr | OpXor | OpNot | OpEq | OpCmp
    | OpGt | OpLt | OpGteq | OpLteq | OpLsl | OpLsr | OpInc | OpDec | OpIf | OpRef
    | OpNarrow | OpWiden | OpNop

  datatype Operator = Operator(op: string, arity: Arity)

  /** `Opcode::to_operator`: the printed operator and arity of every
      opcode. Only `OpNop` takes no operand, five opcodes take one, and no
      opcode takes three. */
  function ToOperator(o: Opcode): (r: Operator)
    ensures r.arity != Ternary
    ensures r.arity == Zero <==> o == OpNop
    ensures r.arity == Unary <==> o in {OpNot, OpInc, OpDec, OpIf, OpRef}
    ensures r.op == "=" <==> o == OpEq
  {
    match o
    case OpAdd => Operator("+", Binary)
    case OpSub => Operator("-", Binary)
    case OpMul => Operator("*", Binary)
    case OpDiv => Operator("/", Binary)
    case OpMod => Operator("%", Binary)
    case OpAnd => Operator("&", Binary)
    case OpOr => Operator("|", Binary)
    case OpXor => Operator("^", Binary)
    case OpNot => Operator("!", Unary)
    case OpEq => Operator("=", Binary)
    case OpCmp => Operator("==", Binary)
    case OpGt => Operator(">", Binary)
    case OpLt => Operator("<", Binary)
    case OpLteq => Operator("<=", Binary)
    case OpGteq => Operator(">=", Binary)
    case OpLsl => Operator("<<", Binary)
    case OpLsr => Operator(">>", Binary)
    case OpInc => Operator("++", Unary)
    case OpDec => Operator("--", Unary)
    case OpIf => Operator("if", Unary)
    case OpRef => Operator("&ref", Unary)
    case OpNarrow => Operator("narrow", Binary)
    case OpWiden => Operator("widen", Binary)
    case OpNop => Operator("", Zero)
  }

  /** The operands an opcode pops. */
  function Needed(o: Opcode): nat {
    N(ToOperator(o).arity)
  }

  datatype Location = Memory | Register | Constant | Temporary | Unknown | Null

  /** An operand; `size` is in bits. */
  datatype Value = Value(name: string, size: nat, location: Location, value: int, typeset: nat)

  /** `Value::null`. */
  function NullValue(): (v: Value)
    ensures v.location == Null && v.size == 0 && v.name == ""
  {
    Value("", 0, Null, 0, 0)
  }

  /** `Value::tmp`: the i-th temporary, named by its index in hexadecimal. */
  function Tmp(i: nat, size: nat): (v: Value)
    ensures v.location == Temporary && v.size == size && v.value == 0
  {
    Value("tmp_" + HexString(i), size, Temporary, 0, 0)
  }

  lemma TmpNamesDistinct(i: nat, j: nat, a: nat, b: nat)
    requires i != j
    ensures Tmp(i, a).name != Tmp(j, b).name
  {
    if Tmp(i, a).name == Tmp(j, b).name {
      var p := "tmp_";
      assert Tmp(i, a).name[|p|..] == HexString(i);
      assert Tmp(j, b).name[|p|..] == HexString(j);
      HexStringInjective(i, j);
    }
  }

  /** `Value::constant`: a 64-bit constant named by its decimal digits. */
  function ConstantValue(i: int): (v: Value)
    ensures v.location == Constant && v.size == 64 && v.value == i
  {
    Value(if i < 0 then "-" + DecString(-i) else DecString(i), 64, Constant, i, 0)
  }

  lemma {:induction false} FormatUnsigned(n: nat, radix: nat)
    requires 2 <= radix <= 16
    ensures FormatRadix(n, radix)[0] != '+' && FormatRadix(n, radix)[0] != '-'
  {
    if n >= radix {
      DivStep(n, radix);
      FormatUnsigned(n / radix, radix);
      assert FormatRadix(n, radix)[0] == FormatRadix(n / radix, radix)[0];
    }
  }

  /** Reading a constant's name back as a decimal gives its value. */
  lemma ConstantNameRoundTrip(i: nat)
    requires i <= I64Max
    ensures FromStrRadix(ConstantValue(i).name, 10) == Some(i)
  {
    FormatUnsigned(i, 10);
    FormatRoundTrip(i, 10);
  }

  datatype Instruction = Instruction(opcode: Opcode, dst: Value, operand1: Value, operand2: Value)

  /** `init_opset`, as a lookup: the opcode an ESIL operator token names.
      It knows the same tokens as the graph-building decoder's table and,
      as written, "<=" names `OpGteq` and ">=" names `OpLteq`. */
  function Opset(tok: string): (r: Option<Opcode>)
    ensures r.Some? <==> tok in Ir.OpsetTokens
    ensures r.Some? ==> r.value != OpRef && r.value != OpNarrow && r.value != OpWiden
    ensures r == Some(OpNop) <==> tok == "}"
  {
    match tok
    case "==" => Some(OpCmp)
    case "<" => Some(OpLt)
    case ">" => Some(OpGt)
    case "<=" => Some(OpGteq)
    case ">=" => Some(OpLteq)
    case "<<" => Some(OpLsl)
    case ">>" => Some(OpLsr)
    case "&" => Some(OpAnd)
    case "|" => Some(OpOr)
    case "=" => Some(OpEq)
    case "*" => Some(OpMul)
    case "^" => Some(OpXor)
    case "+" => Some(OpAdd)
    case "-" => Some(OpSub)
    case "/" => Some(OpDiv)
    case "%" => Some(OpMod)
    case "?{" => Some(OpIf)
    case "!" => Some(OpNot)
    case "--" => Some(OpDec)
    case "++" => Some(OpInc)
    case "}" => Some(OpNop)
    case _ => None
  }

  /** `init_regset`, as a lookup: the 64-bit general-purpose registers of
      x86-64 and their width. */
  function Regset(tok: string): (r: Option<nat>)
    ensures r.Some? <==> tok in {"rax", "rbx", "rcx", "rdx", "rsp", "rbp", "rsi", "rdi", "rip"}
    ensures r.Some? ==> r.value == 64
  {
    match tok
    case "rax" => Some(64)
    case "rbx" => Some(64)
    case "rcx" => Some(64)
    case "rdx" => Some(64)
    case "rsp" => Some(64)
    case "rbp" => Some(64)
    case "rsi" => Some(64)
    case "rdi" => Some(64)
    case "rip" => Some(64)
    case _ => None
  }

  /** The decoder's mutable state: the operand stack, the instructions
      emitted so far and the last temporary index used. */
  datatype LState = LState(stack: seq<Value>, insts: seq<Instruction>, tmpIndex: nat)

  /** `s1` is `s0` with more instructions and no temporary index reused. */
  predicate Extends(s0: LState, s1: LState) {
    |s0.insts| <= |s1.insts| && s1.insts[..|s0.insts|] == s0.insts && s0.tmpIndex <= s1.tmpIndex
  }

  lemma ExtendsTrans(s0: LState, s1: LState, s2: LState)
    requires Extends(s0, s1) && Extends(s1, s2)
    ensures Extends(s0, s2)
  {
    assert s2.insts[..|s0.insts|] == s2.insts[..|s1.insts|][..|s0.insts|];
  }

  /** The width of a fresh temporary: 0 means the default. */
  function TmpSize(size: nat, defaultSize: nat): nat {
    if size == 0 then defaultSize else size
  }

  /** `add_widen_inst`: a cast to `size` unless the operand is already
      wider; a cast is emitted when the widths are equal. */
  function WidenOn(st: LState, v: Value, size: nat, defaultSize: nat): (r: (LState, Value))
    ensures v.size > size ==> r == (st, v)
    ensures v.size <= size ==>
              r.0.tmpIndex == st.tmpIndex + 1 && r.0.stack == st.stack &&
              r.1 == Tmp(r.0.tmpIndex, TmpSize(size, defaultSize)) &&
              r.0.insts == st.insts + [Instruction(OpWiden, r.1, v, NullValue())]
  {
    if v.size > size then (st, v)
    else
      var dst := Tmp(st.tmpIndex + 1, TmpSize(size, defaultSize));
      (LState(st.stack, st.insts + [Instruction(OpWiden, dst, v, NullValue())], st.tmpIndex + 1), dst)
  }

  /** `add_narrow_inst`: a cast to `size`, carrying the width as a
      constant, unless the operand is already narrower; a cast is emitted
      when the widths are equal. */
  function NarrowOn(st: LState, v: Value, size: nat, defaultSize: nat): (r: (LState, Value))
    ensures v.size < size ==> r == (st, v)
    ensures v.size >= size ==>
              r.0.tmpIndex == st.tmpIndex + 1 && r.0.stack == st.stack &&
              r.1 == Tmp(r.0.tmpIndex, TmpSize(size, defaultSize)) &&
              r.0.insts == st.insts + [Instruction(OpNarrow, r.1, v, ConstantValue(size))]
  {
    if v.size < size then (st, v)
    else
      var dst := Tmp(st.tmpIndex + 1, TmpSize(size, defaultSize));
      (LState(st.stack, st.insts + [Instruction(OpNarrow, dst, v, ConstantValue(size))], st.tmpIndex + 1), dst)
  }

  /** Equal widths make both casts emit an instruction. */
  lemma CastsAtEqualWidth(st: LState, v: Value, d: nat)
    ensures |WidenOn(st, v, v.size, d).0.insts| == |st.insts| + 1
    ensures |NarrowOn(st, v, v.size, d).0.insts| == |st.insts| + 1
  {
  }

  /** `add_inst`: the top of the stack is the first operand and, for a
      binary opcode, the value below it the second. An assignment stores
      the second into the first; any other opcode computes a fresh
      temporary as wide as the first operand. The result is pushed. */
  function AddInstOn(st: LState, op: Opcode, defaultSize: nat): (r: LState)
    ensures Extends(st, r)
    ensures |st.stack| == 0 ==> r == st
    ensures Needed(op) == 2 && |st.stack| == 1 ==> r == st.(stack := [])
    ensures |st.stack| >= 1 && |st.stack| >= Needed(op) ==>
              var k := if Needed(op) == 2 then 2 else 1;
              var top := st.stack[|st.stack| - 1];
              var second := if k == 2 then st.stack[|st.stack| - 2] else NullValue();
              |r.insts| == |st.insts| + 1 && r.insts[|st.insts|].opcode == op &&
              r.stack == st.stack[..|st.stack| - k] + [r.insts[|st.insts|].dst] &&
              (op == OpEq ==>
                 r.tmpIndex == st.tmpIndex && r.insts[|st.insts|] == Instruction(op, top, second, NullValue())) &&
              (op != OpEq ==>
                 r.tmpIndex == st.tmpIndex + 1 &&
                 r.insts[|st.insts|] == Instruction(op, Tmp(r.tmpIndex, TmpSize(top.size, defaultSize)), top, second))
  {
    if |st.stack| == 0 then st
    else
      var op2 := st.stack[|st.stack| - 1];
      var s1 := st.stack[..|st.stack| - 1];
      if Needed(op) == 2 && |s1| == 0 then st.(stack := s1)
      else
        var op1 := if Needed(op) == 2 then s1[|s1| - 1] else NullValue();
        var s2 := if Needed(op) == 2 then s1[..|s1| - 1] else s1;
        assert s2 == st.stack[..|st.stack| - (if Needed(op) == 2 then 2 else 1)];
        if ToOperator(op).op == "=" then
          LState(s2 + [op2], st.insts + [Instruction(op, op2, op1, NullValue())], st.tmpIndex)
        else
          var dst := Tmp(st.tmpIndex + 1, TmpSize(op2.size, defaultSize));
          LState(s2 + [dst], st.insts + [Instruction(op, dst, op2, op1)], st.tmpIndex + 1)
  }

  /** What a decoding step ends in: the state to carry on from, the state
      at a silent early return, or a panic. */
  datatype Outcome = Continue(st: LState) | Stopped(st: LState) | Panicked

  /** The operand an alphabetic token stands for. */
  function TokenValue(tok: string, d: nat): (v: Value)
    ensures Regset(tok).Some? ==> v == Value(tok, Regset(tok).value, Register, 0, 0)
    ensures Regset(tok).None? && HasAlpha(tok) ==> v == Value(tok, d, Unknown, 0, 0)
  {
    if Regset(tok).Some? then Value(tok, Regset(tok).value, Register, 0, 0)
    else
      match FromStrRadix(tok, 10)
      case Some(n) =>
        assert !HasAlpha(tok) by {
          if HasAlpha(tok) {
            AlphaTokenIsNotDecimal(tok);
          }
        }
        Value(tok, d, Constant, n, 0)
      case None => Value(tok, d, Unknown, 0, 0)
  }

  /** A compound token `op=`: the operation on the top two values, then
      its result stored into the old top. */
  function CompoundStep(st: LState, tok: string, d: nat): (r: Outcome)
  {
    if |st.stack| == 0 then Stopped(st)
    else
      var dst := st.stack[|st.stack| - 1];
      match MatchCompound(tok)
      case None => Panicked
      case Some(t) =>
        if Opset(t).None? then Stopped(st)
        else
          var s1 := AddInstOn(st, Opset(t).value, d);
          Continue(AddInstOn(s1.(stack := s1.stack + [dst]), OpEq, d))
  }

  /** A memory token `[n]`, `=[n]` or `op=[n]`: a reference to the address
      on top, a cast to the access width, then the store, if any. */
  function MemoryStep(st: LState, tok: string, d: nat): (r: Outcome)
    ensures r.Panicked? <==> MatchMem(tok).None? || |st.stack| == 0
  {
    match MatchMem(tok)
    case None => Panicked
    case Some(m) =>
      MatchMemSound(tok);
      var w := AccessBits(m.width, d);
      var s1 := AddInstOn(st, OpRef, d);
      if |s1.stack| == 0 then Panicked
      else
        var (s2, x) := NarrowOn(s1.(stack := s1.stack[..|s1.stack| - 1]), s1.stack[|s1.stack| - 1], w, d);
        var s3 := s2.(stack := s2.stack + [x]);
        if !m.assign then Continue(s3)
        else if m.prefix == "" then Continue(AddInstOn(s3, OpEq, d))
        else if Opset(m.prefix).None? then Stopped(s3)
        else
          var s4 := AddInstOn(s3, Opset(m.prefix).value, d);
          Continue(AddInstOn(s4.(stack := s4.stack + [x]), OpEq, d))
  }

  /** One token of `parse`, tried in the source's order: an opset
      operator other than `OpNop`, a token with a letter, then a compound
      or memory token. An empty token panics. */
  function TokenStep(st: LState, tok: string, d: nat): (r: Outcome)
  {
    if Opset(tok).Some? && Opset(tok).value != OpNop then Continue(AddInstOn(st, Opset(tok).value, d))
    else if HasAlpha(tok) then Continue(st.(stack := st.stack + [TokenValue(tok, d)]))
    else if |tok| == 0 then Panicked
    else if tok[|tok| - 1] != ']' then CompoundStep(st, tok, d)
    else MemoryStep(st, tok, d)
  }

  /** `parse` over a sequence of tokens: each step starts from the state
      the previous one continued with; a stop or a panic ends it. */
  function ParseTokens(st: LState, toks: seq<string>, d: nat): (r: Outcome)
  {
    if |toks| == 0 then Continue(st)
    else
      match ParseTokens(st, toks[..|toks| - 1], d)
      case Continue(s) => TokenStep(s, toks[|toks| - 1], d)
      case o => o
  }

  // ---------------------------------------------------------------------
  // Properties of the decoder

  /** A compound token that does not stop only adds instructions. */
  lemma CompoundExtends(st: LState, tok: string, d: nat)
    requires CompoundStep(st, tok, d).Continue?
    ensures Extends(st, CompoundStep(st, tok, d).st)
  {
    var dst := st.stack[|st.stack| - 1];
    var t := MatchCompound(tok).value;
    var s1 := AddInstOn(st, Opset(t).value, d);
    var s2 := s1.(stack := s1.stack + [dst]);
    ExtendsTrans(st, s2, AddInstOn(s2, OpEq, d));
  }

  /** What a memory token emits follows the reference it emits first. */
  lemma MemoryExtends(st: LState, tok: string, d: nat)
    requires !MemoryStep(st, tok, d).Panicked?
    ensures Extends(AddInstOn(st, OpRef, d), MemoryStep(st, tok, d).st)
  {
    var m := MatchMem(tok).value;
    MatchMemSound(tok);
    var w := AccessBits(m.width, d);
    var s1 := AddInstOn(st, OpRef, d);
    var r := NarrowOn(s1.(stack := s1.stack[..|s1.stack| - 1]), s1.stack[|s1.stack| - 1], w, d);
    var s3 := r.0.(stack := r.0.stack + [r.1]);
    assert Extends(s1, s3);
    if m.assign && m.prefix == "" {
      ExtendsTrans(s1, s3, AddInstOn(s3, OpEq, d));
    } else if m.assign && Opset(m.prefix).Some? {
      var s4 := AddInstOn(s3, Opset(m.prefix).value, d);
      var s5 := s4.(stack := s4.stack + [r.1]);
      ExtendsTrans(s1, s3, s5);
      ExtendsTrans(s1, s5, AddInstOn(s5, OpEq, d));
    }
  }

  /** A step that does not panic only adds instructions and never reuses
      a temporary index. */
  lemma TokenStepExtends(st: LState, tok: string, d: nat)
    requires !TokenStep(st, tok, d).Panicked?
    ensures Extends(st, TokenStep(st, tok, d).st)
  {
    if Opset(tok).Some? && Opset(tok).value != OpNop {
    } else if HasAlpha(tok) {
      assert st.(stack := st.stack + [TokenValue(tok, d)]).insts == st.insts;
    } else if tok[|tok| - 1] != ']' {
      if CompoundStep(st, tok, d).Continue? {
        CompoundExtends(st, tok, d);
      }
    } else {
      MemoryExtends(st, tok, d);
      ExtendsTrans(st, AddInstOn(st, OpRef, d), MemoryStep(st, tok, d).st);
    }
  }

  /** Decoding only adds instructions: repeated decoding accumulates them. */
  lemma {:induction false} ParseExtends(st: LState, toks: seq<string>, d: nat)
    requires !ParseTokens(st, toks, d).Panicked?
    ensures Extends(st, ParseTokens(st, toks, d).st)
  {
    if |toks| > 0 {
      var p := toks[..|toks| - 1];
      ParseExtends(st, p, d);
      var o := ParseTokens(st, p, d);
      if o.Continue? {
        TokenStepExtends(o.st, toks[|toks| - 1], d);
        ExtendsTrans(st, o.st, TokenStep(o.st, toks[|toks| - 1], d).st);
      }
    }
  }

  /** Decoding two token sequences in turn is decoding them joined: the
      second starts from the state the first continued with. */
  lemma {:induction false} ParseConcat(st: LState, a: seq<string>, b: seq<string>, d: nat)
    ensures ParseTokens(st, a + b, d) ==
              match ParseTokens(st, a, d)
              case Continue(s) => ParseTokens(s, b, d)
              case o => o
  {
    if |b| == 0 {
      assert a + b == a;
    } else {
      var b0 := b[..|b| - 1];
      ParseConcat(st, a, b0, d);
      assert (a + b)[..|a + b| - 1] == a + b0;
      assert (a + b)[|a + b| - 1] == b[|b| - 1];
    }
  }

  /** Decoding one more token of a sequence continues from the prefix. */
  lemma ParsePrefixStep(st: LState, toks: seq<string>, i: nat, d: nat)
    requires i < |toks|
    ensures ParseTokens(st, toks[..i + 1], d) ==
              match ParseTokens(st, toks[..i], d)
              case Continue(s) => TokenStep(s, toks[i], d)
              case o => o
  {
    assert toks[..i + 1][..i] == toks[..i];
  }

  /** Once a prefix stops or panics, the whole sequence ends the same way. */
  lemma ParseStopped(st: LState, toks: seq<string>, i: nat, d: nat)
    requires i <= |toks| && !ParseTokens(st, toks[..i], d).Continue?
    ensures ParseTokens(st, toks, d) == ParseTokens(st, toks[..i], d)
  {
    ParseConcat(st, toks[..i], toks[i..], d);
    assert toks[..i] + toks[i..] == toks;
  }

  /** An empty ESIL string is one empty token, whose last character the
      decoder unwraps: it panics. */
  lemma EmptyEsilPanics(st: LState, d: nat)
    ensures ParseTokens(st, Split(""), d) == Panicked
  {
    assert Split("") == [""];
    assert [""][..0] == [];
  }

  /** A token with a letter pushes one operand: a known register with its
      width, anything else an unknown value of the default width. */
  lemma LetterTokens(st: LState, tok: string, d: nat)
    requires HasAlpha(tok)
    ensures TokenStep(st, tok, d) == Continue(st.(stack := st.stack + [TokenValue(tok, d)]))
    ensures Regset(tok).Some? ==> TokenValue(tok, d).location == Register && TokenValue(tok, d).size == 64
    ensures Regset(tok).None? ==> TokenValue(tok, d).location == Unknown && TokenValue(tok, d).size == d
  {
    if Opset(tok).Some? {
      assert false;
    }
  }

  /** A compound token `op=` on a binary operator computes the operation
      of the top two values into a fresh temporary and stores it into the
      old top, which is left on the stack. */
  lemma CompoundAssigns(st: LState, tok: string, o: Opcode, d: nat)
    requires Opset(tok).None? && !HasAlpha(tok)
    requires MatchCompound(tok).Some? && Opset(MatchCompound(tok).value) == Some(o)
    requires Needed(o) == 2 && o != OpEq && |st.stack| >= 2
    ensures var n := |st.stack|;
      var t := Tmp(st.tmpIndex + 1, TmpSize(st.stack[n - 1].size, d));
      TokenStep(st, tok, d) ==
        Continue(LState(st.stack[..n - 2] + [st.stack[n - 1]],
                        st.insts + [Instruction(o, t, st.stack[n - 1], st.stack[n - 2]),
                                    Instruction(OpEq, st.stack[n - 1], t, NullValue())],
                        st.tmpIndex + 1))
  {
    var n := |st.stack|;
    var top := st.stack[n - 1];
    var s1 := AddInstOn(st, o, d);
    var s2 := s1.(stack := s1.stack + [top]);
    assert s2.stack[..|s2.stack| - 1] == s1.stack;
    var s3 := AddInstOn(s2, OpEq, d);
    assert s3.stack == st.stack[..n - 2] + [top];
    assert s3.insts == s2.insts + [s3.insts[|s2.insts|]];
  }

  /** A memory token without a letter in it is decoded as one. */
  lemma MemoryTokenDispatch(st: LState, tok: string, d: nat)
    requires MatchMem(tok).Some? && !HasAlpha(tok)
    ensures TokenStep(st, tok, d) == MemoryStep(st, tok, d)
  {
    MatchMemSound(tok);
    assert tok[|tok| - 1] == ']';
    OpsetNotBracketed(tok);
  }

  /** No opset token ends in ']'. */
  lemma OpsetNotBracketed(tok: string)
    requires |tok| > 0 && tok[|tok| - 1] == ']'
    ensures Opset(tok).None?
  {
    assert tok !in Ir.OpsetTokens;
  }

  /** A memory token first emits a reference to the address on top of the
      stack, before any cast or store; with an empty stack it panics. */
  lemma MemoryRefFirst(st: LState, tok: string, d: nat)
    requires MatchMem(tok).Some? && |st.stack| > 0
    ensures !MemoryStep(st, tok, d).Panicked?
    ensures var f := MemoryStep(st, tok, d).st;
      var top := st.stack[|st.stack| - 1];
      |f.insts| > |st.insts| &&
      f.insts[|st.insts|] == Instruction(OpRef, Tmp(st.tmpIndex + 1, TmpSize(top.size, d)), top, NullValue())
  {
    var s1 := AddInstOn(st, OpRef, d);
    MemoryExtends(st, tok, d);
    var f := MemoryStep(st, tok, d).st;
    assert f.insts[|st.insts|] == f.insts[..|s1.insts|][|st.insts|];
  }

  // ---------------------------------------------------------------------
  // The decoder object

  /** `Parser`: the decoder's state, updated in place token by token. The
      operator and register tables are the fixed lookups above. */
  class LegacyParser {
    var stack: seq<Value>
    var insts: seq<Instruction>
    var tmpIndex: nat
    const defaultSize: nat

    function State(): LState
      reads this`stack, this`insts, this`tmpIndex
    {
      LState(stack, insts, tmpIndex)
    }

    /** `Parser::new`: nothing decoded yet, with a default width of 64 bits. */
    constructor ()
      ensures State() == LState([], [], 0) && defaultSize == 64
    {
      stack, insts, tmpIndex := [], [], 0;
      defaultSize := 64;
    }

    /** `get_tmp_register`: the next temporary index; width 0 means the
        default. */
    method GetTmpRegister(size: nat) returns (v: Value)
      modifies this`tmpIndex
      ensures tmpIndex == old(tmpIndex) + 1 && v == Tmp(tmpIndex, TmpSize(size, defaultSize))
    {
      tmpIndex := tmpIndex + 1;
      var sz := size;
      if sz == 0 {
        sz := defaultSize;
      }
      v := Tmp(tmpIndex, sz);
    }

    /** `add_widen_inst`. */
    method AddWidenInst(op: Value, size: nat) returns (r: Value)
      modifies this`tmpIndex, this`insts
      ensures (State(), r) == WidenOn(old(State()), op, size, defaultSize)
    {
      if op.size > size {
        return op;
      }
      var dst := GetTmpRegister(size);
      insts := insts + [Instruction(OpWiden, dst, op, NullValue())];
      r := dst;
    }

    /** `add_narrow_inst`. */
    method AddNarrowInst(op: Value, size: nat) returns (r: Value)
      modifies this`tmpIndex, this`insts
      ensures (State(), r) == NarrowOn(old(State()), op, size, defaultSize)
    {
      if op.size < size {
        return op;
      }
      var dst := GetTmpRegister(size);
      insts := insts + [Instruction(OpNarrow, dst, op, ConstantValue(size))];
      r := dst;
    }

    /** `add_inst`. */
    method AddInst(op: Opcode)
      modifies this`stack, this`insts, this`tmpIndex
      ensures State() == AddInstOn(old(State()), op, defaultSize)
    {
      if |stack| == 0 {
        return;
      }
      var op2 := stack[|stack| - 1];
      stack := stack[..|stack| - 1];
      var op1 := NullValue();
      if N(ToOperator(op).arity) == 2 {
        if |stack| == 0 {
          return;
        }
        op1 := stack[|stack| - 1];
        stack := stack[..|stack| - 1];
      }
      var dst: Value;
      if ToOperator(op).op == "=" {
        dst := op2;
        op2 := op1;
        op1 := NullValue();
      } else {
        dst := GetTmpRegister(op2.size);
      }
      insts := insts + [Instruction(op, dst, op2, op1)];
      stack := stack + [dst];
    }

    /** A compound token, as `parse` handles one. */
    method CompoundToken(tok: string) returns (o: Outcome)
      modifies this`stack, this`insts, this`tmpIndex
      ensures o == CompoundStep(old(State()), tok, defaultSize)
      ensures !o.Panicked? ==> State() == o.st
    {
      if |stack| == 0 {
        return Stopped(State());
      }
      var dst := stack[|stack| - 1];
      var t := MatchCompound(tok);
      if t.None? {
        return Panicked;
      }
      var c := Opset(t.value);
      if c.None? {
        return Stopped(State());
      }
      AddInst(c.value);
      stack := stack + [dst];
      AddInst(OpEq);
      o := Continue(State());
    }

    /** A memory token, as `parse` handles one. */
    method MemoryToken(tok: string) returns (o: Outcome)
      modifies this`stack, this`insts, this`tmpIndex
      ensures o == MemoryStep(old(State()), tok, defaultSize)
      ensures !o.Panicked? ==> State() == o.st
    {
      var m := MatchMem(tok);
      if m.None? {
        return Panicked;
      }
      MatchMemSound(tok);
      var w := AccessBits(m.value.width, defaultSize);
      AddInst(OpRef);
      if |stack| == 0 {
        return Panicked;
      }
      var x := stack[|stack| - 1];
      stack := stack[..|stack| - 1];
      x := AddNarrowInst(x, w);
      var tmpDst := x;
      stack := stack + [x];
      if !m.value.assign {
        return Continue(State());
      }
      if m.value.prefix == "" {
        AddInst(OpEq);
        return Continue(State());
      }
      var c := Opset(m.value.prefix);
      if c.None? {
        return Stopped(State());
      }
      AddInst(c.value);
      stack := stack + [tmpDst];
      AddInst(OpEq);
      o := Continue(State());
    }

    /** One token of `parse`. */
    method ParseToken(tok: string) returns (o: Outcome)
      modifies this`stack, this`insts, this`tmpIndex
      ensures o == TokenStep(old(State()), tok, defaultSize)
      ensures !o.Panicked? ==> State() == o.st
    {
      var c := Opset(tok);
      if c.Some? && c.value != OpNop {
        AddInst(c.value);
        return Continue(State());
      }
      if HasAlpha(tok) {
        stack := stack + [TokenValue(tok, defaultSize)];
        return Continue(State());
      }
      if |tok| == 0 {
        return Panicked;
      }
      if tok[|tok| - 1] != ']' {
        o := CompoundToken(tok);
      } else {
        o := MemoryToken(tok);
      }
    }

    /** `parse`: the tokens between commas, in order, until one stops the
        decoder or panics. */
    method Parse(esil: string) returns (o: Outcome)
      modifies this`stack, this`insts, this`tmpIndex
      ensures o == ParseTokens(old(State()), Split(esil), defaultSize)
      ensures !o.Panicked? ==> State() == o.st
    {
      var toks := Split(esil);
      ghost var st0 := State();
      o := Continue(State());
      var i := 0;
      assert toks[..0] == [];
      while i < |toks|
        invariant 0 <= i <= |toks|
        invariant o == ParseTokens(st0, toks[..i], defaultSize)
        invariant o.Continue? && State() == o.st
      {
        ParsePrefixStep(st0, toks, i, defaultSize);
        o := ParseToken(toks[i]);
        if !o.Continue? {
          ParseStopped(st0, toks, i + 1, defaultSize);
          return;
        }
        i := i + 1;
      }
      assert toks[..i] == toks;
    }

    /** `emit_insts`: the instructions decoded so far. */
    method EmitInsts() returns (r: seq<Instruction>)
      ensures r == insts
    {
      r := insts;
    }
  }
}
