/** The micro-operation vocabulary the ESIL decoder produces: opcodes,
    operand values, instructions, decoding errors, and the fixed table
    from ESIL operator tokens to opcodes. */
module Ir {
  import opened TokenSyntax

  /** Micro-operation opcodes.  Widen and narrow carry their target width,
      a constant carries its (unsigned 64-bit) value. */
  datatype MOpcode =
    | OpAdd | OpSub | OpMul | OpDiv | OpMod | OpAnd | OpOr | OpXor | OpNot
    | OpEq | OpCmp | OpGt | OpLt | OpGteq | OpLteq | OpLsl | OpLsr
    | OpInc | OpDec | OpIf | OpCl | OpLoad | OpJmp | OpCJmp | OpCall
    | OpWiden(width: nat) | OpNarrow(width: nat) | OpConst(value: nat)
    | OpInvalid

  datatype MArity = Zero | Unary | Binary

  /** The number of stack operands an opcode consumes when the decoder
      emits it through its generic path. */
  function Arity(op: MOpcode): (a: MArity)
    ensures a == Unary <==> op in {OpNot, OpInc, OpDec, OpIf, OpLoad, OpJmp, OpCall} || op.OpWiden? || op.OpNarrow?
    ensures a == Zero <==> op in {OpCl, OpInvalid} || op.OpConst?
  {
    match op
    case OpNot | OpInc | OpDec | OpIf | OpLoad | OpJmp | OpCall | OpWiden(_) | OpNarrow(_) => Unary
    case OpCl | OpInvalid | OpConst(_) => Zero
    case _ => Binary
  }

  datatype MValType = Register | Temporary | Unknown | Internal | Null

  /** Register metadata attached to a Register operand. */
  datatype MRegInfo = MRegInfo(regType: string, offset: nat, reg: string, size: nat, alias: string)

  /** An operand: its name, bit width, kind, register metadata and, for a
      temporary, the graph node that defines it (a node index). */
  datatype MVal = MVal(name: string, size: nat, valType: MValType, regInfo: Option<MRegInfo>, node: Option<int>)

  /** The register-profile entry of one register. */
  datatype LRegProfile = LRegProfile(name: string, typeStr: string, size: nat, offset: nat)

  /** One micro-operation with its originating instruction address. */
  datatype MInst = MInst(opcode: MOpcode, dst: MVal, operand1: MVal, operand2: MVal, addr: nat)

  datatype ParseError =
    | InvalidEsil
    | InvalidMOperator
    | InsufficientOperands
      /** a path on which the source panics */
    | Aborted
      /** the bound on the block-discovery worklist was reached */
    | OutOfFuel

  datatype Result<T> = Ok(value: T) | Err(error: ParseError)

  /** The absent operand. */
  function NullVal(): (v: MVal)
    ensures v.valType == Null && v.size == 0 && v.regInfo.None? && v.node.None?
  {
    MVal("", 0, Null, None, None)
  }

  /** The i-th temporary of the given width, not yet bound to a node. */
  function TmpVal(i: nat, size: nat): (v: MVal)
    ensures v.valType == Temporary && v.size == size && v.node.None? && v.regInfo.None?
  {
    MVal("tmp_" + HexString(i), size, Temporary, None, None)
  }

  /** Distinct temporary indices give distinct temporary names. */
  lemma TmpNamesDistinct(i: nat, j: nat, a: nat, b: nat)
    requires i != j
    ensures TmpVal(i, a).name != TmpVal(j, b).name
  {
    if TmpVal(i, a).name == TmpVal(j, b).name {
      var p := "tmp_";
      assert TmpVal(i, a).name[|p|..] == HexString(i);
      assert TmpVal(j, b).name[|p|..] == HexString(j);
      HexStringInjective(i, j);
    }
  }

  /** `map_esil_to_opset`: the ESIL operator tokens the decoder knows.
      As written, "<=" maps to OpGteq and ">=" to OpLteq. */
  function MapEsilToOpset(tok: string): (r: Option<MOpcode>)
    ensures r.Some? <==> tok in OpsetTokens
    ensures r.Some? ==> r.value != OpInvalid && r.value != OpLoad
  {
    match tok
    case "==" => Some(OpCmp)
    case "<" => Some(OpLt)
    case ">" => Some(OpGt)
    case "<=" => Some(OpGteq)
    case ">=" => Some(OpLteq)
    case "<<" => Some(OpLsl)
    case ">>" => Some(OpLsr)
    case "&" => Some(OpAnd)
    case "|" => Some(OpOr)
    case "=" => Some(OpEq)
    case "*" => Some(OpMul)
    case "^" => Some(OpXor)
    case "+" => Some(OpAdd)
    case "-" => Some(OpSub)
    case "/" => Some(OpDiv)
    case "%" => Some(OpMod)
    case "?{" => Some(OpIf)
    case "!" => Some(OpNot)
    case "--" => Some(OpDec)
    case "++" => Some(OpInc)
    case "}" => Some(OpCl)
    case _ => None
  }

  const OpsetTokens: set<string> :=
    {"==", "<", ">", "<=", ">=", "<<", ">>", "&", "|", "=", "*", "^", "+", "-", "/", "%", "?{", "!", "--", "++", "}"}

  /** The reverse table: the token that names an opcode in the opset. */
  function OpsetToken(op: MOpcode): Option<string> {
    match op
    case OpCmp => Some("==")
    case OpLt => Some("<")
    case OpGt => Some(">")
    case OpGteq => Some("<=")
    case OpLteq => Some(">=")
    case OpLsl => Some("<<")
    case OpLsr => Some(">>")
    case OpAnd => Some("&")
    case OpOr => Some("|")
    case OpEq => Some("=")
    case OpMul => Some("*")
    case OpXor => Some("^")
    case OpAdd => Some("+")
    case OpSub => Some("-")
    case OpDiv => Some("/")
    case OpMod => Some("%")
    case OpIf => Some("?{")
    case OpNot => Some("!")
    case OpDec => Some("--")
    case OpInc => Some("++")
    case OpCl => Some("}")
    case _ => None
  }

  /** The opset is a bijection between its tokens and the opcodes it
      names: looking a token up and naming the opcode are inverse. */
  lemma OpsetRoundTrip(tok: string, op: MOpcode)
    ensures MapEsilToOpset(tok) == Some(op) <==> OpsetToken(op) == Some(tok)
  {
  }

  /** No opset token contains a letter or is a decimal literal, so a token
      the opset matches never reaches the register or constant branches;
      every one has one or two characters, so each can also appear before
      '=' in a compound token. */
  lemma OpsetTokensShape(tok: string)
    requires tok in OpsetTokens
    ensures !HasAlpha(tok)
    ensures 1 <= |tok| <= 2
  {
  }
}
