/** The ESIL decoder: it turns each instruction's ESIL string into
    micro-operations, feeding every one of them into the SSA construction as
    it goes, and discovers basic blocks by following jumps from a start
    address. */
module Frontend {
  import opened TokenSyntax
  import opened Ir
  import opened SsaGraph
  import opened Ssa
  import opened Emit
  import opened Blocks

  /** A value the decoder can hand to the graph: a temporary always names
      the operation node that computed it. */
  predicate ValOk(g: Graph, v: MVal) {
    v.valType == Temporary ==> v.node.Some? && IsNode(g, v.node.value) && g.nodes[v.node.value].Op?
  }

  /** Every stack value can be handed to the graph and none is the absent
      operand. */
  predicate StackOk(g: Graph, s: seq<MVal>) {
    forall k :: 0 <= k < |s| ==> ValOk(g, s[k]) && s[k].valType != Null
  }

  lemma ValEvolve(g0: Graph, g1: Graph, v: MVal)
    requires ValOk(g0, v) && NodesEvolve(g0, g1)
    ensures ValOk(g1, v)
  {
    if v.valType == Temporary {
      assert Evolved(g0.nodes[v.node.value], g1.nodes[v.node.value]);
    }
  }

  lemma StackEvolve(g0: Graph, g1: Graph, s: seq<MVal>)
    requires StackOk(g0, s) && NodesEvolve(g0, g1)
    ensures StackOk(g1, s)
  {
    forall k | 0 <= k < |s|
      ensures ValOk(g1, s[k])
    {
      ValEvolve(g0, g1, s[k]);
    }
  }

  lemma EvolveTrans(g0: Graph, g1: Graph, g2: Graph)
    requires NodesEvolve(g0, g1) && NodesEvolve(g1, g2)
    ensures NodesEvolve(g0, g2)
  {
    forall i | 0 <= i < |g0.nodes|
      ensures Evolved(g0.nodes[i], g2.nodes[i])
    {
      assert Evolved(g0.nodes[i], g1.nodes[i]) && Evolved(g1.nodes[i], g2.nodes[i]);
    }
  }

  lemma EvolveRefl(g: Graph)
    ensures NodesEvolve(g, g)
  {
  }

  /** Whether an assignment destination is the program counter, which turns
      the assignment into a jump. */
  predicate IsPc(v: MVal) {
    v.regInfo.Some? && v.regInfo.value.alias == "pc"
  }

  /** The second character of a name, or NUL when there is none. */
  function SecondChar(name: string): char {
    if |name| >= 2 then name[1] else '\0'
  }

  /** A register operand built from its profile entry and alias role. */
  function RegisterVal(name: string, r: LRegProfile, role: string): (v: MVal)
    ensures v.valType == Register && v.size == r.size && v.node.None?
  {
    MVal(name, r.size, Register, Some(MRegInfo(r.typeStr, r.offset, r.name, r.size, role)), None)
  }

  function Max(a: nat, b: nat): nat {
    if a >= b then a else b
  }

  /** A constant node stays that constant while nodes evolve. */
  lemma ConstEvolve(g0: Graph, g1: Graph, n: Node)
    requires SsaGraph.ReadConst(g0, n).Some? && NodesEvolve(g0, g1)
    ensures SsaGraph.ReadConst(g1, n) == SsaGraph.ReadConst(g0, n)
  {
    assert Evolved(g0.nodes[n], g1.nodes[n]);
  }

  /** `read_const`: the constant a temporary's node holds, if any. */
  function ConstIn(g: Graph, v: MVal): (r: Option<nat>)
    ensures r.Some? ==> v.valType == Temporary && v.node.Some? && IsNode(g, v.node.value)
    ensures r.Some? ==> g.nodes[v.node.value].Op? && g.nodes[v.node.value].opcode == OpConst(r.value)
  {
    if v.valType == Temporary && v.node.Some? then SsaGraph.ReadConst(g, v.node.value) else None
  }

  /** The jump scan of `run` over one instruction's micro-operations, in
      order: a jump ends the block at `pc` (the bound becomes inclusive), and
      a jump or conditional jump with a constant target adds that target to
      visit and a control edge to it from the block (tag 9 for a jump, 1
      for a conditional one). */
  function JumpEffects(g: Graph, s: seq<MInst>, bbstart: nat, pc: nat, nb: Bound): (r: (Bound, seq<nat>, seq<CfgEdge>))
    ensures |r.1| == |r.2|
    ensures forall k :: 0 <= k < |r.1| ==> r.2[k] == CfgEdge(bbstart, r.1[k], r.2[k].tag) && r.2[k].tag in {9, 1}
    ensures (exists k :: 0 <= k < |s| && s[k].opcode == OpJmp) ==> r.0 == Included(pc)
    ensures (forall k :: 0 <= k < |s| ==> s[k].opcode != OpJmp) ==> r.0 == nb
    ensures forall k :: 0 <= k < |s| && s[k].opcode == OpJmp && ConstIn(g, s[k].operand1).Some? ==>
              ConstIn(g, s[k].operand1).value in r.1
  {
    if |s| == 0 then (nb, [], [])
    else
      var t := s[..|s| - 1];
      var p := JumpEffects(g, t, bbstart, pc, nb);
      var inst := s[|s| - 1];
      assert forall k :: 0 <= k < |t| ==> s[k] == t[k];
      if inst.opcode == OpJmp then
        match ConstIn(g, inst.operand1)
        case Some(target) => (Included(pc), p.1 + [target], p.2 + [CfgEdge(bbstart, target, 9)])
        case None => (Included(pc), p.1, p.2)
      else if inst.opcode == OpCJmp then
        match ConstIn(g, inst.operand2)
        case Some(target) => (p.0, p.1 + [target], p.2 + [CfgEdge(bbstart, target, 1)])
        case None => p
      else p
  }

  /** The graph node recorded for the block at address `a`, when there is
      one and it is a node of `g` (not a reset block). */
  function BlockNodeAt(g: Graph, m: BlockMap, a: nat): (r: Option<Node>)
    ensures r.Some? ==> IsNode(g, r.value)
    ensures r.Some? ==> a in Keys(m)
  {
    match Get(m, a)
    case Some(e) => if IsNode(g, e.node) then Some(e.node) else None
    case None => None
  }

  /** The graph after adding the deferred control edges in order; None
      when an endpoint has no block or a reset one (where indexing the
      block map or adding the edge panics). */
  function WithEdges(g: Graph, m: BlockMap, es: seq<CfgEdge>): (r: Option<Graph>)
    ensures r.Some? ==> r.value.nodes == g.nodes
  {
    if |es| == 0 then Some(g)
    else
      match WithEdges(g, m, es[..|es| - 1])
      case None => None
      case Some(h) =>
        var e := es[|es| - 1];
        match BlockNodeAt(h, m, e.src)
        case None => None
        case Some(a) =>
          match BlockNodeAt(h, m, e.dst)
          case None => None
          case Some(b) => Some(AddEdge(h, Edge(a, b, Control(e.tag))))
  }

  /** Adding the edges succeeds exactly when every endpoint names a block
      with a graph node. */
  lemma {:induction false} WithEdgesDefined(g: Graph, m: BlockMap, es: seq<CfgEdge>)
    ensures WithEdges(g, m, es).Some? <==>
              forall k :: 0 <= k < |es| ==> BlockNodeAt(g, m, es[k].src).Some? && BlockNodeAt(g, m, es[k].dst).Some?
  {
    if |es| > 0 {
      var t := es[..|es| - 1];
      WithEdgesDefined(g, m, t);
      assert forall k :: 0 <= k < |t| ==> es[k] == t[k];
      var r := WithEdges(g, m, t);
      if r.Some? {
        assert forall a :: BlockNodeAt(r.value, m, a) == BlockNodeAt(g, m, a);
      }
    }
  }

  /** Once a prefix of the edges fails, all of them fail. */
  lemma {:induction false} WithEdgesPrefixNone(g: Graph, m: BlockMap, es: seq<CfgEdge>, i: nat)
    requires i <= |es| && WithEdges(g, m, es[..i]).None?
    ensures WithEdges(g, m, es).None?
    decreases |es| - i
  {
    if i < |es| {
      assert es[..i + 1][..i] == es[..i];
      WithEdgesPrefixNone(g, m, es, i + 1);
    } else {
      assert es[..i] == es;
    }
  }

  /** The graph nodes of the first `i` blocks of the map. */
  function NodesUpTo(m: BlockMap, i: nat): set<Node>
    requires i <= |m|
  {
    set k | 0 <= k < i :: m[k].1.node
  }

  lemma NodesUpToNext(m: BlockMap, i: nat)
    requires i < |m|
    ensures NodesUpTo(m, i + 1) == NodesUpTo(m, i) + {m[i].1.node}
  {
    assert m[i].1.node in NodesUpTo(m, i + 1);
  }

  /** The addresses still waiting in the worklist. */
  function WorkSet(wl: seq<nat>): set<nat> {
    set k | 0 <= k < |wl| :: wl[k]
  }

  lemma WorkSetSnoc(wl: seq<nat>, more: seq<nat>)
    ensures WorkSet(wl + more) == WorkSet(wl) + WorkSet(more)
  {
    var w := wl + more;
    forall x | x in WorkSet(w)
      ensures x in WorkSet(wl) + WorkSet(more)
    {
      var k :| 0 <= k < |w| && w[k] == x;
      if k >= |wl| {
        assert more[k - |wl|] == x;
      }
    }
    forall x | x in WorkSet(wl) + WorkSet(more)
      ensures x in WorkSet(w)
    {
      if x in WorkSet(wl) {
        var k :| 0 <= k < |wl| && wl[k] == x;
        assert w[k] == x;
      } else {
        var k :| 0 <= k < |more| && more[k] == x;
        assert w[|wl| + k] == x;
      }
    }
  }

  lemma WorkSetPrefix(w0: seq<nat>, wl: seq<nat>)
    requires |w0| <= |wl| && wl[..|w0|] == w0
    ensures WorkSet(w0) <= WorkSet(wl)
  {
    forall x | x in WorkSet(w0)
      ensures x in WorkSet(wl)
    {
      var k :| 0 <= k < |w0| && w0[k] == x;
      assert wl[k] == x;
    }
  }

  lemma WorkSetPop(wl: seq<nat>)
    requires |wl| > 0
    ensures WorkSet(wl) == WorkSet(wl[..|wl| - 1]) + {wl[|wl| - 1]}
  {
    assert wl == wl[..|wl| - 1] + [wl[|wl| - 1]];
    WorkSetSnoc(wl[..|wl| - 1], [wl[|wl| - 1]]);
    assert WorkSet([wl[|wl| - 1]]) == {wl[|wl| - 1]} by {
      assert [wl[|wl| - 1]][0] == wl[|wl| - 1];
    }
  }

  /** Every endpoint of the deferred edges lies in `ks`. */
  predicate Covered(ks: set<nat>, es: seq<CfgEdge>) {
    forall k :: 0 <= k < |es| ==> es[k].src in ks && es[k].dst in ks
  }

  lemma CoveredMono(ks: set<nat>, ks2: set<nat>, es: seq<CfgEdge>)
    requires Covered(ks, es) && ks <= ks2
    ensures Covered(ks2, es)
  {
  }

  lemma CoveredAppend(ks: set<nat>, a: seq<CfgEdge>, b: seq<CfgEdge>)
    requires Covered(ks, a) && Covered(ks, b)
    ensures Covered(ks, a + b)
  {
    assert forall k :: 0 <= k < |a + b| ==> (a + b)[k] == if k < |a| then a[k] else b[k - |a|];
  }

  /** The edges of a jump scan lead from the block to the queued targets. */
  lemma JumpsCovered(ks: set<nat>, bbstart: nat, ts: seq<nat>, es: seq<CfgEdge>)
    requires |ts| == |es| && forall k :: 0 <= k < |es| ==> es[k] == CfgEdge(bbstart, ts[k], es[k].tag)
    requires bbstart in ks && WorkSet(ts) <= ks
    ensures Covered(ks, es)
  {
    forall k | 0 <= k < |es|
      ensures es[k].dst in ks
    {
      assert ts[k] in WorkSet(ts);
    }
  }

  /** `s1` is `s0` with instructions appended. */
  predicate OnlyAdded(s0: seq<MInst>, s1: seq<MInst>) {
    |s0| <= |s1| && s1[..|s0|] == s0
  }

  lemma OnlyAddedTrans(s0: seq<MInst>, s1: seq<MInst>, s2: seq<MInst>)
    requires OnlyAdded(s0, s1) && OnlyAdded(s1, s2)
    ensures OnlyAdded(s0, s2)
  {
    assert s2[..|s0|] == s2[..|s1|][..|s0|];
  }

  lemma OnlyAddedInit(s0: seq<MInst>, s1: seq<MInst>)
    requires |s1| > 0 && OnlyAdded(s0, s1[..|s1| - 1])
    ensures OnlyAdded(s0, s1)
  {
    assert s1[..|s0|] == s1[..|s1| - 1][..|s0|];
  }

  /** The instructions appended after `s0` are constants and comparisons
      (what materialising internal variables emits). */
  predicate ParamsAdded(s0: seq<MInst>, s1: seq<MInst>) {
    OnlyAdded(s0, s1) && forall k :: |s0| <= k < |s1| ==> s1[k].opcode.OpConst? || s1[k].opcode == OpCmp
  }

  /** A value `get_param` hands back unchanged. */
  predicate Plain(v: MVal) {
    v.valType != Internal
  }

  /** The operands a binary operation pops: the top, the value below it,
      and what remains. */
  function BinaryOperands(s: seq<MVal>): (r: Option<(MVal, MVal, seq<MVal>)>)
    ensures r.Some? <==> |s| >= 2
  {
    if |s| < 2 then None else Some((s[|s| - 1], s[|s| - 2], s[..|s| - 2]))
  }

  /** The stack `++`/`--` prepare, as written: the constant 1 is inserted
      two places below the top, which fails on a single operand. */
  function IncDecStackAsWritten(s: seq<MVal>, one: MVal): Option<seq<MVal>> {
    if |s| < 2 then None else Some(s[..|s| - 2] + [one] + s[|s| - 2..])
  }

  /** As written, `x,++` on a stack holding `w` below `x` combines `x` with
      `w` and leaves the constant behind, and on `x` alone it fails. */
  lemma IncDecAsWrittenMisses(w: MVal, x: MVal, one: MVal)
    ensures IncDecStackAsWritten([x], one).None?
    ensures BinaryOperands(IncDecStackAsWritten([w, x], one).value) == Some((x, w, [one]))
  {
    assert [w, x][..0] + [one] + [w, x][0..] == [one, w, x];
    assert [one, w, x][..1] == [one];
  }

  /** The stack `++`/`--` are meant to prepare: the constant 1 directly
      below the top, so the operation combines the top with 1. */
  function IncDecStack(s: seq<MVal>, one: MVal): (r: Option<seq<MVal>>)
    ensures r.Some? <==> |s| >= 1
    ensures r.Some? ==> |r.value| == |s| + 1
  {
    if |s| < 1 then None else Some(s[..|s| - 1] + [one] + s[|s| - 1..])
  }

  lemma IncDecOperands(s: seq<MVal>, one: MVal)
    requires |s| >= 1
    ensures BinaryOperands(IncDecStack(s, one).value) == Some((s[|s| - 1], one, s[..|s| - 1]))
  {
    var t := IncDecStack(s, one).value;
    assert t == s[..|s| - 1] + [one, s[|s| - 1]];
    assert t[..|t| - 2] == s[..|s| - 1];
  }

  /** What a binary operation leaves behind: the two values on top of `s1`
      are replaced by `v`, the destination of `li` (see `BinaryInst`). */
  predicate BinaryDone(op: MOpcode, s1: seq<MVal>, s2: seq<MVal>, li: MInst) {
    |s1| >= 2 && |s2| == |s1| - 1 &&
    var n := |s1|;
    var v := s2[n - 2];
    s2[..n - 2] == s1[..n - 2] && BinaryInst(op, s1, li) && v == li.dst.(node := v.node)
  }

  /** The instruction a binary operation on the stack `s1` emits: `op` into
      a Temporary, its operands and result of one width; operands
      `get_param` hands back unchanged keep their order (the top first) and
      the wider of them is used as it is. */
  predicate BinaryInst(op: MOpcode, s1: seq<MVal>, li: MInst)
    requires |s1| >= 2
  {
    var n := |s1|;
    var top, below := s1[n - 1], s1[n - 2];
    li.opcode == op && li.dst.valType == Temporary &&
    li.dst.size == li.operand1.size && li.operand2.size == li.operand1.size &&
    (Plain(top) && Plain(below) ==>
       li.dst.size == Max(top.size, below.size) &&
       (top.size >= below.size ==> li.operand1 == top) &&
       (below.size >= top.size ==> li.operand2 == below))
  }

  /** What `++`/`--` leave behind: the top of `s0` is replaced by `v`, the
      destination of `li`, which combines the top (when `get_param` hands
      it back unchanged) with the constant `one` at their common width. */
  predicate IncDecShape(s0: seq<MVal>, one: MVal, s2: seq<MVal>, li: MInst) {
    |s0| >= 1 && |s2| == |s0| &&
    var n := |s0|;
    var top, v := s0[n - 1], s2[n - 1];
    s2[..n - 1] == s0[..n - 1] &&
    li.dst.valType == Temporary && v == li.dst.(node := v.node) &&
    (Plain(top) ==> li.dst.size == Max(top.size, one.size)) &&
    (Plain(top) && top.size >= one.size ==> li.operand1 == top) &&
    (Plain(top) && one.size >= top.size ==> li.operand2 == one)
  }

  /** What a binary operation leaves once its first operand `top` has been
      popped: the value below it in `s1` is replaced by `v`, the destination
      of `li`, and an operand `get_param` hands back unchanged is used as it
      is when it is the wider one. */
  predicate PoppedDone(op: MOpcode, top: MVal, s1: seq<MVal>, s2: seq<MVal>, li: MInst) {
    |s1| >= 1 && |s2| == |s1| &&
    var n := |s1|;
    var below, v := s1[n - 1], s2[n - 1];
    s2[..n - 1] == s1[..n - 1] &&
    li.opcode == op && li.dst.valType == Temporary &&
    li.dst.size == li.operand1.size && li.operand2.size == li.operand1.size &&
    v == li.dst.(node := v.node) &&
    (Plain(below) ==>
       li.dst.size == Max(top.size, below.size) &&
       (top.size >= below.size ==> li.operand1 == top) &&
       (below.size >= top.size ==> li.operand2 == below))
  }

  /** Popping the top and then finishing the operation on what remains is
      the whole binary operation. */
  lemma PoppedBinary(op: MOpcode, s0: seq<MVal>, top: MVal, s2: seq<MVal>, li: MInst)
    requires |s0| >= 1 && (Plain(s0[|s0| - 1]) ==> top == s0[|s0| - 1])
    requires PoppedDone(op, top, s0[..|s0| - 1], s2, li)
    ensures BinaryDone(op, s0, s2, li)
  {
    var n := |s0|;
    assert s0[..n - 1][..n - 2] == s0[..n - 2];
  }

  /** What a unary operation leaves on the stack `s0`: the top is popped
      and is the operand of `li` when `get_param` hands it back unchanged;
      `if` only records the instruction, and every other operation pushes
      `v`, the destination of `li`, a Temporary of the operand's width. */
  predicate UnaryDone(op: MOpcode, s0: seq<MVal>, s2: seq<MVal>, li: MInst) {
    |s0| >= 1 &&
    var n := |s0|;
    var top := s0[n - 1];
    li.opcode == op && li.operand2 == NullVal() && (Plain(top) ==> li.operand1 == top) &&
    |s2| == n - (if op == OpIf then 1 else 0) && s2[..n - 1] == s0[..n - 1] &&
    (op == OpIf ==> li.dst == NullVal()) &&
    (op != OpIf ==>
       var v := s2[n - 1];
       li.dst.valType == Temporary && li.dst.regInfo.None? && li.dst.size == li.operand1.size &&
       v == li.dst.(node := v.node))
  }

  /** What a unary operation leaves once its operand `x` has been popped,
      leaving `s1`. */
  predicate UnaryPoppedDone(op: MOpcode, x: MVal, s1: seq<MVal>, s2: seq<MVal>, li: MInst) {
    li.opcode == op && li.operand1 == x && li.operand2 == NullVal() &&
    (op == OpIf ==> li.dst == NullVal() && s2 == s1) &&
    (op != OpIf ==>
       |s2| == |s1| + 1 && s2[..|s1|] == s1 &&
       var v := s2[|s1|];
       li.dst.valType == Temporary && li.dst.regInfo.None? && li.dst.size == x.size &&
       v == li.dst.(node := v.node))
  }

  /** Popping the operand and then finishing the operation on what remains
      is the whole unary operation. */
  lemma PoppedUnary(op: MOpcode, s0: seq<MVal>, x: MVal, s2: seq<MVal>, li: MInst)
    requires |s0| >= 1 && (Plain(s0[|s0| - 1]) ==> x == s0[|s0| - 1])
    requires UnaryPoppedDone(op, x, s0[..|s0| - 1], s2, li)
    ensures UnaryDone(op, s0, s2, li)
  {
    var n := |s0|;
    if op != OpIf {
      assert s2[..n - 1] == s2[..n - 1][..n - 1];
    }
  }

  /** The operation `++` and `--` stand for. */
  function IncDecOpcode(op: MOpcode): MOpcode {
    if op == OpInc then OpAdd else OpSub
  }

  /** A binary operation run on the stack `++`/`--` prepare replaces the
      top by the result, which combines the top with the constant. */
  lemma IncDecDone(op: MOpcode, s0: seq<MVal>, one: MVal, s2: seq<MVal>, li: MInst)
    requires |s0| >= 1 && Plain(one)
    requires BinaryDone(op, IncDecStack(s0, one).value, s2, li)
    ensures IncDecShape(s0, one, s2, li) && li.opcode == op
  {
    IncDecOperands(s0, one);
  }

  /** What `add_inst` of an operation that pops its operands leaves: see
      `BinaryDone` and `UnaryDone`. */
  predicate OpDone(op: MOpcode, s0: seq<MVal>, s2: seq<MVal>, li: MInst) {
    (Arity(op) == Binary && op != OpEq ==> BinaryDone(op, s0, s2, li)) &&
    (Arity(op) != Binary && op !in {OpCl, OpInc, OpDec} ==> UnaryDone(op, s0, s2, li))
  }

  /** What a peek `[n]` of width `w` leaves: the address on top of `s0` is
      replaced by `x`, the destination of the last instruction of `ins`,
      which is the load itself or the narrowing of the loaded value to
      `w`; an address `get_param` hands back unchanged fixes the width
      (`ds`, the default width, stands in for a width of 0). */
  predicate PeekDone(w: nat, ds: nat, s0: seq<MVal>, s2: seq<MVal>, ins: seq<MInst>) {
    |s0| >= 1 && |s2| == |s0| && |ins| >= 1 &&
    var n, li := |s0|, ins[|ins| - 1];
    var top, x := s0[n - 1], s2[n - 1];
    s2[..n - 1] == s0[..n - 1] && x.valType == Temporary && x == li.dst.(node := x.node) &&
    (li.opcode == OpLoad ||
     (|ins| >= 2 && li.opcode == OpNarrow(w) && ins[|ins| - 2].opcode == OpLoad &&
      li.operand1 == ins[|ins| - 2].dst.(node := li.operand1.node))) &&
    (Plain(top) ==> x.size == if top.size <= w then top.size else if w == 0 then ds else w)
  }

  /** The load (stack `s0` to `s1`, instructions up to `i1`) followed by
      the narrowing of its result gives `PeekDone`. */
  lemma PeekSteps(w: nat, ds: nat, s0: seq<MVal>, s1: seq<MVal>, s2: seq<MVal>, i1: seq<MInst>, i2: seq<MInst>)
    requires |s0| >= 1 && |i1| >= 1 && UnaryDone(OpLoad, s0, s1, i1[|i1| - 1])
    requires |s2| == |s1| && s2[..|s1| - 1] == s1[..|s1| - 1] && OnlyAdded(i1, i2)
    requires var y, x := s1[|s1| - 1], s2[|s2| - 1];
      x.valType == Temporary &&
      x.size == (if y.size <= w then y.size else if w == 0 then ds else w) &&
      (y.size <= w ==> x == y && i2 == i1) &&
      (y.size > w ==>
         |i2| == |i1| + 1 && i2[|i2| - 1].opcode == OpNarrow(w) &&
         i2[|i2| - 1].operand1 == y && x == i2[|i2| - 1].dst.(node := x.node))
    ensures PeekDone(w, ds, s0, s2, i2)
  {
    var n := |s0|;
    assert s1[..n - 1] == s0[..n - 1];
    if |i2| > |i1| {
      assert i2[|i2| - 2] == i2[..|i1|][|i1| - 1];
    }
  }

  /** What `<op>=` leaves on the stack `s0`, with `opi` the instruction of
      `op` and `asg` the assignment after it: a binary operation combines
      the two values on top and a unary one the top, and the assignment
      reads the operation's result. (`?{`, `}`, `++`, `--` and `=` are not
      described.) */
  predicate CompoundDone(op: MOpcode, s0: seq<MVal>, s2: seq<MVal>, opi: MInst, asg: MInst) {
    |s0| >= 1 &&
    var n := |s0|;
    (Arity(op) == Binary && op != OpEq ==>
       n >= 2 && s2 == s0[..n - 2] && BinaryInst(op, s0, opi) &&
       asg.operand1 == opi.dst.(node := asg.operand1.node)) &&
    (Arity(op) != Binary && op !in {OpCl, OpInc, OpDec, OpIf} ==>
       s2 == s0[..n - 1] && opi.opcode == op && (Plain(s0[n - 1]) ==> opi.operand1 == s0[n - 1]) &&
       asg.operand1 == opi.dst.(node := asg.operand1.node))
  }

  /** The operation of `<op>=` (stack `s0` to `s1`, instructions up to
      `i1`) followed by the assignment of its result, the new top (stack
      `s2`, instructions up to `i2`), gives `CompoundDone`. */
  lemma CompoundSteps(op: MOpcode, s0: seq<MVal>, s1: seq<MVal>, s2: seq<MVal>, i1: seq<MInst>, i2: seq<MInst>)
    requires |s0| >= 1 && |s1| >= 1 && s2 == s1[..|s1| - 1] && |i1| >= 1 && OnlyAdded(i1, i2) && |i2| > |i1|
    requires OpDone(op, s0, s1, i1[|i1| - 1])
    requires Plain(s1[|s1| - 1]) ==> |i2| == |i1| + 1 && i2[|i2| - 1].operand1 == s1[|s1| - 1]
    ensures |i2| >= 2 && CompoundDone(op, s0, s2, i2[|i2| - 2], i2[|i2| - 1])
  {
    var n := |s0|;
    if Arity(op) == Binary && op != OpEq {
      assert i2[|i2| - 2] == i2[..|i1|][|i1| - 1];
      assert s1[..n - 2] == s0[..n - 2];
    } else if Arity(op) != Binary && op !in {OpCl, OpInc, OpDec, OpIf} {
      assert i2[|i2| - 2] == i2[..|i1|][|i1| - 1];
      assert s1[..n - 1] == s0[..n - 1];
    }
  }

  /** The instruction an assignment of `op1` to `dst` ends with: a jump
      (or call) for the program counter, the assignment itself between
      equal widths, and otherwise the widening or narrowing cast, which
      then writes `dst` directly. */
  function AssignInst(op: MOpcode, dst: MVal, op1: MVal, addr: nat, optype: string): (r: MInst)
    ensures r.operand1 == op1 && r.operand2 == NullVal() && r.addr == addr
    ensures IsPc(dst) ==> r.dst == NullVal() && r.opcode in {OpJmp, OpCall}
    ensures !IsPc(dst) ==> r.dst == dst && (r.opcode == op || r.opcode == OpWiden(dst.size) || r.opcode == OpNarrow(dst.size))
  {
    if IsPc(dst) then MInst(if optype == "call" then OpCall else OpJmp, NullVal(), op1, NullVal(), addr)
    else if op1.size == dst.size then MInst(op, dst, op1, NullVal(), addr)
    else if dst.size > op1.size then MInst(OpWiden(dst.size), dst, op1, NullVal(), addr)
    else MInst(OpNarrow(dst.size), dst, op1, NullVal(), addr)
  }

  // ---------------------------------------------------------------------
  // What `parse_str` makes of one token

  /** The branch of `parse_str` a token takes. */
  datatype Token =
    | OperatorTok(op: MOpcode)              // an opset entry
    | RegisterTok(reg: LRegProfile)         // a register of the profile
    | ConstTok(value: nat)                  // a hexadecimal or decimal literal
    | InternalTok                           // an internal variable such as "%z"
    | Unparsable                            // has a letter but is none of the above
    | EmptyTok                              // the empty token between two commas
    | CompoundTok(captured: Option<string>) // "<op>=", with the operator captured
    | MemoryTok(access: Option<MemAccess>)  // "<op>=[n]" and its shorter forms

  /** The decoder's dispatch: the opset first, then tokens with a letter
      (register, hexadecimal literal, internal variable), then decimal
      literals, then compound tokens, and last memory accesses. */
  function Classify(tok: string, regset: map<string, LRegProfile>): (t: Token)
    ensures t.ConstTok? ==> t.value < U64Modulus
    ensures t.MemoryTok? && t.access.Some? ==> MemShape(tok, t.access.value)
  {
    if MapEsilToOpset(tok).Some? then OperatorTok(MapEsilToOpset(tok).value)
    else if HasAlpha(tok) then
      if tok in regset then RegisterTok(regset[tok])
      else if HexToI(tok).Some? then ConstTok(AsU64(HexToI(tok).value))
      else if tok[0] == '%' then InternalTok
      else Unparsable
    else if FromStrRadix(tok, 10).Some? then ConstTok(AsU64(FromStrRadix(tok, 10).value))
    else if |tok| == 0 then EmptyTok
    else if tok[|tok| - 1] != ']' then CompoundTok(MatchCompound(tok))
    else
      MatchMemSound(tok);
      MemoryTok(MatchMem(tok))
  }

  /** Every register name with a letter in it is read as that register:
      no opset token shadows one. */
  lemma RegistersRecognised(tok: string, regset: map<string, LRegProfile>)
    requires tok in regset && HasAlpha(tok)
    ensures Classify(tok, regset) == RegisterTok(regset[tok])
  {
    if tok in OpsetTokens {
      OpsetTokensShape(tok);
    }
  }

  /** A token reaches the compound or memory branch only if it is no opset
      entry, has no letter and is no decimal literal; the memory branch
      takes exactly the tokens ending in ']'. */
  lemma CompositeTokens(tok: string, regset: map<string, LRegProfile>)
    ensures (Classify(tok, regset).CompoundTok? || Classify(tok, regset).MemoryTok?) <==>
              tok !in OpsetTokens && !HasAlpha(tok) && FromStrRadix(tok, 10).None? && |tok| > 0
    ensures Classify(tok, regset).MemoryTok? <==>
              tok !in OpsetTokens && !HasAlpha(tok) && FromStrRadix(tok, 10).None? && |tok| > 0 && tok[|tok| - 1] == ']'
  {
    var t := Classify(tok, regset);
    var composite := tok !in OpsetTokens && !HasAlpha(tok) && FromStrRadix(tok, 10).None? && |tok| > 0;
    if MapEsilToOpset(tok).Some? {
      assert t.OperatorTok? && !composite;
    } else if HasAlpha(tok) {
      assert !t.CompoundTok? && !t.MemoryTok? && !composite;
    } else if FromStrRadix(tok, 10).Some? {
      assert t.ConstTok? && !composite;
    } else if |tok| == 0 {
      assert t == EmptyTok && !composite;
    } else if tok[|tok| - 1] != ']' {
      assert t.CompoundTok? && composite;
    } else {
      assert t.MemoryTok? && composite;
    }
  }

  /** Decimal literals are read in base ten whatever the register profile. */
  lemma DecimalConstant(tok: string, regset: map<string, LRegProfile>)
    requires tok !in OpsetTokens && FromStrRadix(tok, 10).Some?
    ensures Classify(tok, regset) == ConstTok(AsU64(FromStrRadix(tok, 10).value))
  {
    if HasAlpha(tok) {
      AlphaTokenIsNotDecimal(tok);
    }
  }

  /** The tokens `parse_str` can accept whatever the stack holds: every
      other one makes it fail (an unrecognised token with a letter, an
      empty token, a compound or memory token outside the patterns or with
      an operator the opset does not know). */
  predicate Accepted(t: Token) {
    match t
    case Unparsable => false
    case EmptyTok => false
    case CompoundTok(c) => c.Some? && MapEsilToOpset(c.value).Some?
    case MemoryTok(m) => m.Some? && (m.value.assign && m.value.prefix != "" ==> MapEsilToOpset(m.value.prefix).Some?)
    case _ => true
  }

  /** Every token of the sequence is of an accepted kind. */
  predicate AllAccepted(toks: seq<string>, regset: map<string, LRegProfile>) {
    |toks| == 0 || (AllAccepted(toks[..|toks| - 1], regset) && Accepted(Classify(toks[|toks| - 1], regset)))
  }

  lemma {:induction false} AllAcceptedEach(toks: seq<string>, regset: map<string, LRegProfile>, k: nat)
    requires AllAccepted(toks, regset) && k < |toks|
    ensures Accepted(Classify(toks[k], regset))
  {
    if k < |toks| - 1 {
      AllAcceptedEach(toks[..|toks| - 1], regset, k);
    }
  }

  class Parser {
    var stack: seq<MVal>
    var insts: seq<MInst>
    var allinsts: seq<MInst>
    var tmpIndex: nat
    var lastAssgn: MVal
    var addr: nat
    var optype: string
    var block: Node
    var bbs: BlockMap
    var bbworklist: seq<nat>
    /** The register profile, by register name. */
    const regset: map<string, LRegProfile>
    /** The role of each aliased register (such as "pc"), by register name. */
    const aliasRole: map<string, string>
    const defaultSize: nat
    /** The recursion budget handed to every variable read. */
    const readFuel: nat
    const ssac: SSAConstruction

    ghost predicate Valid()
      reads this`stack, this`lastAssgn, this`bbs, ssac
    {
      ssac.Valid() && StackOk(ssac.g, stack) && ValOk(ssac.g, lastAssgn) && Ordered(bbs)
    }

    constructor (ssac: SSAConstruction, regset: map<string, LRegProfile>, aliasRole: map<string, string>,
                 defaultSize: nat, readFuel: nat)
      requires ssac.Valid()
      ensures Valid()
      ensures this.ssac == ssac && this.regset == regset && this.aliasRole == aliasRole
      ensures this.defaultSize == defaultSize && this.readFuel == readFuel
      ensures stack == [] && insts == [] && allinsts == [] && tmpIndex == 0 && lastAssgn == NullVal()
      ensures addr == 0 && optype == "" && block == End && bbs == [] && bbworklist == []
    {
      this.ssac := ssac;
      this.regset := regset;
      this.aliasRole := aliasRole;
      this.defaultSize := defaultSize;
      this.readFuel := readFuel;
      stack, insts, allinsts, tmpIndex, lastAssgn := [], [], [], 0, NullVal();
      addr, optype, block, bbs, bbworklist := 0, "", End, [], [];
    }

    /** `read_const`: the value of a temporary computed by a constant. */
    function ReadConst(v: MVal): (r: Option<nat>)
      reads ssac
      ensures r.Some? ==> v.valType == Temporary && v.node.Some? && IsNode(ssac.g, v.node.value)
      ensures r.Some? ==> ssac.g.nodes[v.node.value].Op? && ssac.g.nodes[v.node.value].opcode == OpConst(r.value)
    {
      ConstIn(ssac.g, v)
    }

    /** `get_tmp_register`: a fresh temporary; width 0 means the default. */
    method GetTmpRegister(size: nat) returns (v: MVal)
      modifies this`tmpIndex
      ensures tmpIndex == old(tmpIndex) + 1
      ensures v == TmpVal(tmpIndex, if size == 0 then defaultSize else size)
    {
      tmpIndex := tmpIndex + 1;
      var s := if size == 0 then defaultSize else size;
      v := TmpVal(tmpIndex, s);
    }

    /** `process_in`: the graph node an operand stands for. */
    method ProcessIn(b: Node, v: MVal) returns (n: Node)
      requires Valid() && ValOk(ssac.g, v)
      modifies ssac
      ensures Valid() && NodesEvolve(old(ssac.g), ssac.g)
      ensures n == End || Live(ssac.g, n)
      ensures v.valType == Temporary ==> n == v.node.value && ssac.g == old(ssac.g)
      ensures v.valType == Null ==> n == End && ssac.g == old(ssac.g)
      ensures v.valType == Unknown ==>
                n == |old(ssac.g.nodes)| && ssac.g.nodes == old(ssac.g.nodes) + [Comment("Unknown", b)]
      ensures v.valType == Internal ==>
                n == |old(ssac.g.nodes)| && ssac.g.nodes == old(ssac.g.nodes) + [Comment(v.name, b)]
      ensures v.valType == Register && old(ssac.Binding(v.name, b)).Some? && Live(old(ssac.g), old(ssac.Binding(v.name, b)).value) ==>
                n == old(ssac.Binding(v.name, b)).value && ssac.g == old(ssac.g)
    {
      ghost var g0 := ssac.g;
      match v.valType
      case Register =>
        n := ssac.ReadVariable(b, v.name, readFuel);
      case Temporary =>
        n := v.node.value;
      case Unknown =>
        n := ssac.AddComment(b, "Unknown");
      case Internal =>
        n := ssac.AddComment(b, v.name);
      case Null =>
        n := End;
      StackEvolve(g0, ssac.g, stack);
      ValEvolve(g0, ssac.g, lastAssgn);
    }

    /** `process_op`: an assignment forwards its source; any other
        operation becomes a node using both operands. */
    method ProcessOp(b: Node, opc: MOpcode, n0: Node, n1: Node) returns (nn: Node)
      requires Valid() && (n0 == End || Live(ssac.g, n0)) && (n1 == End || Live(ssac.g, n1))
      modifies ssac`g
      ensures Valid() && NodesEvolve(old(ssac.g), ssac.g)
      ensures nn == End || Live(ssac.g, nn)
      ensures opc == OpEq ==> nn == n0 && ssac.g == old(ssac.g)
      ensures opc != OpEq ==>
                (nn == |old(ssac.g.nodes)| &&
                 ssac.g == OpUse(OpUse(AddNode(old(ssac.g), Op(opc, 64, b)).0, nn, 0, n0), nn, 1, n1))
    {
      if opc == OpEq {
        return n0;
      }
      ghost var g0 := ssac.g;
      nn := ssac.AddOp(b, opc, 64);
      ssac.OpUseEdge(nn, 0, n0);
      ghost var g1 := ssac.g;
      ssac.OpUseEdge(nn, 1, n1);
      EvolveTrans(g0, g1, ssac.g);
      StackEvolve(g0, ssac.g, stack);
      ValEvolve(g0, ssac.g, lastAssgn);
    }

    /** `process_out`: only a register destination is recorded. */
    method ProcessOut(b: Node, dst: MVal, value: Node)
      requires Valid() && Ref(ssac.g, value)
      modifies ssac`currentDef, ssac`globalVariables
      ensures Valid()
      ensures dst.valType == Register ==> ssac.Binding(dst.name, b) == Some(value)
      ensures dst.valType != Register ==>
                ssac.currentDef == old(ssac.currentDef) && ssac.globalVariables == old(ssac.globalVariables)
    {
      if dst.valType == Register {
        ssac.WriteVariable(b, dst.name, value);
      }
    }

    /** The two `process_in` calls of `push_inst`, first operand first. */
    method ReadOperands(b: Node, op1: MVal, op2: MVal) returns (n0: Node, n1: Node)
      requires Valid() && ValOk(ssac.g, op1) && ValOk(ssac.g, op2)
      modifies ssac
      ensures Valid() && NodesEvolve(old(ssac.g), ssac.g)
      ensures (n0 == End || Live(ssac.g, n0)) && (n1 == End || Live(ssac.g, n1))
      ensures op1.valType == Temporary ==> n0 == op1.node.value
      ensures op2.valType == Temporary ==> n1 == op2.node.value
    {
      ghost var g0 := ssac.g;
      n0 := ProcessIn(b, op1);
      ValEvolve(g0, ssac.g, op2);
      ghost var g1 := ssac.g;
      n1 := ProcessIn(b, op2);
      EvolveTrans(g0, g1, ssac.g);
      if n0 != End && !Live(ssac.g, n0) {
        // a phi read for the first operand was removed while the second
        // was read: use its replacement
        n0 := ssac.Resolve(n0);
      }
      if op1.valType == Temporary {
        assert Evolved(g1.nodes[op1.node.value], ssac.g.nodes[op1.node.value]);
      }
    }

    /** `push_inst`: the instruction is recorded and fed into the graph;
        the result is its destination as a temporary naming the node that
        computes it. */
    method PushInst(inst: MInst) returns (v: MVal)
      requires Valid() && ValOk(ssac.g, inst.operand1) && ValOk(ssac.g, inst.operand2)
      modifies this`insts, ssac
      ensures Valid() && NodesEvolve(old(ssac.g), ssac.g)
      ensures insts == old(insts) + [inst]
      ensures v.node.Some? && v == inst.dst.(node := v.node, valType := Temporary)
      ensures inst.opcode != OpEq ==> ValOk(ssac.g, v) && ssac.g.nodes[v.node.value] == Op(inst.opcode, 64, block)
      ensures inst.opcode == OpEq && inst.operand1.valType == Temporary ==> v.node == inst.operand1.node
      ensures inst.dst.valType == Register ==> ssac.Binding(inst.dst.name, block) == v.node
    {
      insts := insts + [inst];
      var b := block;
      ghost var g0 := ssac.g;
      var n0, n1 := ReadOperands(b, inst.operand1, inst.operand2);
      ghost var g1 := ssac.g;
      var nn := ProcessOp(b, inst.opcode, n0, n1);
      ProcessOut(b, inst.dst, nn);
      EvolveTrans(g0, g1, ssac.g);
      v := inst.dst.(node := Some(nn), valType := Temporary);
    }
 
    /** `constant_value`: a constant operation of the default width. */
    method ConstantValue(num: nat) returns (v: MVal)
      requires Valid()
      modifies this`tmpIndex, this`insts, ssac
      ensures Valid() && NodesEvolve(old(ssac.g), ssac.g)
      ensures tmpIndex == old(tmpIndex) + 1
      ensures insts == old(insts) + [MInst(OpConst(num), TmpVal(tmpIndex, defaultSize), NullVal(), NullVal(), addr)]
      ensures ValOk(ssac.g, v) && v.valType == Temporary && v.size == defaultSize
      ensures ReadConst(v) == Some(num)
    {
      var dst := GetTmpRegister(defaultSize);
      if defaultSize == 0 {
        assert dst == TmpVal(tmpIndex, 0);
      }
      v := PushInst(MInst(OpConst(num), dst, NullVal(), NullVal(), addr));
    }

    /** `add_widen_inst`: an operand narrower than `size` is widened. */
    method AddWidenInst(op: MVal, size: nat) returns (r: MVal)
      requires Valid() && ValOk(ssac.g, op)
      modifies this`tmpIndex, this`insts, ssac
      ensures Valid() && NodesEvolve(old(ssac.g), ssac.g)
      ensures op.size >= size ==>
                r == op && insts == old(insts) && tmpIndex == old(tmpIndex) && ssac.g == old(ssac.g)
      ensures op.size < size ==>
                tmpIndex == old(tmpIndex) + 1 &&
                insts == old(insts) + [MInst(OpWiden(size), TmpVal(tmpIndex, size), op, NullVal(), addr)] &&
                r.valType == Temporary && r.size == size && ValOk(ssac.g, r)
      ensures r.size == Max(op.size, size) && ValOk(ssac.g, r) && (op.valType != Null ==> r.valType != Null)
    {
      if op.size >= size {
        return op;
      }
      var dst := GetTmpRegister(size);
      r := PushInst(MInst(OpWiden(size), dst, op, NullVal(), addr));
    }

    /** `add_narrow_inst`: an operand wider than `size` is narrowed; the
        temporary of a narrowing to width 0 gets the default width. */
    method AddNarrowInst(op: MVal, size: nat) returns (r: MVal)
      requires Valid() && ValOk(ssac.g, op)
      modifies this`tmpIndex, this`insts, ssac
      ensures Valid() && NodesEvolve(old(ssac.g), ssac.g)
      ensures op.size <= size ==>
                r == op && insts == old(insts) && tmpIndex == old(tmpIndex) && ssac.g == old(ssac.g)
      ensures op.size > size ==>
                var w := if size == 0 then defaultSize else size;
                tmpIndex == old(tmpIndex) + 1 &&
                insts == old(insts) + [MInst(OpNarrow(size), TmpVal(tmpIndex, w), op, NullVal(), addr)] &&
                r.valType == Temporary && r.regInfo.None? && r.size == w && ValOk(ssac.g, r) &&
                r == insts[|insts| - 1].dst.(node := r.node)
      ensures ValOk(ssac.g, r) && (op.valType != Null ==> r.valType != Null)
    {
      if op.size <= size {
        return op;
      }
      var dst := GetTmpRegister(size);
      r := PushInst(MInst(OpNarrow(size), dst, op, NullVal(), addr));
    }

    /** The zero flag `%z`: a one-bit comparison of the last assigned
        register with the constant 0. */
    method ZeroFlag() returns (z: MVal)
      requires Valid()
      modifies this`tmpIndex, this`insts, ssac
      ensures Valid() && NodesEvolve(old(ssac.g), ssac.g)
      ensures ValOk(ssac.g, z) && z.size == 1 && z.valType == Temporary
      ensures |insts| == |old(insts)| + 2 && insts[..|old(insts)|] == old(insts)
      ensures insts[|old(insts)|].opcode == OpConst(0)
      ensures var cmp := insts[|insts| - 1];
        cmp.opcode == OpCmp && cmp.dst == TmpVal(old(tmpIndex) + 1, 1) &&
        cmp.operand1 == old(lastAssgn) && ReadConst(cmp.operand2) == Some(0)
    {
      var dst := GetTmpRegister(1);
      var a := lastAssgn;
      var zero := ConstantValue(0);
      ghost var g1 := ssac.g;
      ghost var i1 := insts;
      z := PushInst(MInst(OpCmp, dst, a, zero, addr));
      assert insts[..|old(insts)|] == i1[..|old(insts)|];
      ValEvolve(g1, ssac.g, zero);
      assert ssac.g.nodes[zero.node.value] == g1.nodes[zero.node.value] by {
        assert Evolved(g1.nodes[zero.node.value], ssac.g.nodes[zero.node.value]);
      }
    }

    /** `get_param`: pops an operand; the internal variables "%%" (the
        instruction address) and "%z" (the zero flag of the last
        assignment) are materialised first. */
    method GetParam() returns (r: Option<MVal>)
      requires Valid()
      modifies this`stack, this`tmpIndex, this`insts, ssac
      ensures Valid() && NodesEvolve(old(ssac.g), ssac.g)
      ensures r.None? <==> |old(stack)| == 0
      ensures r.None? ==> stack == old(stack) && insts == old(insts)
      ensures ParamsAdded(old(insts), insts) && lastAssgn == old(lastAssgn)
      ensures r.Some? ==> stack == old(stack)[..|old(stack)| - 1]
      ensures r.Some? ==> ValOk(ssac.g, r.value) && r.value.valType != Null
      ensures r.Some? ==> var top := old(stack)[|old(stack)| - 1];
        if top.valType == Internal && SecondChar(top.name) == '%' then
          ReadConst(r.value) == Some(addr) && |insts| == |old(insts)| + 1
        else if top.valType == Internal && SecondChar(top.name) == 'z' then
          r.value.size == 1 && r.value.valType == Temporary && |insts| == |old(insts)| + 2 &&
          (var cmp := insts[|insts| - 1];
           cmp.opcode == OpCmp && cmp.dst == TmpVal(old(tmpIndex) + 1, 1) &&
           cmp.operand1 == old(lastAssgn) && ReadConst(cmp.operand2) == Some(0))
        else
          r.value == top && insts == old(insts) && tmpIndex == old(tmpIndex)
    {
      if |stack| == 0 {
        return None;
      }
      var mv := stack[|stack| - 1];
      stack := stack[..|stack| - 1];
      if mv.valType == Internal && SecondChar(mv.name) == '%' {
        var c := ConstantValue(addr);
        return Some(c);
      } else if mv.valType == Internal && SecondChar(mv.name) == 'z' {
        var z := ZeroFlag();
        return Some(z);
      }
      return Some(mv);
    }
 
    /** `add_assign_inst`: assigns the value below the top of the stack to
        the top (see `AssignInst`). */
    method AddAssignInst(op: MOpcode) returns (res: Result<()>)
      requires Valid()
      modifies this`stack, this`tmpIndex, this`insts, this`lastAssgn, ssac
      ensures Valid() && NodesEvolve(old(ssac.g), ssac.g)
      ensures |old(stack)| == 0 ==> res == Err(InsufficientOperands) && stack == old(stack) && insts == old(insts)
      ensures |old(stack)| == 1 ==> res == Err(InsufficientOperands) && stack == [] && insts == old(insts)
      ensures |old(stack)| >= 2 ==> res == Ok(()) && stack == old(stack)[..|old(stack)| - 2] && |insts| > |old(insts)|
      ensures |old(stack)| >= 2 ==>
                var dst := old(stack)[|old(stack)| - 1];
                var src := old(stack)[|old(stack)| - 2];
                var li := insts[|insts| - 1];
                ParamsAdded(old(insts), insts[..|insts| - 1]) &&
                li == AssignInst(op, dst, li.operand1, addr, optype) &&
                (Plain(src) ==> li.operand1 == src && |insts| == |old(insts)| + 1) &&
                lastAssgn == (if !IsPc(dst) && dst.valType == Register then dst else old(lastAssgn))
    {
      if |stack| == 0 {
        return Err(InsufficientOperands);
      }
      var dst := stack[|stack| - 1];
      stack := stack[..|stack| - 1];
      res := AssignFrom(op, dst);
    }

    /** `add_assign_inst` once the destination is popped. */
    method AssignFrom(op: MOpcode, dst: MVal) returns (res: Result<()>)
      requires Valid()
      modifies this`stack, this`tmpIndex, this`insts, this`lastAssgn, ssac
      ensures Valid() && NodesEvolve(old(ssac.g), ssac.g)
      ensures |old(stack)| == 0 ==> res == Err(InsufficientOperands) && stack == old(stack) && insts == old(insts)
      ensures |old(stack)| >= 1 ==> res == Ok(()) && stack == old(stack)[..|old(stack)| - 1] && |insts| > |old(insts)|
      ensures |old(stack)| >= 1 ==>
                var src := old(stack)[|old(stack)| - 1];
                var li := insts[|insts| - 1];
                ParamsAdded(old(insts), insts[..|insts| - 1]) &&
                li == AssignInst(op, dst, li.operand1, addr, optype) &&
                (Plain(src) ==> li.operand1 == src && |insts| == |old(insts)| + 1) &&
                lastAssgn == (if !IsPc(dst) && dst.valType == Register then dst else old(lastAssgn))
    {
      var p := GetParam();
      if p.None? {
        return Err(InsufficientOperands);
      }
      ghost var i1 := insts;
      AssignValue(op, dst, p.value);
      assert insts[..|insts| - 1] == i1;
      res := Ok(());
    }

    /** `add_assign_inst` once both operands are at hand. */
    method AssignValue(op: MOpcode, dst: MVal, op1: MVal)
      requires Valid() && ValOk(ssac.g, op1)
      modifies this`tmpIndex, this`insts, this`lastAssgn, ssac
      ensures Valid() && NodesEvolve(old(ssac.g), ssac.g)
      ensures insts == old(insts) + [AssignInst(op, dst, op1, addr, optype)]
      ensures lastAssgn == (if !IsPc(dst) && dst.valType == Register then dst else old(lastAssgn))
    {
      if IsPc(dst) {
        var j := if optype == "call" then OpCall else OpJmp;
        var _ := PushInst(MInst(j, NullVal(), op1, NullVal(), addr));
        return;
      }
      if dst.valType == Register {
        lastAssgn := dst;
      }
      if dst.size == op1.size {
        var _ := PushInst(MInst(op, dst, op1, NullVal(), addr));
        return;
      }
      var c;
      if dst.size > op1.size {
        c := AddWidenInst(op1, dst.size);
      } else {
        c := AddNarrowInst(op1, dst.size);
      }
      var last := insts[|insts| - 1];
      insts := insts[..|insts| - 1] + [last.(dst := dst)];
    }
 
    /** Brings a binary operation's operands to a common width by widening
        the narrower one. */
    method Equalize(op2: MVal, op1: MVal) returns (a: MVal, b: MVal)
      requires Valid() && ValOk(ssac.g, op2) && ValOk(ssac.g, op1) && op2.valType != Null
      modifies this`tmpIndex, this`insts, ssac
      ensures Valid() && NodesEvolve(old(ssac.g), ssac.g)
      ensures OnlyAdded(old(insts), insts) && |insts| <= |old(insts)| + 1
      ensures ValOk(ssac.g, a) && ValOk(ssac.g, b) && a.valType != Null
      ensures a.size == Max(op1.size, op2.size) && b.size == a.size
      ensures op2.size >= op1.size ==> a == op2
      ensures op1.size >= op2.size ==> b == op1
    {
      a, b := op2, op1;
      if op1.size > op2.size {
        a := AddWidenInst(op2, op1.size);
        ValEvolve(old(ssac.g), ssac.g, b);
      } else if op2.size > op1.size {
        b := AddWidenInst(op1, op2.size);
        ValEvolve(old(ssac.g), ssac.g, a);
      }
    }

    /** The general case of `add_inst` once the operands are popped: the
        operation writes a fresh temporary as wide as its widest operand,
        which is pushed (and becomes the flags source after a
        comparison). */
    method Operate(op: MOpcode, op2: MVal, op1: MVal) returns (v: MVal)
      requires Valid() && ValOk(ssac.g, op2) && ValOk(ssac.g, op1) && op2.valType != Null
      requires Arity(op) != Binary ==> op1 == NullVal()
      requires op != OpEq
      modifies this`stack, this`tmpIndex, this`insts, this`lastAssgn, ssac
      ensures Valid() && NodesEvolve(old(ssac.g), ssac.g)
      ensures OnlyAdded(old(insts), insts) && |insts| > |old(insts)| && stack == old(stack) + [v]
      ensures Arity(op) != Binary ==> |insts| == |old(insts)| + 1
      ensures var li := insts[|insts| - 1];
        var w := Max(op1.size, op2.size);
        li.opcode == op && li.dst == TmpVal(old(tmpIndex) + 1, w) && li.operand1.size == w &&
        (Arity(op) == Binary ==> li.operand2.size == w) && (Arity(op) != Binary ==> li.operand2 == NullVal()) &&
        (op2.size >= op1.size ==> li.operand1 == op2) && (op1.size >= op2.size ==> li.operand2 == op1) &&
        v == li.dst.(node := v.node) && ValOk(ssac.g, v) && ssac.g.nodes[v.node.value] == Op(op, 64, block)
      ensures lastAssgn == (if op == OpCmp then v else old(lastAssgn))
    {
      var w := Max(op1.size, op2.size);
      var dst := GetTmpRegister(w);
      var a, b := op2, op1;
      if Arity(op) == Binary {
        a, b := Equalize(op2, op1);
      }
      ghost var i1 := insts;
      v := PushInst(MInst(op, dst.(size := w), a, b, addr));
      assert insts[..|old(insts)|] == i1[..|old(insts)|];
      StackEvolve(old(ssac.g), ssac.g, stack);
      stack := stack + [v];
      if op == OpCmp {
        lastAssgn := v;
      }
    }

    /** `add_inst` for a unary operation without a special case (`if`
        among them): one operand is popped. */
    method AddUnary(op: MOpcode) returns (res: Result<()>)
      requires Valid() && Arity(op) != Binary && op !in {OpCl, OpInc, OpDec}
      modifies this`stack, this`tmpIndex, this`insts, this`lastAssgn, ssac
      ensures Valid() && NodesEvolve(old(ssac.g), ssac.g) && OnlyAdded(old(insts), insts)
      ensures lastAssgn == old(lastAssgn)
      ensures res.Err? <==> |old(stack)| == 0
      ensures res.Err? ==> res.error == InsufficientOperands && insts == old(insts) && stack == old(stack)
      ensures res.Ok? ==> |insts| > |old(insts)| && UnaryDone(op, old(stack), stack, insts[|insts| - 1])
      ensures res.Ok? && Plain(old(stack)[|old(stack)| - 1]) ==> |insts| == |old(insts)| + 1
      ensures res.Ok? && op != OpIf ==>
        var v := stack[|stack| - 1];
        ValOk(ssac.g, v) && ssac.g.nodes[v.node.value] == Op(op, 64, block)
    {
      var p := GetParam();
      if p.None? {
        return Err(InsufficientOperands);
      }
      ghost var g1, i1 := ssac.g, insts;
      UnaryWith(op, p.value);
      EvolveTrans(old(ssac.g), g1, ssac.g);
      OnlyAddedTrans(old(insts), i1, insts);
      PoppedUnary(op, old(stack), p.value, stack, insts[|insts| - 1]);
      res := Ok(());
    }

    /** A unary operation once its operand `x` is popped. */
    method UnaryWith(op: MOpcode, x: MVal)
      requires Valid() && Arity(op) != Binary && op !in {OpCl, OpInc, OpDec}
      requires ValOk(ssac.g, x) && x.valType != Null
      modifies this`stack, this`tmpIndex, this`insts, this`lastAssgn, ssac
      ensures Valid() && NodesEvolve(old(ssac.g), ssac.g) && OnlyAdded(old(insts), insts)
      ensures lastAssgn == old(lastAssgn) && |insts| == |old(insts)| + 1
      ensures UnaryPoppedDone(op, x, old(stack), stack, insts[|insts| - 1])
      ensures op != OpIf ==>
        var v := stack[|stack| - 1];
        ValOk(ssac.g, v) && ssac.g.nodes[v.node.value] == Op(op, 64, block)
    {
      if op == OpIf {
        var _ := PushInst(MInst(OpIf, NullVal(), x, NullVal(), addr));
      } else {
        var v := Operate(op, x, NullVal());
        assert stack[..|old(stack)|] == old(stack);
      }
    }

    /** `add_inst` for a binary operation: the top is the first operand
        and the value below it the second. */
    method AddBinary(op: MOpcode) returns (res: Result<()>)
      requires Valid() && Arity(op) == Binary && op != OpEq
      modifies this`stack, this`tmpIndex, this`insts, this`lastAssgn, ssac
      ensures Valid() && NodesEvolve(old(ssac.g), ssac.g) && OnlyAdded(old(insts), insts)
      ensures res.Err? <==> |old(stack)| < 2
      ensures res.Err? ==> res.error == InsufficientOperands && stack == [] && lastAssgn == old(lastAssgn)
      ensures res.Ok? ==> |insts| > |old(insts)| && BinaryDone(op, old(stack), stack, insts[|insts| - 1])
      ensures res.Ok? ==>
        var v := stack[|stack| - 1];
        ValOk(ssac.g, v) && ssac.g.nodes[v.node.value] == Op(op, 64, block) &&
        lastAssgn == (if op == OpCmp then v else old(lastAssgn))
    {
      var p2 := GetParam();
      if p2.None? {
        return Err(InsufficientOperands);
      }
      ghost var g1, i1, s1 := ssac.g, insts, stack;
      res := BinaryWith(op, p2.value);
      EvolveTrans(old(ssac.g), g1, ssac.g);
      OnlyAddedTrans(old(insts), i1, insts);
      if res.Ok? {
        PoppedBinary(op, old(stack), p2.value, stack, insts[|insts| - 1]);
      }
    }

    /** A binary operation once its first operand `top` is popped: the
        second is popped and the two are combined. */
    method BinaryWith(op: MOpcode, top: MVal) returns (res: Result<()>)
      requires Valid() && Arity(op) == Binary && op != OpEq && ValOk(ssac.g, top) && top.valType != Null
      modifies this`stack, this`tmpIndex, this`insts, this`lastAssgn, ssac
      ensures Valid() && NodesEvolve(old(ssac.g), ssac.g) && OnlyAdded(old(insts), insts)
      ensures res.Err? <==> |old(stack)| == 0
      ensures res.Err? ==> res.error == InsufficientOperands && stack == [] && lastAssgn == old(lastAssgn)
      ensures res.Ok? ==> |insts| > |old(insts)| && PoppedDone(op, top, old(stack), stack, insts[|insts| - 1])
      ensures res.Ok? ==>
        var v := stack[|stack| - 1];
        ValOk(ssac.g, v) && ssac.g.nodes[v.node.value] == Op(op, 64, block) &&
        lastAssgn == (if op == OpCmp then v else old(lastAssgn))
    {
      var p1 := GetParam();
      if p1.None? {
        return Err(InsufficientOperands);
      }
      ghost var g1, i1, s1 := ssac.g, insts, stack;
      ValEvolve(old(ssac.g), g1, top);
      var v := Operate(op, top, p1.value);
      EvolveTrans(old(ssac.g), g1, ssac.g);
      OnlyAddedTrans(old(insts), i1, insts);
      assert stack[..|stack| - 1] == s1;
      res := Ok(());
    }

    /** `add_inst` for `++` and `--`: the constant 1 goes below the top and
        the top is combined with it by an addition or subtraction (with the
        insertion index corrected, see `IncDecStack`); an empty stack
        aborts. */
    method AddIncDec(op: MOpcode) returns (res: Result<()>, ghost one: MVal)
      requires Valid() && op in {OpInc, OpDec}
      modifies this`stack, this`tmpIndex, this`insts, this`lastAssgn, ssac
      ensures Valid() && NodesEvolve(old(ssac.g), ssac.g) && OnlyAdded(old(insts), insts)
      ensures lastAssgn == old(lastAssgn)
      ensures res.Err? <==> |old(stack)| == 0
      ensures res.Err? ==> res.error == Aborted && stack == old(stack) && insts == old(insts)
      ensures res.Ok? ==> |insts| > |old(insts)| && insts[|insts| - 1].opcode == IncDecOpcode(op)
      ensures res.Ok? ==> one.size == defaultSize && IncDecShape(old(stack), one, stack, insts[|insts| - 1])
    {
      if |stack| == 0 {
        return Err(Aborted), NullVal();
      }
      one := IncDecOn(op);
      res := Ok(());
    }

    /** `++` or `--` on a non-empty stack: the top is replaced by the sum
        or difference of it and 1. */
    method IncDecOn(op: MOpcode) returns (one: MVal)
      requires Valid() && op in {OpInc, OpDec} && |stack| >= 1
      modifies this`stack, this`tmpIndex, this`insts, this`lastAssgn, ssac
      ensures Valid() && NodesEvolve(old(ssac.g), ssac.g) && OnlyAdded(old(insts), insts)
      ensures lastAssgn == old(lastAssgn) && |insts| > |old(insts)|
      ensures one.size == defaultSize
      ensures insts[|insts| - 1].opcode == IncDecOpcode(op)
      ensures IncDecShape(old(stack), one, stack, insts[|insts| - 1])
    {
      one := InsertOne();
      ghost var g1 := ssac.g;
      ghost var i1 := insts;
      IncDecBinary(IncDecOpcode(op), old(stack), one);
      EvolveTrans(old(ssac.g), g1, ssac.g);
      OnlyAddedTrans(old(insts), i1, insts);
    }

    /** The add or subtract of `++`/`--`, once the constant `one` sits
        below the top of `s0`. */
    method IncDecBinary(op: MOpcode, ghost s0: seq<MVal>, one: MVal)
      requires Valid() && op in {OpAdd, OpSub} && |s0| >= 1 && Plain(one)
      requires stack == IncDecStack(s0, one).value
      modifies this`stack, this`tmpIndex, this`insts, this`lastAssgn, ssac
      ensures Valid() && NodesEvolve(old(ssac.g), ssac.g) && OnlyAdded(old(insts), insts)
      ensures lastAssgn == old(lastAssgn) && |insts| > |old(insts)|
      ensures insts[|insts| - 1].opcode == op
      ensures IncDecShape(s0, one, stack, insts[|insts| - 1])
    {
      var r := AddBinary(op);
      IncDecDone(op, s0, one, stack, insts[|insts| - 1]);
    }

    /** The constant 1 placed below the top of a non-empty stack. */
    method InsertOne() returns (c: MVal)
      requires Valid() && |stack| >= 1
      modifies this`stack, this`tmpIndex, this`insts, ssac
      ensures Valid() && NodesEvolve(old(ssac.g), ssac.g) && OnlyAdded(old(insts), insts)
      ensures stack == IncDecStack(old(stack), c).value
      ensures c.valType == Temporary && c.size == defaultSize && ReadConst(c) == Some(1)
    {
      c := ConstantValue(1);
      StackEvolve(old(ssac.g), ssac.g, stack);
      stack := IncDecStack(stack, c).value;
    }

    /** `add_inst`: `}` closes a conditional group, `++`/`--` and `=` have
        their own cases, and every other operation pops its operands. */
    method AddInst(op: MOpcode) returns (res: Result<()>)
      requires Valid()
      modifies this`stack, this`tmpIndex, this`insts, this`lastAssgn, ssac
      ensures Valid() && NodesEvolve(old(ssac.g), ssac.g) && OnlyAdded(old(insts), insts)
      ensures res.Err? ==> res.error in {InsufficientOperands, Aborted}
      ensures res.Err? && op !in {OpInc, OpDec} ==> res.error == InsufficientOperands
      ensures op == OpCl ==>
        res.Ok? && stack == old(stack) && insts == old(insts) + [MInst(OpCl, NullVal(), NullVal(), NullVal(), addr)]
      ensures res.Ok? ==> |insts| > |old(insts)|
      ensures res.Ok? && op !in {OpCl, OpInc, OpDec} ==> OpDone(op, old(stack), stack, insts[|insts| - 1])
    {
      if op in {OpCl, OpInc, OpDec} {
        res := AddSpecial(op);
      } else {
        res := AddPopping(op);
      }
    }

    /** `add_inst` for `}` and for `++`/`--`. */
    method AddSpecial(op: MOpcode) returns (res: Result<()>)
      requires Valid() && op in {OpCl, OpInc, OpDec}
      modifies this`stack, this`tmpIndex, this`insts, this`lastAssgn, ssac
      ensures Valid() && NodesEvolve(old(ssac.g), ssac.g) && OnlyAdded(old(insts), insts)
      ensures res.Err? ==> op != OpCl && res.error == Aborted
      ensures op == OpCl ==>
        res.Ok? && stack == old(stack) && insts == old(insts) + [MInst(OpCl, NullVal(), NullVal(), NullVal(), addr)]
      ensures res.Ok? ==> |insts| > |old(insts)|
    {
      if op == OpCl {
        var _ := PushInst(MInst(OpCl, NullVal(), NullVal(), NullVal(), addr));
        res := Ok(());
      } else {
        ghost var one;
        res, one := AddIncDec(op);
      }
    }

    /** `add_inst` for an operation that pops its operands: `=` assigns,
        and every other operation is unary or binary. */
    method AddPopping(op: MOpcode) returns (res: Result<()>)
      requires Valid() && op !in {OpCl, OpInc, OpDec}
      modifies this`stack, this`tmpIndex, this`insts, this`lastAssgn, ssac
      ensures Valid() && NodesEvolve(old(ssac.g), ssac.g) && OnlyAdded(old(insts), insts)
      ensures res.Err? ==> res.error == InsufficientOperands
      ensures res.Ok? ==> |insts| > |old(insts)| && OpDone(op, old(stack), stack, insts[|insts| - 1])
    {
      if op == OpEq {
        res := AddAssignInst(op);
      } else {
        res := AddOperation(op);
      }
    }

    /** `add_inst` for a unary or binary operation other than `=`. */
    method AddOperation(op: MOpcode) returns (res: Result<()>)
      requires Valid() && op !in {OpCl, OpInc, OpDec, OpEq}
      modifies this`stack, this`tmpIndex, this`insts, this`lastAssgn, ssac
      ensures Valid() && NodesEvolve(old(ssac.g), ssac.g) && OnlyAdded(old(insts), insts)
      ensures res.Err? ==> res.error == InsufficientOperands
      ensures res.Ok? ==> |insts| > |old(insts)| && OpDone(op, old(stack), stack, insts[|insts| - 1])
    {
      if Arity(op) == Binary {
        res := AddBinary(op);
      } else {
        res := AddUnary(op);
      }
    }
 
    /** A compound token `<op>=` on a non-empty stack: the top is kept as
        the destination, `op` is applied, and its result is assigned back
        to the destination. */
    method ParseCompound(op: MOpcode) returns (res: Result<()>)
      requires Valid() && |stack| > 0
      modifies this`stack, this`tmpIndex, this`insts, this`lastAssgn, ssac
      ensures Valid() && NodesEvolve(old(ssac.g), ssac.g) && OnlyAdded(old(insts), insts)
      ensures res.Err? ==> res.error in {InsufficientOperands, Aborted}
      ensures res.Ok? ==>
        var dst := old(stack)[|old(stack)| - 1];
        |insts| >= |old(insts)| + 2 && insts[|insts| - 1] == AssignInst(OpEq, dst, insts[|insts| - 1].operand1, addr, optype)
      ensures res.Ok? ==> CompoundDone(op, old(stack), stack, insts[|insts| - 2], insts[|insts| - 1])
    {
      var dst := stack[|stack| - 1];
      res := AddInst(op);
      if res.Ok? {
        ghost var g1, i1 := ssac.g, insts;
        ValEvolve(old(ssac.g), g1, dst);
        res := AssignResult(op, dst, old(stack));
        EvolveTrans(old(ssac.g), g1, ssac.g);
        OnlyAddedTrans(old(insts), i1, insts);
      }
    }

    /** The assignment that ends `<op>=`, once `op` has turned the stack
        `s0` into the current one. */
    method AssignResult(op: MOpcode, dst: MVal, ghost s0: seq<MVal>) returns (res: Result<()>)
      requires Valid() && ValOk(ssac.g, dst) && dst.valType != Null
      requires |s0| >= 1 && |insts| >= 1 && OpDone(op, s0, stack, insts[|insts| - 1]) == true
      modifies this`stack, this`tmpIndex, this`insts, this`lastAssgn, ssac
      ensures Valid() && NodesEvolve(old(ssac.g), ssac.g) && OnlyAdded(old(insts), insts)
      ensures res.Err? ==> res.error == InsufficientOperands
      ensures res.Ok? ==>
        |insts| > |old(insts)| && insts[|insts| - 1] == AssignInst(OpEq, dst, insts[|insts| - 1].operand1, addr, optype)
      ensures res.Ok? ==> CompoundDone(op, s0, stack, insts[|insts| - 2], insts[|insts| - 1]) == true
    {
      ghost var s1, i1 := stack, insts;
      res := AssignTo(dst);
      if res.Ok? {
        CompoundSteps(op, s0, s1, stack, i1, insts);
      }
    }

    /** The second half of a compound token: `dst` is pushed back and the
        value below it is assigned to it. */
    method AssignTo(dst: MVal) returns (res: Result<()>)
      requires Valid() && ValOk(ssac.g, dst) && dst.valType != Null
      modifies this`stack, this`tmpIndex, this`insts, this`lastAssgn, ssac
      ensures Valid() && NodesEvolve(old(ssac.g), ssac.g) && OnlyAdded(old(insts), insts)
      ensures res.Err? <==> |old(stack)| == 0
      ensures res.Err? ==> res.error == InsufficientOperands
      ensures res.Ok? ==> stack == old(stack)[..|old(stack)| - 1] && |insts| > |old(insts)|
      ensures res.Ok? ==> insts[|insts| - 1] == AssignInst(OpEq, dst, insts[|insts| - 1].operand1, addr, optype)
      ensures res.Ok? && Plain(old(stack)[|old(stack)| - 1]) ==>
        |insts| == |old(insts)| + 1 && insts[|insts| - 1].operand1 == old(stack)[|old(stack)| - 1]
    {
      ghost var i1 := insts;
      stack := stack + [dst];
      res := AddAssignInst(OpEq);
      if res.Ok? {
        OnlyAddedInit(i1, insts);
        assert stack == old(stack)[..|old(stack)| - 1];
      }
    }

    /** A memory token: the address on top is loaded (narrowed to the
        access width); a poke then assigns to the loaded value, directly or
        after applying the prefix operator to it. */
    method ParseMem(m: MemAccess) returns (res: Result<()>)
      requires Valid() && IsWidth(m.width)
      modifies this`stack, this`tmpIndex, this`insts, this`lastAssgn, ssac
      ensures Valid() && NodesEvolve(old(ssac.g), ssac.g) && OnlyAdded(old(insts), insts)
      ensures |old(stack)| == 0 ==> res == Err(InsufficientOperands) && insts == old(insts) && stack == old(stack)
      ensures |old(stack)| > 0 && m.assign && m.prefix != "" && MapEsilToOpset(m.prefix).None? ==>
                res == Err(InvalidMOperator)
      ensures res.Ok? && Plain(old(stack)[|old(stack)| - 1]) ==>
                |insts| > |old(insts)| && insts[|old(insts)|].opcode == OpLoad &&
                insts[|old(insts)|].operand1 == old(stack)[|old(stack)| - 1]
      ensures res.Ok? && !m.assign ==>
                PeekDone(AccessBits(m.width, defaultSize), defaultSize, old(stack), stack, insts)
      ensures res.Ok? && m.assign ==> |insts| > |old(insts)|
      ensures res.Ok? && m.assign ==>
                var li := insts[|insts| - 1];
                li.dst.valType == Temporary && (li.opcode == OpEq || li.opcode.OpWiden? || li.opcode.OpNarrow?)
    {
      var w := AccessBits(m.width, defaultSize);
      var x;
      res, x := Peek(w);
      if res.Err? || !m.assign {
        return;
      }
      ghost var i1 := insts;
      res := Poke(m.prefix, x);
      assert insts[..|i1|] == i1;
      OnlyAddedTrans(old(insts), i1, insts);
    }

    /** A peek `[n]`: the address on top is replaced by the value loaded
        from it, narrowed to the access width `w`. */
    method Peek(w: nat) returns (res: Result<()>, x: MVal)
      requires Valid()
      modifies this`stack, this`tmpIndex, this`insts, this`lastAssgn, ssac
      ensures Valid() && NodesEvolve(old(ssac.g), ssac.g) && OnlyAdded(old(insts), insts)
      ensures res.Err? <==> |old(stack)| == 0
      ensures res.Err? ==> res.error == InsufficientOperands && insts == old(insts) && stack == old(stack)
      ensures res.Ok? ==> |stack| > 0 && stack[|stack| - 1] == x && x.valType == Temporary && x.regInfo.None?
      ensures res.Ok? && Plain(old(stack)[|old(stack)| - 1]) ==>
                |insts| > |old(insts)| && insts[|old(insts)|].opcode == OpLoad &&
                insts[|old(insts)|].operand1 == old(stack)[|old(stack)| - 1]
      ensures res.Ok? ==> PeekDone(w, defaultSize, old(stack), stack, insts)
    {
      res := AddUnary(OpLoad);
      if res.Err? {
        return res, NullVal();
      }
      ghost var i1, s1 := insts, stack;
      x := Loaded(w);
      assert insts[..|i1|] == i1;
      PeekSteps(w, defaultSize, old(stack), s1, stack, i1, insts);
    }

    /** The assignment half of a memory token, on the stack the load left
        with the loaded value `x` on top: `=[n]` assigns the value below
        `x` to it, and `<op>=[n]` is the compound `<op>=` on `x`. */
    method Poke(prefix: string, x: MVal) returns (res: Result<()>)
      requires Valid() && |stack| > 0 && stack[|stack| - 1] == x && x.valType == Temporary && x.regInfo.None?
      modifies this`stack, this`tmpIndex, this`insts, this`lastAssgn, ssac
      ensures Valid() && NodesEvolve(old(ssac.g), ssac.g) && OnlyAdded(old(insts), insts)
      ensures prefix != "" && MapEsilToOpset(prefix).None? ==> res == Err(InvalidMOperator)
      ensures res.Ok? ==>
        |insts| > |old(insts)| && insts[|insts| - 1].dst == x &&
        insts[|insts| - 1] == AssignInst(OpEq, x, insts[|insts| - 1].operand1, addr, optype)
      ensures prefix == "" ==> (res.Ok? <==> |old(stack)| >= 2)
      ensures prefix == "" && res.Ok? ==>
        var n := |old(stack)|;
        stack == old(stack)[..n - 2] &&
        (Plain(old(stack)[n - 2]) ==> insts[|insts| - 1].operand1 == old(stack)[n - 2])
      ensures prefix != "" && MapEsilToOpset(prefix).Some? && res.Ok? ==>
        |insts| >= 2 && CompoundDone(MapEsilToOpset(prefix).value, old(stack), stack, insts[|insts| - 2], insts[|insts| - 1])
    {
      if prefix == "" {
        res := AddAssignInst(OpEq);
        return;
      }
      var o := MapEsilToOpset(prefix);
      if o.None? {
        return Err(InvalidMOperator);
      }
      res := ParseCompound(o.value);
    }

    /** The loaded value on top narrowed to the access width `w`. */
    method Loaded(w: nat) returns (x: MVal)
      requires Valid() && |stack| > 0 && stack[|stack| - 1].valType == Temporary && stack[|stack| - 1].regInfo.None?
      modifies this`stack, this`tmpIndex, this`insts, ssac
      ensures Valid() && NodesEvolve(old(ssac.g), ssac.g) && OnlyAdded(old(insts), insts)
      ensures stack == old(stack)[..|old(stack)| - 1] + [x] && x.valType == Temporary && x.regInfo.None?
      ensures var y := old(stack)[|old(stack)| - 1];
        x.size == if y.size <= w then y.size else if w == 0 then defaultSize else w
      ensures var y := old(stack)[|old(stack)| - 1];
        (y.size <= w ==> x == y && insts == old(insts)) &&
        (y.size > w ==>
           |insts| == |old(insts)| + 1 && insts[|insts| - 1].opcode == OpNarrow(w) &&
           insts[|insts| - 1].operand1 == y && x == insts[|insts| - 1].dst.(node := x.node))
    {
      var y := stack[|stack| - 1];
      stack := stack[..|stack| - 1];
      x := AddNarrowInst(y, w);
      StackEvolve(old(ssac.g), ssac.g, stack);
      stack := stack + [x];
    }

    /** The alias role of a register ("pc", "sp", ...), or none. */
    function Role(r: LRegProfile): string {
      if r.name in aliasRole then aliasRole[r.name] else ""
    }

    /** A value pushed onto the operand stack. */
    method PushOperand(v: MVal)
      requires Valid() && ValOk(ssac.g, v) && v.valType != Null
      modifies this`stack
      ensures Valid() && stack == old(stack) + [v]
    {
      stack := stack + [v];
    }

    /** One token of an ESIL string (`parse_str`'s loop body). */
    method ParseToken(tok: string) returns (res: Result<()>)
      requires Valid()
      modifies this`stack, this`tmpIndex, this`insts, this`lastAssgn, ssac
      ensures Valid() && NodesEvolve(old(ssac.g), ssac.g) && OnlyAdded(old(insts), insts)
      ensures res.Ok? ==> Accepted(Classify(tok, regset))
      ensures var t := Classify(tok, regset);
        t.RegisterTok? ==>
          res.Ok? && insts == old(insts) && stack == old(stack) + [RegisterVal(tok, t.reg, Role(t.reg))]
      ensures var t := Classify(tok, regset);
        t.InternalTok? ==>
          res.Ok? && insts == old(insts) && stack == old(stack) + [MVal(tok, defaultSize, Internal, None, None)]
      ensures var t := Classify(tok, regset);
        t.ConstTok? ==>
          res.Ok? && |stack| == |old(stack)| + 1 && stack[..|old(stack)|] == old(stack) &&
          ReadConst(stack[|old(stack)|]) == Some(t.value) && |insts| == |old(insts)| + 1 &&
          insts[|old(insts)|].opcode == OpConst(t.value)
      ensures var t := Classify(tok, regset);
        t.Unparsable? || t.EmptyTok? || (t.MemoryTok? && t.access.None?) ==>
          res == Err(Aborted) && stack == old(stack) && insts == old(insts)
      ensures var t := Classify(tok, regset);
        t.CompoundTok? ==>
          (|old(stack)| == 0 ==> res == Err(InsufficientOperands) && stack == old(stack) && insts == old(insts)) &&
          (|old(stack)| > 0 && t.captured.None? ==> res == Err(Aborted) && stack == old(stack) && insts == old(insts))
    {
      var t := Classify(tok, regset);
      match t
      case OperatorTok(op) =>
        res := AddInst(op);
      case Unparsable =>
        res := Err(Aborted);
      case EmptyTok =>
        res := Err(Aborted);
      case CompoundTok(c) =>
        res := ParseCompoundTok(c);
      case MemoryTok(m) =>
        if m.None? {
          return Err(Aborted);
        }
        res := ParseMem(m.value);
      case _ =>
        PushToken(tok, t);
        res := Ok(());
    }

    /** A register, literal or internal-variable token pushes its value. */
    method PushToken(tok: string, t: Token)
      requires Valid() && (t.RegisterTok? || t.ConstTok? || t.InternalTok?)
      modifies this`stack, this`tmpIndex, this`insts, ssac
      ensures Valid() && NodesEvolve(old(ssac.g), ssac.g) && OnlyAdded(old(insts), insts)
      ensures t.RegisterTok? ==> insts == old(insts) && stack == old(stack) + [RegisterVal(tok, t.reg, Role(t.reg))]
      ensures t.InternalTok? ==> insts == old(insts) && stack == old(stack) + [MVal(tok, defaultSize, Internal, None, None)]
      ensures t.ConstTok? ==>
        |stack| == |old(stack)| + 1 && stack[..|old(stack)|] == old(stack) &&
        ReadConst(stack[|old(stack)|]) == Some(t.value) && |insts| == |old(insts)| + 1 &&
        insts[|old(insts)|].opcode == OpConst(t.value)
    {
      match t
      case RegisterTok(r) =>
        PushOperand(RegisterVal(tok, r, Role(r)));
      case ConstTok(v) =>
        var c := ConstantValue(v);
        PushOperand(c);
      case InternalTok =>
        PushOperand(MVal(tok, defaultSize, Internal, None, None));
    }

    /** A compound token with the operator it captured, if any. */
    method ParseCompoundTok(c: Option<string>) returns (res: Result<()>)
      requires Valid()
      modifies this`stack, this`tmpIndex, this`insts, this`lastAssgn, ssac
      ensures Valid() && NodesEvolve(old(ssac.g), ssac.g) && OnlyAdded(old(insts), insts)
      ensures res.Ok? ==> c.Some? && MapEsilToOpset(c.value).Some?
      ensures |old(stack)| == 0 ==> res == Err(InsufficientOperands) && stack == old(stack) && insts == old(insts)
      ensures |old(stack)| > 0 && c.None? ==> res == Err(Aborted) && stack == old(stack) && insts == old(insts)
      ensures |old(stack)| > 0 && c.Some? && MapEsilToOpset(c.value).None? ==>
                res == Err(InvalidMOperator) && stack == old(stack) && insts == old(insts)
    {
      if |stack| == 0 {
        return Err(InsufficientOperands);
      }
      if c.None? {
        return Err(Aborted);
      }
      var op := MapEsilToOpset(c.value);
      if op.None? {
        return Err(InvalidMOperator);
      }
      res := ParseCompound(op.value);
    }
 
    /** `parse_str`: every comma-separated token in turn, stopping at the
        first that fails; an empty string is rejected before any. */
    method ParseStr(esil: string) returns (res: Result<()>)
      requires Valid()
      modifies this`stack, this`tmpIndex, this`insts, this`lastAssgn, ssac
      ensures Valid() && NodesEvolve(old(ssac.g), ssac.g) && OnlyAdded(old(insts), insts)
      ensures esil == "" ==> res == Err(InvalidEsil) && stack == old(stack) && insts == old(insts)
      ensures res.Ok? ==> esil != "" && AllAccepted(Split(esil), regset)
    {
      if |esil| == 0 {
        return Err(InvalidEsil);
      }
      var toks := Split(esil);
      var i := 0;
      while i < |toks|
        invariant 0 <= i <= |toks|
        invariant Valid() && NodesEvolve(old(ssac.g), ssac.g) && OnlyAdded(old(insts), insts)
        invariant AllAccepted(toks[..i], regset)
      {
        ghost var g1, i1 := ssac.g, insts;
        var r := ParseToken(toks[i]);
        EvolveTrans(old(ssac.g), g1, ssac.g);
        OnlyAddedTrans(old(insts), i1, insts);
        if r.Err? {
          return r;
        }
        assert toks[..i + 1][..i] == toks[..i];
        i := i + 1;
      }
      assert toks[..i] == toks;
      res := Ok(());
    }

    /** `parse_opinfo`: the instruction's address (the previous one plus
        one when it has none) and operation type are recorded and its ESIL
        string is decoded. */
    method ParseOpinfo(op: OpInfo) returns (res: Result<()>)
      requires Valid()
      modifies this`addr, this`optype, this`stack, this`tmpIndex, this`insts, this`lastAssgn, ssac
      ensures Valid() && NodesEvolve(old(ssac.g), ssac.g) && OnlyAdded(old(insts), insts)
      ensures addr == (if op.offset.Some? then op.offset.value else old(addr) + 1)
      ensures optype == (if op.optype.Some? then op.optype.value else "")
      ensures op.esil.None? || op.esil == Some("") ==> res == Err(InvalidEsil) && insts == old(insts)
      ensures res.Ok? ==> var toks := Split(op.esil.value);
        op.esil.Some? && AllAccepted(toks, regset)
    {
      var esil := if op.esil.Some? then op.esil.value else "";
      addr := if op.offset.Some? then op.offset.value else addr + 1;
      optype := if op.optype.Some? then op.optype.value else "";
      res := ParseStr(esil);
    }
 
    /** The jump scan of one instruction's micro-operations (`run`'s loop
        over `insts`). */
    method ScanJumps(bbstart: nat, pc: nat, nb0: Bound) returns (nb: Bound, targets: seq<nat>, es: seq<CfgEdge>)
      ensures (nb, targets, es) == JumpEffects(ssac.g, insts, bbstart, pc, nb0)
    {
      nb, targets, es := nb0, [], [];
      var i := 0;
      while i < |insts|
        invariant 0 <= i <= |insts|
        invariant (nb, targets, es) == JumpEffects(ssac.g, insts[..i], bbstart, pc, nb0)
      {
        var inst := insts[i];
        assert insts[..i + 1][..i] == insts[..i];
        if inst.opcode == OpJmp {
          nb := Included(pc);
          var t := ReadConst(inst.operand1);
          if t.Some? {
            targets, es := targets + [t.value], es + [CfgEdge(bbstart, t.value, 9)];
          }
        } else if inst.opcode == OpCJmp {
          var t := ReadConst(inst.operand2);
          if t.Some? {
            targets, es := targets + [t.value], es + [CfgEdge(bbstart, t.value, 1)];
          }
        }
        i := i + 1;
      }
      assert insts[..i] == insts;
    }

    /** The deferred control edges added between the blocks' nodes, in
        order; a missing or reset endpoint aborts. */
    method AddEdges(edges: seq<CfgEdge>) returns (res: Result<()>)
      requires Valid()
      modifies ssac`g
      ensures Valid() && ssac.g.nodes == old(ssac.g.nodes)
      ensures res.Ok? <==> WithEdges(old(ssac.g), bbs, edges).Some?
      ensures res.Ok? ==> ssac.g == WithEdges(old(ssac.g), bbs, edges).value
      ensures res.Err? ==> res.error == Aborted
    {
      var i := 0;
      while i < |edges|
        invariant 0 <= i <= |edges|
        invariant Valid() && ssac.g.nodes == old(ssac.g.nodes)
        invariant WithEdges(old(ssac.g), bbs, edges[..i]) == Some(ssac.g)
      {
        var e := edges[i];
        assert edges[..i + 1][..i] == edges[..i];
        var a := BlockNodeAt(ssac.g, bbs, e.src);
        var b := BlockNodeAt(ssac.g, bbs, e.dst);
        if a.None? || b.None? {
          WithEdgesPrefixNone(old(ssac.g), bbs, edges, i + 1);
          return Err(Aborted);
        }
        ghost var g0 := ssac.g;
        ssac.AddControlEdge(a.value, b.value, e.tag);
        EvolveRefl(g0);
        StackEvolve(g0, ssac.g, stack);
        ValEvolve(g0, ssac.g, lastAssgn);
        i := i + 1;
      }
      assert edges[..i] == edges;
      res := Ok(());
    }

    /** Every block of the map sealed, in address order. */
    method SealAll()
      requires Valid()
      modifies ssac
      ensures Valid() && Grows(old(ssac.g), ssac.g)
      ensures !ssac.fault ==> ssac.sealedBlocks == old(ssac.sealedBlocks) + NodesUpTo(bbs, |bbs|)
    {
      var i := 0;
      while i < |bbs|
        invariant 0 <= i <= |bbs|
        invariant Valid() && Grows(old(ssac.g), ssac.g)
        invariant !ssac.fault ==> ssac.sealedBlocks == old(ssac.sealedBlocks) + NodesUpTo(bbs, i)
      {
        ghost var g0 := ssac.g;
        ssac.SealBlock(bbs[i].1.node, readFuel);
        GrowsTrans(old(ssac.g), g0, ssac.g);
        StackEvolve(g0, ssac.g, stack);
        ValEvolve(g0, ssac.g, lastAssgn);
        NodesUpToNext(bbs, i);
        i := i + 1;
      }
    }
 
    /** `run`'s check for an existing block at `top`: it is skipped when a
        live block already starts there; a block that starts earlier and
        reaches past `top` is reset and queued again. */
    method Revisit(top: nat) returns (skip: bool)
      requires Ordered(bbs)
      modifies this`bbs, this`bbworklist
      ensures Ordered(bbs) && Keys(bbs) == Keys(old(bbs))
      ensures skip <==> Get(old(bbs), top).Some? && Get(old(bbs), top).value.node != End
      ensures skip ==> bbs == old(bbs) && bbworklist == old(bbworklist)
      ensures !skip ==> match Floor(old(bbs), top)
        case Some(j) =>
          var e := old(bbs)[j];
          if top < e.1.end then bbworklist == old(bbworklist) + [e.0] && bbs == Put(old(bbs), e.0, BlockEntry(End, e.0))
          else bbworklist == old(bbworklist) && bbs == old(bbs)
        case None => bbworklist == old(bbworklist) && bbs == old(bbs)
    {
      var f := Floor(bbs, top);
      if f.Some? {
        var e := bbs[f.value];
        assert e.0 in Keys(bbs);
        if top in Keys(bbs) {
          FloorGreatest(bbs, top, top);
        }
        ghost var i :| 0 <= i < |bbs| && bbs[i] == (e.0, Get(bbs, e.0).value);
        assert i == f.value;
        if e.0 == top && e.1.node != End {
          return true;
        } else if top < e.1.end {
          bbworklist := bbworklist + [e.0];
          PutOrdered(bbs, e.0, BlockEntry(End, e.0));
          bbs := Put(bbs, e.0, BlockEntry(End, e.0));
        }
      } else {
        assert top !in Keys(bbs);
      }
      skip := false;
    }
 
    /** A new block starts at `pc`: the block being collected is recorded
        under `bbstart` as ending at `pc`, and a graph block is added for
        `pc`. */
    method OpenBlock(bbstart: nat, pc: nat)
      requires Valid()
      modifies this`bbs, this`block, ssac`g, ssac`incompletePhis
      ensures Valid() && NodesEvolve(old(ssac.g), ssac.g)
      ensures bbs == Put(old(bbs), bbstart, BlockEntry(old(block), pc))
      ensures block == |old(ssac.g.nodes)| && ssac.g.nodes == old(ssac.g.nodes) + [BlockNode(pc)]
    {
      PutOrdered(bbs, bbstart, BlockEntry(block, pc));
      bbs := Put(bbs, bbstart, BlockEntry(block, pc));
      ghost var g0 := ssac.g;
      block := ssac.AddBlock(pc);
      StackEvolve(g0, ssac.g, stack);
      ValEvolve(g0, ssac.g, lastAssgn);
    }

    /** One instruction of a block: it is decoded, its jumps are scanned,
        the targets join the worklist and its micro-operations are kept. */
    method TakeInst(op: OpInfo, bbstart: nat, pc: nat, nb0: Bound)
      returns (res: Result<()>, nb: Bound, targets: seq<nat>, es: seq<CfgEdge>)
      requires Valid()
      modifies this`addr, this`optype, this`stack, this`tmpIndex, this`insts, this`lastAssgn, ssac
      modifies this`bbworklist, this`allinsts
      ensures Valid() && NodesEvolve(old(ssac.g), ssac.g)
      ensures res.Ok? ==> insts == [] && OnlyAdded(old(allinsts) + old(insts), allinsts)
      ensures res.Ok? ==> (nb, targets, es) == JumpEffects(ssac.g, allinsts[|old(allinsts)|..], bbstart, pc, nb0)
      ensures res.Ok? ==> bbworklist == old(bbworklist) + targets
    {
      nb, targets, es := nb0, [], [];
      res := ParseOpinfo(op);
      if res.Err? {
        return;
      }
      nb, targets, es := ScanJumps(bbstart, pc, nb0);
      bbworklist := bbworklist + targets;
      assert (allinsts + insts)[|allinsts|..] == insts;
      allinsts := allinsts + insts;
      insts := [];
    }
 
    /** The block at `bbstart` is recorded as ending at `pc`. */
    method CloseBlock(bbstart: nat, pc: nat)
      requires Valid()
      modifies this`bbs
      ensures Valid() && bbs == Put(old(bbs), bbstart, BlockEntry(block, pc))
      ensures Keys(bbs) == Keys(old(bbs)) + {bbstart}
    {
      PutOrdered(bbs, bbstart, BlockEntry(block, pc));
      bbs := Put(bbs, bbstart, BlockEntry(block, pc));
    }

    /** One iteration of `run`'s inner loop, with the instruction at `pc`
        starting a new block: the block at `bbstart` is recorded, the
        fall-through edge from it is deferred, and the instruction is taken. */
    method CollectInst(op: OpInfo, pc: nat, bbstart: nat, nb0: Bound, edges0: seq<CfgEdge>)
      returns (res: Result<()>, nb: Bound, edges: seq<CfgEdge>)
      requires Valid()
      requires Covered(Keys(bbs) + WorkSet(bbworklist) + {bbstart}, edges0)
      modifies this`addr, this`optype, this`stack, this`tmpIndex, this`insts, this`lastAssgn, ssac
      modifies this`bbworklist, this`allinsts, this`bbs, this`block
      ensures Valid() && NodesEvolve(old(ssac.g), ssac.g)
      ensures Keys(bbs) == Keys(old(bbs)) + {bbstart}
      ensures res.Ok? ==> |old(bbworklist)| <= |bbworklist| && bbworklist[..|old(bbworklist)|] == old(bbworklist)
      ensures res.Ok? ==> |edges0| <= |edges| && edges[..|edges0|] == edges0
      ensures res.Ok? ==> Covered(Keys(bbs) + WorkSet(bbworklist) + {pc}, edges)
    {
      edges := edges0;
      ghost var k0, wl0 := Keys(bbs), bbworklist;
      OpenBlock(bbstart, pc);
      CoveredMono(k0 + WorkSet(wl0) + {bbstart}, Keys(bbs) + WorkSet(wl0) + {pc}, edges);
      if bbstart != pc {
        edges := edges + [CfgEdge(bbstart, pc, 0)];
        CoveredAppend(Keys(bbs) + WorkSet(wl0) + {pc}, edges0, [CfgEdge(bbstart, pc, 0)]);
      }
      ghost var g1, k1 := ssac.g, Keys(bbs);
      var e1 := edges;
      var ts, es;
      res, nb, ts, es := TakeInst(op, pc, pc, nb0);
      EvolveTrans(old(ssac.g), g1, ssac.g);
      if res.Err? {
        return;
      }
      WorkSetSnoc(wl0, ts);
      CoveredMono(k1 + WorkSet(wl0) + {pc}, k1 + WorkSet(bbworklist) + {pc}, e1);
      JumpsCovered(k1 + WorkSet(bbworklist) + {pc}, pc, ts, es);
      CoveredAppend(k1 + WorkSet(bbworklist) + {pc}, e1, es);
      assert (e1 + es)[..|edges0|] == e1[..|edges0|];
      edges := e1 + es;
    }

    /** The inner loop of `run` for the block at `top`: instructions from
        the first one at or after `top` are taken until the bound is
        reached, each starting a block of its own, with a fall-through edge
        from the previous one. */
    method VisitBlock(ops: seq<OpInfo>, top: nat, edges0: seq<CfgEdge>)
      returns (res: Result<()>, edges: seq<CfgEdge>, ghost stop: nat)
      requires Valid() && HasOffsets(ops) && SortedByOffset(ops)
      requires Covered(Keys(bbs) + WorkSet(bbworklist) + {top}, edges0)
      modifies this`addr, this`optype, this`stack, this`tmpIndex, this`insts, this`lastAssgn, ssac
      modifies this`bbworklist, this`allinsts, this`bbs, this`block
      ensures Valid() && NodesEvolve(old(ssac.g), ssac.g)
      ensures res.Ok? ==> Keys(old(bbs)) + {top} <= Keys(bbs)
      ensures res.Ok? ==> |old(bbworklist)| <= |bbworklist| && bbworklist[..|old(bbworklist)|] == old(bbworklist)
      ensures res.Ok? ==> |edges0| <= |edges| && edges[..|edges0|] == edges0
      ensures res.Ok? ==> Covered(Keys(bbs) + WorkSet(bbworklist), edges)
      ensures res.Ok? ==> LowerBound(ops, top) <= stop <= |ops|
      ensures res.Ok? ==> forall k :: LowerBound(ops, top) <= k < stop ==> ops[k].offset.value in Keys(bbs)
    {
      edges := edges0;
      var nb := NextBound(bbs, top);
      var i := LowerBound(ops, top);
      ghost var i0 := i;
      var bbstart, pc := top, top;
      ghost var w0 := bbworklist;
      while i < |ops|
        invariant i0 <= i <= |ops|
        invariant Valid() && NodesEvolve(old(ssac.g), ssac.g)
        invariant Keys(old(bbs)) <= Keys(bbs) && (bbstart == top || top in Keys(bbs))
        invariant |w0| <= |bbworklist| && bbworklist[..|w0|] == w0
        invariant |edges0| <= |edges| && edges[..|edges0|] == edges0
        invariant Covered(Keys(bbs) + WorkSet(bbworklist) + {bbstart}, edges)
        invariant forall k :: i0 <= k < i ==> ops[k].offset.value in Keys(bbs) + {bbstart}
      {
        pc := ops[i].offset.value;
        if Reached(nb, pc) {
          break;
        }
        ghost var g0, wl0, e0 := ssac.g, bbworklist, edges;
        var r;
        r, nb, edges := CollectInst(ops[i], pc, bbstart, nb, edges);
        EvolveTrans(old(ssac.g), g0, ssac.g);
        if r.Err? {
          return r, edges, i;
        }
        assert edges[..|edges0|] == e0[..|edges0|];
        assert bbworklist[..|w0|] == wl0[..|w0|];
        bbstart := pc;
        i := i + 1;
      }
      CloseBlock(bbstart, pc);
      res, stop := Ok(()), i;
    }
 
    /** One turn of `run`'s worklist loop: the last queued address is
        taken, skipped when a live block already starts there, and
        otherwise visited. */
    method VisitNext(ops: seq<OpInfo>, edges0: seq<CfgEdge>) returns (res: Result<()>, edges: seq<CfgEdge>)
      requires Valid() && HasOffsets(ops) && SortedByOffset(ops) && bbworklist != []
      requires Covered(Keys(bbs) + WorkSet(bbworklist), edges0)
      modifies this`addr, this`optype, this`stack, this`tmpIndex, this`insts, this`lastAssgn, ssac
      modifies this`bbworklist, this`allinsts, this`bbs, this`block
      ensures Valid() && NodesEvolve(old(ssac.g), ssac.g)
      ensures res.Ok? ==> Keys(old(bbs)) + WorkSet(old(bbworklist)) <= Keys(bbs) + WorkSet(bbworklist)
      ensures res.Ok? ==> Keys(old(bbs)) <= Keys(bbs) && Covered(Keys(bbs) + WorkSet(bbworklist), edges)
    {
      edges := edges0;
      var top := bbworklist[|bbworklist| - 1];
      WorkSetPop(bbworklist);
      bbworklist := bbworklist[..|bbworklist| - 1];
      ghost var k0, w0 := Keys(bbs), bbworklist;
      var skip := Revisit(top);
      if skip {
        return Ok(()), edges;
      }
      WorkSetPrefix(w0, bbworklist);
      CoveredMono(k0 + WorkSet(w0) + {top}, Keys(bbs) + WorkSet(bbworklist) + {top}, edges);
      ghost var w1 := bbworklist;
      ghost var stop;
      res, edges, stop := VisitBlock(ops, top, edges);
      if res.Ok? {
        WorkSetPrefix(w1, bbworklist);
      }
    }

    /** `run`'s worklist loop on instructions sorted by offset, from
        `start`, for at most `fuel` turns: every deferred edge ends up
        between known blocks. */
    method Discover(ops: seq<OpInfo>, start: nat, fuel: nat) returns (res: Result<()>, edges: seq<CfgEdge>)
      requires Valid() && HasOffsets(ops) && SortedByOffset(ops)
      modifies this`addr, this`optype, this`stack, this`tmpIndex, this`insts, this`lastAssgn, ssac
      modifies this`bbworklist, this`allinsts, this`bbs, this`block
      ensures Valid() && NodesEvolve(old(ssac.g), ssac.g)
      ensures res.Ok? ==> bbworklist == [] && start in Keys(bbs) && Keys(old(bbs)) <= Keys(bbs)
      ensures res.Ok? ==> Covered(Keys(bbs), edges)
    {
      edges := [];
      bbworklist := bbworklist + [start];
      WorkSetSnoc(old(bbworklist), [start]);
      assert [start][0] == start;
      var left := fuel;
      while bbworklist != []
        invariant Valid() && NodesEvolve(old(ssac.g), ssac.g)
        invariant Covered(Keys(bbs) + WorkSet(bbworklist), edges)
        invariant start in Keys(bbs) + WorkSet(bbworklist) && Keys(old(bbs)) <= Keys(bbs)
        decreases left
      {
        if left == 0 {
          return Err(OutOfFuel), edges;
        }
        left := left - 1;
        ghost var g1 := ssac.g;
        var r;
        r, edges := VisitNext(ops, edges);
        EvolveTrans(old(ssac.g), g1, ssac.g);
        if r.Err? {
          return r, edges;
        }
      }
      res := Ok(());
    }
 
    /** `run`: block discovery over the instructions sorted by offset, from
        `start`, then the deferred control edges and the sealing of every
        block. An instruction without an offset aborts once the sort
        compares it (two or more instructions) or the block search reaches
        it (a popped address that is not a live block); a single such
        instruction behind addresses that are all skipped is never looked
        at, and the run goes on as one over no instructions. An edge to a
        reset block and a failed seal abort; the worklist loop runs for at
        most `fuel` turns. */
    method Run(ops: seq<OpInfo>, start: nat, fuel: nat) returns (res: Result<()>, ghost edges: seq<CfgEdge>)
      requires Valid()
      modifies this`addr, this`optype, this`stack, this`tmpIndex, this`insts, this`lastAssgn, ssac
      modifies this`bbworklist, this`allinsts, this`bbs, this`block
      ensures Valid()
      ensures !HasOffsets(ops) && (|ops| > 1 || !SkipsAll(old(bbs), old(bbworklist) + [start])) ==> res == Err(Aborted)
      ensures res.Ok? ==> bbworklist == [] && start in Keys(bbs) && Keys(old(bbs)) <= Keys(bbs)
      ensures res.Ok? ==> Covered(Keys(bbs), edges)
      ensures res.Ok? ==> forall k :: 0 <= k < |edges| ==>
                BlockNodeAt(ssac.g, bbs, edges[k].src).Some? && BlockNodeAt(ssac.g, bbs, edges[k].dst).Some?
      ensures res.Ok? ==> !ssac.fault && NodesUpTo(bbs, |bbs|) <= ssac.sealedBlocks
    {
      edges := [];
      var sorted: seq<OpInfo> := [];
      if HasOffsets(ops) {
        sorted := SortOps(ops);
        SortOpsCorrect(ops);
      } else if |ops| > 1 || !SkipsAll(bbs, bbworklist + [start]) {
        return Err(Aborted), edges;
      }
      var es;
      res, es := Discover(sorted, start, fuel);
      edges := es;
      if res.Err? {
        return;
      }
      ghost var g1 := ssac.g;
      res := AddEdges(es);
      if res.Err? {
        return;
      }
      WithEdgesDefined(g1, bbs, es);
      SealAll();
      if ssac.fault {
        return Err(Aborted), edges;
      }
    }
 
    /** `emit_insts` on the decoder: the kept micro-operations are replaced
        by their emitted form, which is also returned. */
    method EmitAll() returns (r: Result<seq<MInst>>)
      modifies this`allinsts
      ensures r == Emitted(old(allinsts))
      ensures r.Ok? ==> allinsts == r.value
      ensures r.Err? ==> allinsts == old(allinsts)
    {
      r := EmitInsts(allinsts);
      if r.Ok? {
        allinsts := r.value;
      }
    }
  }
}
