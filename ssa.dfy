/** On-the-fly SSA construction after Braun, Buchwald, Hack, Leissa,
    Mallon and Zwinkau, "Simple and Efficient Construction of Static
    Single Assignment Form": variable definitions are recorded per block,
    reads search backwards through the predecessors, placing phi nodes
    where control flow joins, and phis that turn out to merge fewer than
    two values are removed as soon as that is known. */
module Ssa {
  import opened TokenSyntax
  import opened Ir
  import opened SsaGraph

  /** What the operand scan of `try_remove_trivial_phi` concluded. */
  datatype Triviality = NonTrivial | Same(value: Node) | NoOperand

  /** The scan over the operands, with `same` the value seen so far
      (`End` for none): self-references and repeats are skipped, and a
      second distinct value ends the scan. */
  function ScanFrom(ops: seq<Node>, phi: Node, same: Node): Triviality
    decreases |ops|
  {
    if |ops| == 0 then (if same == End then NoOperand else Same(same))
    else if ops[0] == same || ops[0] == phi then ScanFrom(ops[1..], phi, same)
    else if same != End then NonTrivial
    else ScanFrom(ops[1..], phi, ops[0])
  }

  function Scan(ops: seq<Node>, phi: Node): Triviality {
    ScanFrom(ops, phi, End)
  }

  /** Once a value is held, the scan reports non-trivial exactly when some
      operand is neither the phi nor that value. */
  lemma {:induction false} ScanFromHeld(ops: seq<Node>, phi: Node, same: Node)
    requires same != End && End !in ops
    ensures ScanFrom(ops, phi, same)
            == if exists i :: 0 <= i < |ops| && ops[i] != phi && ops[i] != same then NonTrivial else Same(same)
    decreases |ops|
  {
    if |ops| > 0 {
      ScanFromHeld(ops[1..], phi, same);
      assert forall i :: 1 <= i < |ops| ==> ops[1..][i - 1] == ops[i];
    }
  }

  /** The three outcomes of the scan, stated by the operands alone: no
      operand other than the phi itself, exactly one such value, or at
      least two distinct ones. */
  lemma {:induction false} ScanMeaning(ops: seq<Node>, phi: Node)
    requires End !in ops
    ensures Scan(ops, phi) == NoOperand <==> forall i :: 0 <= i < |ops| ==> ops[i] == phi
    ensures Scan(ops, phi).Same? ==>
              Scan(ops, phi).value in ops && Scan(ops, phi).value != phi
              && forall i :: 0 <= i < |ops| ==> ops[i] == phi || ops[i] == Scan(ops, phi).value
    ensures Scan(ops, phi) == NonTrivial <==>
              exists i, j :: 0 <= i < |ops| && 0 <= j < |ops| && ops[i] != phi && ops[j] != phi && ops[i] != ops[j]
    decreases |ops|
  {
    if |ops| > 0 {
      var t := ops[1..];
      assert forall i :: 1 <= i < |ops| ==> t[i - 1] == ops[i];
      if ops[0] == phi {
        ScanMeaning(t, phi);
        assert Scan(ops, phi) == Scan(t, phi);
        if Scan(ops, phi) == NonTrivial {
          var i, j :| 0 <= i < |t| && 0 <= j < |t| && t[i] != phi && t[j] != phi && t[i] != t[j];
          assert ops[i + 1] != ops[j + 1];
        }
      } else {
        ScanFromHeld(t, phi, ops[0]);
        if exists i :: 0 <= i < |t| && t[i] != phi && t[i] != ops[0] {
          var i :| 0 <= i < |t| && t[i] != phi && t[i] != ops[0];
          assert ops[i + 1] != ops[0];
        }
      }
    }
  }

  /** A node record may only stay as it is, or go from phi to removed. */
  predicate Evolved(a: NodeData, b: NodeData) {
    b == a || (a.Phi? && b.Removed?)
  }

  /** Nodes are appended, phis may be removed, and no other node changes. */
  predicate NodesEvolve(g0: Graph, g1: Graph) {
    |g0.nodes| <= |g1.nodes| && forall i :: 0 <= i < |g0.nodes| ==> Evolved(g0.nodes[i], g1.nodes[i])
  }

  /** `g1` extends `g0` and every block keeps its predecessors. */
  ghost predicate Grows(g0: Graph, g1: Graph) {
    NodesEvolve(g0, g1) && forall b :: PredsOf(g1, b) == PredsOf(g0, b)
  }

  /** Every node of `g0` other than `except` has as many phi operands in
      `g1` as in `g0`. */
  ghost predicate ArgCountsKept(g0: Graph, g1: Graph, except: Node) {
    forall x :: IsNode(g0, x) && x != except ==> |ArgsOf(g1, x)| == |ArgsOf(g0, x)|
  }

  /** The phis from index `lo` on never sit in a sealed block with exactly
      one predecessor. */
  ghost predicate PhisPlaced(g: Graph, sealed: set<Node>, lo: int) {
    forall i :: 0 <= i < |g.nodes| && lo <= i && g.nodes[i].Phi? ==>
      !(g.nodes[i].block in sealed && |PredsOf(g, g.nodes[i].block)| == 1)
  }

  /** What a read does to the graph: it grows, only the phi being
      completed (`except`) gains operands, and new phis avoid sealed
      blocks with a single predecessor. */
  ghost predicate Extends(g0: Graph, g1: Graph, sealed: set<Node>, except: Node) {
    Grows(g0, g1) && ArgCountsKept(g0, g1, except) && PhisPlaced(g1, sealed, |g0.nodes|)
  }

  lemma ExtendsRefl(g: Graph, sealed: set<Node>, except: Node)
    ensures Extends(g, g, sealed, except)
  {
  }

  lemma ExtendsTrans(g0: Graph, g1: Graph, g2: Graph, sealed: set<Node>, e1: Node, e2: Node)
    requires Extends(g0, g1, sealed, e1) && Extends(g1, g2, sealed, e2)
    requires e1 == End || e2 == End || e1 == e2
    ensures Extends(g0, g2, sealed, if e1 == End then e2 else e1)
  {
    forall i | 0 <= i < |g2.nodes| && |g0.nodes| <= i && g2.nodes[i].Phi?
      ensures !(g2.nodes[i].block in sealed && |PredsOf(g2, g2.nodes[i].block)| == 1)
    {
      if i < |g1.nodes| {
        assert Evolved(g1.nodes[i], g2.nodes[i]);
        assert PredsOf(g2, g2.nodes[i].block) == PredsOf(g1, g2.nodes[i].block);
      }
    }
  }

  /** What phi simplification does to the graph: it grows by `Undefined`
      nodes only, keeps every operand count, never adds a live phi, and
      keeps the replacement of every node already removed except `phi`. */
  ghost predicate Simplified(g0: Graph, g1: Graph, phi: Node) {
    Grows(g0, g1) && ArgCountsKept(g0, g1, End)
    && PhiCount(g1.nodes) <= PhiCount(g0.nodes)
    && (forall i :: |g0.nodes| <= i < |g1.nodes| ==> g1.nodes[i] == Undefined)
    && (forall m :: m != phi && IsNode(g0, m) && g0.nodes[m].Removed? ==>
          ReplacedByTarget(g1, m) == ReplacedByTarget(g0, m))
  }

  lemma SimplifiedTrans(g0: Graph, g1: Graph, g2: Graph, e1: Node, e2: Node)
    requires Simplified(g0, g1, e1) && Simplified(g1, g2, e2)
    requires e1 == End || e2 == End || e2 == e1
    ensures Simplified(g0, g2, if e1 == End then e2 else e1)
  {
    forall m | m != (if e1 == End then e2 else e1) && IsNode(g0, m) && g0.nodes[m].Removed?
      ensures ReplacedByTarget(g2, m) == ReplacedByTarget(g0, m)
    {
      assert Evolved(g0.nodes[m], g1.nodes[m]);
    }
  }

  /** Simplifying a phi that is still live keeps the replacement of every
      node removed before. */
  lemma SimplifiedTransPhi(g0: Graph, g1: Graph, g2: Graph, e1: Node, e2: Node)
    requires Simplified(g0, g1, e1) && Simplified(g1, g2, e2)
    requires IsNode(g1, e2) && g1.nodes[e2].Phi?
    ensures Simplified(g0, g2, e1)
  {
    forall m | m != e1 && IsNode(g0, m) && g0.nodes[m].Removed?
      ensures ReplacedByTarget(g2, m) == ReplacedByTarget(g0, m)
    {
      assert Evolved(g0.nodes[m], g1.nodes[m]);
    }
  }

  lemma SimplifiedRefl(g: Graph, phi: Node)
    ensures Simplified(g, g, phi)
  {
  }

  lemma SimplifiedExtends(g0: Graph, g1: Graph, phi: Node, sealed: set<Node>)
    requires Simplified(g0, g1, phi)
    ensures Extends(g0, g1, sealed, End)
  {
  }

  /** Removed nodes form chains of `ReplacedBy` edges that climb a ghost
      rank, so following them ends at a live node. */
  ghost predicate Tombstones(g: Graph, rank: map<Node, nat>, removals: nat) {
    forall n :: TombstoneOk(g, rank, removals, n)
  }

  /** A removed node has a rank below the removal count and is replaced by
      a node of the graph which, if removed in turn, was removed later. */
  ghost predicate TombstoneOk(g: Graph, rank: map<Node, nat>, removals: nat, n: Node) {
    IsNode(g, n) && g.nodes[n].Removed? ==>
      n in rank && rank[n] < removals
      && IsNode(g, ReplacedByTarget(g, n))
      && (g.nodes[ReplacedByTarget(g, n)].Removed? ==>
            ReplacedByTarget(g, n) in rank && rank[ReplacedByTarget(g, n)] > rank[n])
  }

  /** The live node reached from `n` by following `ReplacedBy` edges. */
  ghost function ChainEnd(g: Graph, rank: map<Node, nat>, removals: nat, n: Node): (r: Node)
    requires Tombstones(g, rank, removals) && IsNode(g, n)
    ensures Live(g, r)
    ensures !g.nodes[n].Removed? ==> r == n
    decreases if g.nodes[n].Removed? && n in rank then removals - rank[n] else 0
  {
    assert TombstoneOk(g, rank, removals, n);
    if g.nodes[n].Removed? then ChainEnd(g, rank, removals, ReplacedByTarget(g, n)) else n
  }

  ghost predicate GraphOk(g: Graph, rank: map<Node, nat>, removals: nat) {
    WellFormed(g) && UsesLive(g) && Tombstones(g, rank, removals)
  }

  lemma GraphOkAddNode(g: Graph, rank: map<Node, nat>, removals: nat, d: NodeData)
    requires GraphOk(g, rank, removals) && !d.Removed?
    ensures GraphOk(AddNode(g, d).0, rank, removals)
  {
    var r := AddNode(g, d).0;
    forall n
      ensures TombstoneOk(r, rank, removals, n)
    {
      assert TombstoneOk(g, rank, removals, n);
      if IsNode(r, n) && r.nodes[n].Removed? {
        assert IsNode(g, n) && g.nodes[n] == r.nodes[n];
      }
    }
  }

  lemma GraphOkAddEdge(g: Graph, rank: map<Node, nat>, removals: nat, e: Edge)
    requires GraphOk(g, rank, removals) && IsNode(g, e.src) && IsNode(g, e.dst)
    requires !e.data.ReplacedBy? && (IsUse(e.data) ==> Live(g, e.dst))
    ensures GraphOk(AddEdge(g, e), rank, removals)
  {
    forall n
      ensures TombstoneOk(AddEdge(g, e), rank, removals, n)
    {
      assert TombstoneOk(g, rank, removals, n);
    }
  }

  lemma GraphOkReplace(g: Graph, rank: map<Node, nat>, removals: nat, o: Node, n: Node)
    requires GraphOk(g, rank, removals)
    requires IsNode(g, o) && Live(g, n) && o != n
    ensures g.nodes[o].Removed? ==> GraphOk(Replace(g, o, n), rank, removals)
    ensures !g.nodes[o].Removed? ==> GraphOk(Replace(g, o, n), rank[o := removals], removals + 1)
  {
    var r := Replace(g, o, n);
    var rk := if g.nodes[o].Removed? then rank else rank[o := removals];
    var rm := if g.nodes[o].Removed? then removals else removals + 1;
    forall m
      ensures TombstoneOk(r, rk, rm, m)
    {
      if IsNode(r, m) && r.nodes[m].Removed? && m != o {
        assert TombstoneOk(g, rank, removals, m);
        assert g.nodes[m].Removed?;
        assert ReplacedByTarget(r, m) == ReplacedByTarget(g, m);
        assert TombstoneOk(g, rank, removals, ReplacedByTarget(g, m));
      }
    }
    assert Tombstones(r, rk, rm);
  }

  function Ref(g: Graph, n: Node): bool {
    n == End || IsNode(g, n)
  }

  predicate PhiOrRemoved(g: Graph, n: Node)
    requires IsNode(g, n)
  {
    g.nodes[n].Phi? || g.nodes[n].Removed?
  }

  /** Every recorded definition is a node or `End`. */
  ghost predicate DefsOk(g: Graph, cd: map<string, map<Node, Node>>, gv: map<string, Node>) {
    (forall v, b :: DefOk(g, cd, v, b)) && (forall v :: GlobalOk(g, gv, v))
  }

  predicate DefOk(g: Graph, cd: map<string, map<Node, Node>>, v: string, b: Node) {
    v in cd && b in cd[v] ==> Ref(g, cd[v][b])
  }

  predicate GlobalOk(g: Graph, gv: map<string, Node>, v: string) {
    v in gv ==> Ref(g, gv[v])
  }

  /** Every pending phi is a phi node, or a removed one. */
  ghost predicate PendingOk(g: Graph, ip: map<Node, map<string, Node>>) {
    forall b, v :: PendingPhiOk(g, ip, b, v)
  }

  predicate PendingPhiOk(g: Graph, ip: map<Node, map<string, Node>>, b: Node, v: string) {
    b in ip && v in ip[b] ==> IsNode(g, ip[b][v]) && PhiOrRemoved(g, ip[b][v])
  }

  lemma DefsGrow(g0: Graph, g1: Graph, cd: map<string, map<Node, Node>>, gv: map<string, Node>)
    requires DefsOk(g0, cd, gv) && |g0.nodes| <= |g1.nodes|
    ensures DefsOk(g1, cd, gv)
  {
    forall v, b
      ensures DefOk(g1, cd, v, b)
    {
      assert DefOk(g0, cd, v, b);
    }
    forall v
      ensures GlobalOk(g1, gv, v)
    {
      assert GlobalOk(g0, gv, v);
    }
  }

  lemma PendingGrow(g0: Graph, g1: Graph, ip: map<Node, map<string, Node>>)
    requires PendingOk(g0, ip) && NodesEvolve(g0, g1)
    ensures PendingOk(g1, ip)
  {
    forall b, v
      ensures PendingPhiOk(g1, ip, b, v)
    {
      assert PendingPhiOk(g0, ip, b, v);
      if b in ip && v in ip[b] {
        assert Evolved(g0.nodes[ip[b][v]], g1.nodes[ip[b][v]]);
      }
    }
  }

  /** Replacing a block's table of pending phis by one whose entries are
      phis or removed nodes keeps every pending phi valid. */
  lemma PendingSet(g: Graph, ip: map<Node, map<string, Node>>, b: Node, m: map<string, Node>)
    requires PendingOk(g, ip)
    requires forall v :: v in m ==> IsNode(g, m[v]) && PhiOrRemoved(g, m[v])
    ensures PendingOk(g, ip[b := m])
  {
    var ip2 := ip[b := m];
    forall c, v
      ensures PendingPhiOk(g, ip2, c, v)
    {
      assert PendingPhiOk(g, ip, c, v);
    }
  }

  predicate BoundIn(cd: map<string, map<Node, Node>>, gv: map<string, Node>, v: string, b: Node) {
    if v in cd then b in cd[v] else v in gv
  }

  /** Every pending phi, except possibly the one of (`block`, `variable`)
      when `skip` holds, is recorded as the definition of its variable. */
  predicate PendingBound(cd: map<string, map<Node, Node>>, gv: map<string, Node>,
                         ip: map<Node, map<string, Node>>, skip: bool, block: Node, variable: string) {
    forall b, v :: b in ip && v in ip[b] && !(skip && b == block && v == variable) ==> BoundIn(cd, gv, v, b)
  }

  lemma GrowsTrans(g0: Graph, g1: Graph, g2: Graph)
    requires Grows(g0, g1) && Grows(g1, g2)
    ensures Grows(g0, g2)
  {
  }

  /** Definitions and pending phis stay valid while the graph only grows. */
  lemma MapsFollow(g0: Graph, g1: Graph, cd: map<string, map<Node, Node>>, gv: map<string, Node>,
                   ip: map<Node, map<string, Node>>)
    requires DefsOk(g0, cd, gv) && PendingOk(g0, ip) && NodesEvolve(g0, g1)
    ensures DefsOk(g1, cd, gv) && PendingOk(g1, ip)
  {
    DefsGrow(g0, g1, cd, gv);
    PendingGrow(g0, g1, ip);
  }

  /** A new phi operand is what a read in the phi's block extends by. */
  lemma ExtendsPhiUse(g: Graph, phi: Node, n: Node, sealed: set<Node>)
    ensures Extends(g, PhiUseEdge(g, phi, n), sealed, phi)
  {
  }

  /** Appending a node other than a phi is a simplification step. */
  lemma SimplifiedAddNode(g: Graph, d: NodeData)
    requires d == Undefined
    ensures Simplified(g, AddNode(g, d).0, End)
  {
    PhiCountAppend(g.nodes, d);
    var r := AddNode(g, d).0;
    assert r.nodes == g.nodes + [d];
  }

  /** An operand of a phi is the target of a use edge, hence live. */
  lemma ArgsLive(g: Graph, phi: Node, x: Node)
    requires UsesLive(g) && x in ArgsOf(g, phi)
    ensures Live(g, x)
  {
    ArgsInMembers(g.edges, phi, x);
  }

  /** A node the simplification leaves as it is: not a phi, or a phi whose
      operands are not trivial. */
  ghost predicate Settled(g: Graph, x: Node) {
    IsNode(g, x) && (g.nodes[x].Phi? ==> Scan(ArgsOf(g, x), x) == NonTrivial)
  }

  /** Appending a node changes no operand list, so a settled node stays so. */
  lemma SettledAppend(g0: Graph, g1: Graph, x: Node)
    requires g1.edges == g0.edges && |g0.nodes| <= |g1.nodes| && g1.nodes[..|g0.nodes|] == g0.nodes
    requires Settled(g0, x)
    ensures Settled(g1, x)
  {
    assert g1.nodes[x] == g1.nodes[..|g0.nodes|][x];
  }

  /** Replacing `o` leaves the operands of every node that did not read `o`
      as they were, so such a node stays settled. */
  lemma SettledReplace(g: Graph, o: Node, n: Node, x: Node)
    requires IsNode(g, o) && IsNode(g, n) && o != n
    requires Settled(g, x) && x != o && x !in UsesOf(g, o)
    ensures Settled(Replace(g, o, n), x)
  {
    ArgsInMembers(g.edges, x, o);
    UsesInMembers(g.edges, o, x);
    var s := ArgsOf(g, x);
    assert Subst(s, o, n) == s;
  }

  /** While sealing `block`: no pending phi has lost operands, and each
      one already completed (no longer in `inc`) has gained one per
      predecessor of the block. */
  ghost predicate OperandsAdded(g0: Graph, g: Graph, inc0: map<string, Node>, inc: map<string, Node>, block: Node) {
    (forall v :: v in inc0 ==> IsNode(g0, inc0[v]) && |ArgsOf(g, inc0[v])| >= |ArgsOf(g0, inc0[v])|)
    && (forall v :: v in inc0 && v !in inc ==> |ArgsOf(g, inc0[v])| >= |ArgsOf(g0, inc0[v])| + |PredsOf(g0, block)|)
  }

  /** Completing the pending phi of `v` keeps `OperandsAdded` with `v`
      done. */
  lemma OperandsAddedStep(g0: Graph, gi: Graph, g: Graph, inc0: map<string, Node>, inc: map<string, Node>,
                          block: Node, v: string, sealed: set<Node>)
    requires OperandsAdded(g0, gi, inc0, inc, block) && v in inc && v in inc0 && inc[v] == inc0[v]
    requires Grows(g0, gi) && Extends(gi, g, sealed, inc[v])
    requires |ArgsOf(g, inc[v])| == |ArgsOf(gi, inc[v])| + |PredsOf(gi, block)|
    ensures OperandsAdded(g0, g, inc0, inc - {v}, block)
  {
    forall w | w in inc0
      ensures |ArgsOf(g, inc0[w])| >= |ArgsOf(gi, inc0[w])|
    {
      assert IsNode(gi, inc0[w]);
    }
  }

  /** Appending an `Undefined` node or nothing, then replacing `o` by `n`,
      unsettles only the former users of `o`. */
  lemma SettledKept(g0: Graph, gm: Graph, o: Node, n: Node)
    requires gm.edges == g0.edges && |g0.nodes| <= |gm.nodes| && gm.nodes[..|g0.nodes|] == g0.nodes
    requires IsNode(gm, o) && IsNode(gm, n) && o != n
    ensures forall x :: Settled(g0, x) && x != o && x !in UsesOf(gm, o) ==> Settled(Replace(gm, o, n), x)
  {
    forall x | Settled(g0, x) && x != o && x !in UsesOf(gm, o)
      ensures Settled(Replace(gm, o, n), x)
    {
      SettledAppend(g0, gm, x);
      SettledReplace(gm, o, n, x);
    }
  }

  /** Every user of a node is a node. */
  lemma UsesAreNodes(g: Graph, n: Node)
    requires WellFormed(g)
    ensures forall k :: 0 <= k < |UsesOf(g, n)| ==> IsNode(g, UsesOf(g, n)[k])
  {
    forall k | 0 <= k < |UsesOf(g, n)|
      ensures IsNode(g, UsesOf(g, n)[k])
    {
      UsesInMembers(g.edges, n, UsesOf(g, n)[k]);
    }
  }

  class SSAConstruction {
    var g: Graph
    const variables: seq<string>
    var sealedBlocks: set<Node>
    var currentDef: map<string, map<Node, Node>>
    var incompletePhis: map<Node, map<string, Node>>
    var globalVariables: map<string, Node>
    /** Set, and never cleared, where the source would panic or recurse
        without end; all other results are only promised while it is clear. */
    var fault: bool
    ghost var rank: map<Node, nat>
    ghost var removals: nat

    /** Whether `variable` has a definition visible in `block`: per block
        for a tracked register, one global definition otherwise. */
    ghost predicate Bound(variable: string, block: Node)
      reads this
    {
      BoundIn(currentDef, globalVariables, variable, block)
    }

    function Binding(variable: string, block: Node): (r: Option<Node>)
      reads this
      ensures r.Some? <==> Bound(variable, block)
      ensures r.Some? && DefsOk(g, currentDef, globalVariables) ==> Ref(g, r.value)
    {
      assert DefsOk(g, currentDef, globalVariables) ==>
               DefOk(g, currentDef, variable, block) && GlobalOk(g, globalVariables, variable);
      if variable in currentDef then
        (if block in currentDef[variable] then Some(currentDef[variable][block]) else None)
      else if variable in globalVariables then Some(globalVariables[variable])
      else None
    }

    ghost predicate Core()
      reads this
    {
      GraphOk(g, rank, removals) && DefsOk(g, currentDef, globalVariables) && PendingOk(g, incompletePhis)
    }

    ghost predicate Valid()
      reads this
    {
      Core() && PendingBound(currentDef, globalVariables, incompletePhis, false, End, "")
    }

    /** `new`: every register of the profile is tracked, with no
        definitions yet. */
    constructor (vars: seq<string>, g0: Graph)
      requires WellFormed(g0) && UsesLive(g0)
      requires forall i :: 0 <= i < |g0.nodes| ==> !g0.nodes[i].Removed?
      ensures Valid() && !fault
      ensures g == g0 && variables == vars
      ensures currentDef == map v | v in vars :: map[]
      ensures sealedBlocks == {} && incompletePhis == map[] && globalVariables == map[]
    {
      g := g0;
      variables := vars;
      sealedBlocks := {};
      currentDef := map v | v in vars :: map[];
      incompletePhis := map[];
      globalVariables := map[];
      fault := false;
      rank := map[];
      removals := 0;
    }

    /** Creates a block node with an empty table of pending phis.  The
        source calls such a method from the decoder; its body is not part
        of this model and follows the table initialisation of the
        construction's own (disabled) driver. */
    method AddBlock(addr: nat) returns (b: Node)
      requires Valid()
      modifies this`g, this`incompletePhis
      ensures Valid() && Extends(old(g), g, sealedBlocks, End)
      ensures g.nodes == old(g.nodes) + [BlockNode(addr)] && g.edges == old(g.edges)
      ensures b == |old(g.nodes)| && incompletePhis == old(incompletePhis)[b := map[]]
    {
      ghost var g0 := g;
      var r := AddNode(g, BlockNode(addr));
      GraphOkAddNode(g, rank, removals, BlockNode(addr));
      g, b := r.0, r.1;
      MapsFollow(g0, g, currentDef, globalVariables, incompletePhis);
      PendingSet(g, incompletePhis, b, map[]);
      incompletePhis := incompletePhis[b := map[]];
    }

    /** `write_variable`: one definition changes, nothing else. */
    method WriteVariable(block: Node, variable: string, value: Node)
      requires Core() && Ref(g, value)
      modifies this`currentDef, this`globalVariables
      ensures Core()
      ensures old(PendingBound(currentDef, globalVariables, incompletePhis, true, block, variable)) ==> Valid()
      ensures variable in old(currentDef) ==>
                currentDef == old(currentDef)[variable := old(currentDef)[variable][block := value]]
                && globalVariables == old(globalVariables)
      ensures variable !in old(currentDef) ==>
                globalVariables == old(globalVariables)[variable := value] && currentDef == old(currentDef)
      ensures Binding(variable, block) == Some(value)
    {
      ghost var cd0, gv0 := currentDef, globalVariables;
      if variable in currentDef {
        currentDef := currentDef[variable := currentDef[variable][block := value]];
      } else {
        globalVariables := globalVariables[variable := value];
      }
      forall v, b
        ensures DefOk(g, currentDef, v, b)
      {
        assert DefOk(g, cd0, v, b);
      }
      forall v
        ensures GlobalOk(g, globalVariables, v)
      {
        assert GlobalOk(g, gv0, v);
      }
    }

    /** `replaced_by`: the target of the newest `ReplacedBy` edge leaving
        `node`, found by walking its edges newest first. */
    method ReplacedBy(node: Node) returns (t: Node)
      ensures t == ReplacedByTarget(g, node)
    {
      var i := |g.edges|;
      assert g.edges[..i] == g.edges;
      while i > 0
        invariant 0 <= i <= |g.edges|
        invariant ReplacedByIn(g.edges[..i], node) == ReplacedByIn(g.edges, node)
      {
        assert g.edges[..i][..i - 1] == g.edges[..i - 1];
        i := i - 1;
        var e := g.edges[i];
        if e.data.ReplacedBy? && e.src == node {
          return e.dst;
        }
      }
      return End;
    }

    /** The loop of `read_variable`: follow `ReplacedBy` edges from `n`
        until a node that has not been removed. */
    method Resolve(n: Node) returns (r: Node)
      requires GraphOk(g, rank, removals) && IsNode(g, n)
      ensures r == ChainEnd(g, rank, removals, n)
    {
      r := n;
      assert TombstoneOk(g, rank, removals, r);
      while g.nodes[r].Removed?
        invariant IsNode(g, r)
        invariant ChainEnd(g, rank, removals, r) == ChainEnd(g, rank, removals, n)
        invariant g.nodes[r].Removed? ==> r in rank && rank[r] < removals
        decreases if g.nodes[r].Removed? && r in rank then removals - rank[r] else 0
      {
        assert TombstoneOk(g, rank, removals, r);
        r := ReplacedBy(r);
        assert TombstoneOk(g, rank, removals, r);
      }
    }

    /** `read_variable`: the existing definition, or one found by the
        recursive search, followed along `ReplacedBy` edges to a live node. */
    method ReadVariable(block: Node, variable: string, fuel: nat) returns (n: Node)
      requires Valid()
      modifies this`g, this`currentDef, this`globalVariables, this`incompletePhis, this`fault, this`rank, this`removals
      decreases fuel, 2
      ensures Valid() && Extends(old(g), g, sealedBlocks, End)
      ensures old(fault) ==> fault
      ensures n == End || Live(g, n)
      ensures !fault ==> Live(g, n)
      ensures old(Binding(variable, block)).Some? && old(Binding(variable, block)).value != End ==>
                g == old(g) && currentDef == old(currentDef) && globalVariables == old(globalVariables)
                && incompletePhis == old(incompletePhis) && fault == old(fault)
                && n == ChainEnd(g, rank, removals, old(Binding(variable, block)).value)
    {
      var b := Binding(variable, block);
      if b.Some? {
        n := b.value;
        ExtendsRefl(g, sealedBlocks, End);
      } else {
        n := ReadVariableRecursive(variable, block, fuel);
      }
      if n == End {
        // indexing the graph with the invalid index panics
        fault := true;
        return;
      }
      n := Resolve(n);
    }

    /** `read_variable_recursive`: no definition of `variable` reaches
        `block` yet.  In an unsealed block a pending phi is recorded; with
        exactly one predecessor the value is read there; otherwise a phi
        is bound first, to break cycles, and then given its operands. */
    method ReadVariableRecursive(variable: string, block: Node, fuel: nat) returns (val: Node)
      requires Valid() && !Bound(variable, block)
      modifies this`g, this`currentDef, this`globalVariables, this`incompletePhis, this`fault, this`rank, this`removals
      decreases fuel, 1
      ensures Valid() && Extends(old(g), g, sealedBlocks, End)
      ensures old(fault) ==> fault
      ensures Ref(g, val)
      ensures !fault ==> IsNode(g, val) && Binding(variable, block) == Some(val)
      ensures !fault && block !in sealedBlocks ==>
                block in old(incompletePhis) && val == |old(g.nodes)| && g.nodes == old(g.nodes) + [Phi(variable, block)]
                && g.edges == old(g.edges)
                && incompletePhis == old(incompletePhis)[block := old(incompletePhis)[block][variable := val]]
    {
      if block !in sealedBlocks {
        val := RecordPendingPhi(variable, block);
        if val == End {
          return;
        }
      } else {
        var preds := PredsOf(g, block);
        if |preds| == 1 {
          if fuel == 0 {
            fault := true;
            ExtendsRefl(g, sealedBlocks, End);
            return End;
          }
          val := ReadVariable(preds[0], variable, fuel - 1);
        } else {
          val := CompletedPhi(variable, block, fuel);
          if val == End {
            return;
          }
        }
      }
      WriteVariable(block, variable, val);
    }

    /** The unsealed case of `read_variable_recursive`: a new phi without
        operands, recorded as pending in the block.  The slot was empty, as
        the source asserts: a pending phi is always recorded as a
        definition, and there is none. */
    method RecordPendingPhi(variable: string, block: Node) returns (val: Node)
      requires Valid() && !Bound(variable, block) && block !in sealedBlocks
      modifies this`g, this`incompletePhis, this`fault
      ensures Core() && PendingBound(currentDef, globalVariables, incompletePhis, true, block, variable)
      ensures Extends(old(g), g, sealedBlocks, End)
      ensures old(fault) ==> fault
      ensures Ref(g, val) && (val == End ==> fault && Valid())
      ensures !fault ==>
                block in old(incompletePhis) && val == |old(g.nodes)| && g.nodes == old(g.nodes) + [Phi(variable, block)]
                && g.edges == old(g.edges)
                && incompletePhis == old(incompletePhis)[block := old(incompletePhis)[block][variable := val]]
    {
      if block !in incompletePhis {
        // the lookup of the block's pending phis panics
        fault := true;
        ExtendsRefl(g, sealedBlocks, End);
        return End;
      }
      ghost var g0 := g;
      var r := AddNode(g, Phi(variable, block));
      GraphOkAddNode(g, rank, removals, Phi(variable, block));
      g, val := r.0, r.1;
      MapsFollow(g0, g, currentDef, globalVariables, incompletePhis);
      assert Extends(g0, g, sealedBlocks, End);
      assert variable !in incompletePhis[block];
      var m := incompletePhis[block][variable := val];
      forall v | v in m
        ensures IsNode(g, m[v]) && PhiOrRemoved(g, m[v])
      {
        assert PendingPhiOk(g, incompletePhis, block, v);
      }
      PendingSet(g, incompletePhis, block, m);
      incompletePhis := incompletePhis[block := m];
    }

    /** The joining case of `read_variable_recursive`: a phi is created and
        bound first, then given its operands and simplified. */
    method CompletedPhi(variable: string, block: Node, fuel: nat) returns (val: Node)
      requires Valid() && !Bound(variable, block) && block in sealedBlocks && |PredsOf(g, block)| != 1
      modifies this`g, this`currentDef, this`globalVariables, this`incompletePhis, this`fault, this`rank, this`removals
      decreases fuel, 0, 1
      ensures Valid() && Extends(old(g), g, sealedBlocks, End)
      ensures old(fault) ==> fault
      ensures Ref(g, val) && (val == End ==> fault)
      ensures !fault ==>
        var phi := |old(g.nodes)|;
        IsNode(g, phi) && (val == phi || (g.nodes[phi].Removed? && ReplacedByTarget(g, phi) == val))
    {
      ghost var g0 := g;
      var r := AddNode(g, Phi(variable, block));
      GraphOkAddNode(g, rank, removals, Phi(variable, block));
      g, val := r.0, r.1;
      MapsFollow(g0, g, currentDef, globalVariables, incompletePhis);
      assert Extends(g0, g, sealedBlocks, End);
      WriteVariable(block, variable, val);
      ghost var g1 := g;
      ghost var ops;
      val, ops := AddPhiOperands(block, variable, val, fuel);
      ExtendsTrans(g0, g1, g, sealedBlocks, End, r.1);
      assert ArgCountsKept(g0, g, End) by {
        forall x | IsNode(g0, x)
          ensures |ArgsOf(g, x)| == |ArgsOf(g0, x)|
        {
          assert x != r.1;
        }
      }
    }

    /** `add_phi_operands`: one operand per predecessor of the phi's block,
        each read in that predecessor; then the phi is simplified. */
    method AddPhiOperands(block: Node, variable: string, phi: Node, fuel: nat) returns (n: Node, ghost ops: seq<Node>)
      requires Valid() && IsNode(g, phi) && PhiOrRemoved(g, phi)
      modifies this`g, this`currentDef, this`globalVariables, this`incompletePhis, this`fault, this`rank, this`removals
      decreases fuel, 0, 0
      ensures Valid() && Extends(old(g), g, sealedBlocks, phi)
      ensures old(fault) ==> fault
      ensures Ref(g, n) && (n == End ==> fault)
      ensures !fault ==> |ArgsOf(g, phi)| == |ArgsOf(old(g), phi)| + |PredsOf(old(g), block)|
      ensures !fault ==> |ops| == |ArgsOf(old(g), phi)| + |PredsOf(old(g), block)|
      ensures !fault && Scan(ops, phi) == NonTrivial ==> n == phi
      ensures !fault && Scan(ops, phi) != NonTrivial ==> g.nodes[phi].Removed? && ReplacedByTarget(g, phi) == n
      ensures !fault && Scan(ops, phi).Same? ==> n == Scan(ops, phi).value
    {
      ExtendsRefl(g, sealedBlocks, phi);
      if BlockOf(g, phi) != block {
        // the source asserts that the phi belongs to the block
        fault := true;
        return End, [];
      }
      var preds := PredsOf(g, block);
      if |preds| > 0 && fuel == 0 {
        fault := true;
        return End, [];
      }
      ghost var g0 := g;
      var i := 0;
      while i < |preds|
        invariant 0 <= i <= |preds|
        invariant Valid() && Extends(g0, g, sealedBlocks, phi)
        invariant old(fault) ==> fault
        invariant !fault ==> |ArgsOf(g, phi)| == |ArgsOf(g0, phi)| + i
      {
        ghost var gi := g;
        AddOperand(preds[i], variable, phi, fuel - 1);
        ExtendsTrans(g0, gi, g, sealedBlocks, phi, phi);
        i := i + 1;
      }
      ghost var g2 := g;
      ops := ArgsOf(g, phi);
      n := TryRemoveTrivialPhi(phi);
      SimplifiedExtends(g2, g, phi, sealedBlocks);
      ExtendsTrans(g0, g2, g, sealedBlocks, phi, End);
    }

    /** One step of the loop of `add_phi_operands`: the value of `variable`
        in the predecessor `pred` becomes a new operand of the phi. */
    method AddOperand(pred: Node, variable: string, phi: Node, fuel: nat)
      requires Valid() && IsNode(g, phi)
      modifies this`g, this`currentDef, this`globalVariables, this`incompletePhis, this`fault, this`rank, this`removals
      decreases fuel, 3
      ensures Valid() && Extends(old(g), g, sealedBlocks, phi)
      ensures old(fault) ==> fault
      ensures !fault ==> |ArgsOf(g, phi)| == |ArgsOf(old(g), phi)| + 1
    {
      ghost var g0 := g;
      var datasource := ReadVariable(pred, variable, fuel);
      ghost var gr := g;
      ExtendsPhiUse(g, phi, datasource, sealedBlocks);
      if IsNode(g, datasource) {
        GraphOkAddEdge(g, rank, removals, Edge(phi, datasource, PhiUse));
      }
      g := PhiUseEdge(g, phi, datasource);
      MapsFollow(gr, g, currentDef, globalVariables, incompletePhis);
      ExtendsTrans(g0, gr, g, sealedBlocks, End, phi);
    }

    /** `try_remove_trivial_phi`: a phi whose operands, ignoring
        self-references, are a single value is replaced by that value; one
        with no such operand by a fresh `Undefined` node; and every phi that
        read it is examined again, since it may have become trivial. */
    method TryRemoveTrivialPhi(phi: Node) returns (same: Node)
      requires Valid() && IsNode(g, phi) && PhiOrRemoved(g, phi)
      modifies this`g, this`rank, this`removals
      decreases PhiCount(g.nodes), if g.nodes[phi].Phi? then 0 else 2, 1
      ensures Valid() && Simplified(old(g), g, phi)
      ensures IsNode(g, same)
      ensures Scan(ArgsOf(old(g), phi), phi) == NonTrivial ==> same == phi && g == old(g)
      ensures Scan(ArgsOf(old(g), phi), phi).Same? ==>
                same == Scan(ArgsOf(old(g), phi), phi).value
                && g.nodes[phi].Removed? && ReplacedByTarget(g, phi) == same
      ensures Scan(ArgsOf(old(g), phi), phi) == NoOperand ==>
                same == |old(g.nodes)| && g.nodes[same] == Undefined
                && g.nodes[phi].Removed? && ReplacedByTarget(g, phi) == same
      ensures Settled(g, phi)
      ensures forall x :: Settled(old(g), x) ==> Settled(g, x)
    {
      var t := ScanOperands(phi);
      if t == NonTrivial {
        SimplifiedRefl(g, phi);
        return phi;
      }
      same := RemoveTrivialPhi(phi, t);
    }

    /** The part of `try_remove_trivial_phi` after a trivial scan: the phi
        is replaced by its one value, or by a fresh `Undefined` node, and
        its former users are examined again. */
    method RemoveTrivialPhi(phi: Node, t: Triviality) returns (same: Node)
      requires Valid() && IsNode(g, phi) && PhiOrRemoved(g, phi)
      requires t == NoOperand || (t.Same? && t.value in ArgsOf(g, phi) && t.value != phi)
      modifies this`g, this`rank, this`removals
      decreases PhiCount(g.nodes), if g.nodes[phi].Phi? then 0 else 2, 0
      ensures Valid() && Simplified(old(g), g, phi)
      ensures IsNode(g, same) && g.nodes[phi].Removed? && ReplacedByTarget(g, phi) == same
      ensures t.Same? ==> same == t.value
      ensures t == NoOperand ==> same == |old(g.nodes)| && g.nodes[same] == Undefined
      ensures forall x :: Settled(old(g), x) ==> Settled(g, x)
    {
      ghost var g0 := g;
      var users;
      same, users := ReplacePhi(phi, t);
      ghost var g1 := g;
      SimplifyUsers(phi, users);
      assert Evolved(g1.nodes[phi], g.nodes[phi]);
      assert Evolved(g1.nodes[same], g.nodes[same]);
      SimplifiedTrans(g0, g1, g, phi, End);
    }

    /** The replacement step of `try_remove_trivial_phi`: the users of the
        phi are recorded, then every use is rerouted to its one value, or to
        a fresh `Undefined` node, and the phi is removed. Only those users
        can stop being settled. */
    method ReplacePhi(phi: Node, t: Triviality) returns (same: Node, users: seq<Node>)
      requires Valid() && IsNode(g, phi) && PhiOrRemoved(g, phi)
      requires t == NoOperand || (t.Same? && t.value in ArgsOf(g, phi) && t.value != phi)
      modifies this`g, this`rank, this`removals
      ensures Valid() && Simplified(old(g), g, phi)
      ensures PhiCount(g.nodes) == old(PhiCount(g.nodes)) - (if old(g.nodes[phi]).Phi? then 1 else 0)
      ensures IsNode(g, same) && g.nodes[phi].Removed? && ReplacedByTarget(g, phi) == same
      ensures t.Same? ==> same == t.value
      ensures t == NoOperand ==> same == |old(g.nodes)| && g.nodes[same] == Undefined
      ensures users == UsesOf(old(g), phi) && forall k :: 0 <= k < |users| ==> IsNode(g, users[k])
      ensures forall x :: Settled(old(g), x) && x !in users ==> Settled(g, x)
    {
      ghost var g0 := g;
      if t == NoOperand {
        same := AddUndefined();
      } else {
        same := t.value;
        ArgsLive(g, phi, same);
        SimplifiedRefl(g, End);
      }
      users := UsesOf(g, phi);
      UsesAreNodes(g, phi);
      ghost var gm := g;
      same := ReplaceTrivial(phi, same);
      SimplifiedTrans(g0, gm, g, End, phi);
      SettledKept(g0, gm, phi, same);
    }

    /** The last loop of `try_remove_trivial_phi`: every phi among the
        former users of `phi`, other than `phi` itself, is examined again,
        so each of them ends up removed or with operands that are not
        trivial, and nothing settled before is unsettled. */
    method SimplifyUsers(phi: Node, users: seq<Node>)
      requires Valid() && forall k :: 0 <= k < |users| ==> IsNode(g, users[k])
      modifies this`g, this`rank, this`removals
      decreases PhiCount(g.nodes), 1, 0
      ensures Valid() && Simplified(old(g), g, End)
      ensures forall k :: 0 <= k < |users| && users[k] != phi ==> Settled(g, users[k])
      ensures forall x :: Settled(old(g), x) ==> Settled(g, x)
    {
      ghost var g1 := g;
      SimplifiedRefl(g, End);
      var i := 0;
      while i < |users|
        invariant 0 <= i <= |users|
        invariant Valid() && Simplified(g1, g, End)
        invariant forall k :: 0 <= k < i && users[k] != phi ==> Settled(g, users[k])
        invariant forall x :: Settled(g1, x) ==> Settled(g, x)
      {
        var u := users[i];
        if u != phi && g.nodes[u].Phi? {
          ghost var gi := g;
          var _ := TryRemoveTrivialPhi(u);
          SimplifiedTransPhi(g1, gi, g, End, u);
        }
        i := i + 1;
      }
    }

    /** The operand scan of `try_remove_trivial_phi`. */
    method ScanOperands(phi: Node) returns (t: Triviality)
      ensures t == Scan(ArgsOf(g, phi), phi)
      ensures t.Same? ==> t.value in ArgsOf(g, phi) && t.value != phi && t.value != End
    {
      var ops := ArgsOf(g, phi);
      var same := End;
      var i := 0;
      while i < |ops|
        invariant 0 <= i <= |ops|
        invariant ScanFrom(ops[i..], phi, same) == Scan(ops, phi)
        invariant same == End || (same in ops && same != phi)
      {
        var op := ops[i];
        assert ops[i..][1..] == ops[i + 1..];
        if op == same || op == phi {
          i := i + 1;
          continue;
        }
        if same != End {
          return NonTrivial;
        }
        same := op;
        i := i + 1;
      }
      t := if same == End then NoOperand else Same(same);
    }

    /** The `Undefined` node that replaces a phi without operands. */
    method AddUndefined() returns (u: Node)
      requires Valid()
      modifies this`g
      ensures Valid() && Simplified(old(g), g, End)
      ensures u == |old(g.nodes)| && g.nodes == old(g.nodes) + [Undefined] && g.edges == old(g.edges)
    {
      ghost var g0 := g;
      SimplifiedAddNode(g, Undefined);
      GraphOkAddNode(g, rank, removals, Undefined);
      var r := AddNode(g, Undefined);
      g, u := r.0, r.1;
      MapsFollow(g0, g, currentDef, globalVariables, incompletePhis);
    }

    /** `replace` as the simplification calls it: every use of the phi now
        uses `same`, the phi is removed and points at `same`. */
    method ReplaceTrivial(phi: Node, same: Node) returns (s: Node)
      requires Valid() && IsNode(g, phi) && PhiOrRemoved(g, phi) && Live(g, same) && phi != same
      modifies this`g, this`rank, this`removals
      ensures Valid() && Simplified(old(g), g, phi) && s == same
      ensures g == Replace(old(g), phi, same)
      ensures PhiCount(g.nodes) == old(PhiCount(g.nodes)) - (if old(g.nodes[phi]).Phi? then 1 else 0)
    {
      ghost var g0 := g;
      PhiCountRemove(g.nodes, phi);
      GraphOkReplace(g, rank, removals, phi, same);
      if !g.nodes[phi].Removed? {
        rank := rank[phi := removals];
        removals := removals + 1;
      }
      g := Replace(g, phi, same);
      MapsFollow(g0, g, currentDef, globalVariables, incompletePhis);
      s := same;
    }

    /** `seal_block`: every phi pending in the block receives one operand
        per predecessor of the block, and the block is marked sealed. */
    method SealBlock(block: Node, fuel: nat)
      requires Valid()
      modifies this`g, this`currentDef, this`globalVariables, this`incompletePhis, this`fault, this`rank, this`removals, this`sealedBlocks
      ensures Valid() && Grows(old(g), g)
      ensures old(fault) ==> fault
      ensures !fault ==> sealedBlocks == old(sealedBlocks) + {block}
      ensures !fault ==>
                block in old(incompletePhis) &&
                forall v :: v in old(incompletePhis)[block] ==>
                  |ArgsOf(g, old(incompletePhis)[block][v])|
                  >= |ArgsOf(old(g), old(incompletePhis)[block][v])| + |PredsOf(old(g), block)|
    {
      if block !in incompletePhis {
        // the lookup of the block's pending phis panics
        fault := true;
      } else {
        CompletePending(block, fuel);
        sealedBlocks := sealedBlocks + {block};
      }
    }

    /** The loop of `seal_block`: operands for every phi pending in the
        block. */
    method CompletePending(block: Node, fuel: nat)
      requires Valid() && block in incompletePhis
      modifies this`g, this`currentDef, this`globalVariables, this`incompletePhis, this`fault, this`rank, this`removals
      ensures Valid() && Grows(old(g), g)
      ensures old(fault) ==> fault
      ensures !fault ==>
                forall v :: v in old(incompletePhis)[block] ==>
                  |ArgsOf(g, old(incompletePhis)[block][v])|
                  >= |ArgsOf(old(g), old(incompletePhis)[block][v])| + |PredsOf(old(g), block)|
    {
      var inc := incompletePhis[block];
      ghost var g0, inc0 := g, inc;
      forall v | v in inc0
        ensures IsNode(g, inc0[v]) && PhiOrRemoved(g, inc0[v])
      {
        assert PendingPhiOk(g, incompletePhis, block, v);
      }
      while inc != map[]
        invariant Valid() && Grows(g0, g)
        invariant old(fault) ==> fault
        invariant forall v :: v in inc0 ==> IsNode(g, inc0[v]) && PhiOrRemoved(g, inc0[v])
        invariant forall v :: v in inc ==> v in inc0 && inc[v] == inc0[v]
        invariant !fault ==> OperandsAdded(g0, g, inc0, inc, block) == true
        decreases |inc|
      {
        var v :| v in inc;
        ghost var gi := g;
        var _, _ := AddPhiOperands(block, v, inc[v], fuel);
        if !fault {
          OperandsAddedStep(g0, gi, g, inc0, inc, block, v, sealedBlocks);
        }
        GrowsTrans(g0, gi, g);
        forall w | w in inc0
          ensures IsNode(g, inc0[w]) && PhiOrRemoved(g, inc0[w])
        {
          assert Evolved(gi.nodes[inc0[w]], g.nodes[inc0[w]]);
        }
        inc := inc - {v};
      }
    }

    /** A comment node in `block` (used for operands the decoder cannot
        name). */
    method AddComment(block: Node, text: string) returns (n: Node)
      requires Valid()
      modifies this`g
      ensures Valid() && Extends(old(g), g, sealedBlocks, End)
      ensures g.nodes == old(g.nodes) + [Comment(text, block)] && g.edges == old(g.edges)
      ensures n == |old(g.nodes)|
    {
      ghost var g0 := g;
      var r := AddNode(g, Comment(text, block));
      GraphOkAddNode(g, rank, removals, Comment(text, block));
      g, n := r.0, r.1;
      MapsFollow(g0, g, currentDef, globalVariables, incompletePhis);
    }

    /** An operation node in `block`. */
    method AddOp(block: Node, opcode: MOpcode, width: nat) returns (n: Node)
      requires Valid()
      modifies this`g
      ensures Valid() && Extends(old(g), g, sealedBlocks, End)
      ensures g.nodes == old(g.nodes) + [Op(opcode, width, block)] && g.edges == old(g.edges)
      ensures n == |old(g.nodes)|
    {
      ghost var g0 := g;
      var r := AddNode(g, Op(opcode, width, block));
      GraphOkAddNode(g, rank, removals, Op(opcode, width, block));
      g, n := r.0, r.1;
      MapsFollow(g0, g, currentDef, globalVariables, incompletePhis);
    }

    /** An operand edge from operation `user` to `n`; nothing for `End`. */
    method OpUseEdge(user: Node, pos: nat, n: Node)
      requires Valid() && (n == End || Live(g, n))
      modifies this`g
      ensures Valid() && Extends(old(g), g, sealedBlocks, End)
      ensures g == OpUse(old(g), user, pos, n)
    {
      ghost var g0 := g;
      if IsNode(g, user) && IsNode(g, n) {
        GraphOkAddEdge(g, rank, removals, Edge(user, n, Data(pos)));
      }
      g := OpUse(g, user, pos, n);
      MapsFollow(g0, g, currentDef, globalVariables, incompletePhis);
    }

    /** A control edge between two blocks. */
    method AddControlEdge(src: Node, dst: Node, tag: nat)
      requires Valid() && IsNode(g, src) && IsNode(g, dst)
      modifies this`g
      ensures Valid() && g.nodes == old(g.nodes)
      ensures g == AddEdge(old(g), Edge(src, dst, Control(tag)))
      ensures PredsOf(g, dst) == [src] + PredsOf(old(g), dst)
    {
      ghost var g0 := g;
      GraphOkAddEdge(g, rank, removals, Edge(src, dst, Control(tag)));
      g := AddEdge(g, Edge(src, dst, Control(tag)));
      MapsFollow(g0, g, currentDef, globalVariables, incompletePhis);
    }
  }
}
