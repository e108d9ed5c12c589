/** The SSA graph the construction writes into, as a value: an arena of
    node records indexed by position and a list of labelled edges in
    insertion order.  Removing a node leaves a `Removed` record in place
    and a `ReplacedBy` edge to its replacement, so an index that was once
    valid stays valid. */
module SsaGraph {
  import opened TokenSyntax
  import opened Ir

  /** A node index; `End` is the invalid index. */
  type Node = int
  const End: Node := -1

  datatype NodeData =
    | BlockNode(addr: nat)
    | Op(opcode: MOpcode, width: nat, block: Node)
    | Phi(variable: string, block: Node)
    | Comment(text: string, block: Node)
    | Undefined
    | Removed

  /** Control edges carry the successor tag (0 fall-through or false,
      1 true, 9 unconditional jump); data edges the operand position. */
  datatype EdgeData = Control(tag: nat) | Data(pos: nat) | PhiUse | ReplacedBy

  datatype Edge = Edge(src: Node, dst: Node, data: EdgeData)

  datatype Graph = Graph(nodes: seq<NodeData>, edges: seq<Edge>)

  /** An edge through which its source reads its target's value. */
  predicate IsUse(d: EdgeData) {
    d.Data? || d.PhiUse?
  }

  predicate IsNode(g: Graph, n: Node) {
    0 <= n < |g.nodes|
  }

  predicate Live(g: Graph, n: Node) {
    IsNode(g, n) && !g.nodes[n].Removed?
  }

  /** Every edge joins two existing nodes. */
  predicate WellFormed(g: Graph) {
    forall i :: 0 <= i < |g.edges| ==> IsNode(g, g.edges[i].src) && IsNode(g, g.edges[i].dst)
  }

  /** Every reader reads a node that has not been removed. */
  predicate UsesLive(g: Graph) {
    forall i :: 0 <= i < |g.edges| && IsUse(g.edges[i].data) ==> Live(g, g.edges[i].dst)
  }

  const EmptyGraph: Graph := Graph([], [])

  // ----- queries over an edge list, newest edge first -----

  /** Sources of the control edges into `b`. */
  function PredsIn(es: seq<Edge>, b: Node): (r: seq<Node>)
    decreases |es|
  {
    if |es| == 0 then []
    else
      var e := es[|es| - 1];
      var rest := PredsIn(es[..|es| - 1], b);
      if e.data.Control? && e.dst == b then [e.src] + rest else rest
  }

  /** Targets of the phi-operand edges out of `phi`. */
  function ArgsIn(es: seq<Edge>, phi: Node): (r: seq<Node>)
    decreases |es|
  {
    if |es| == 0 then []
    else
      var e := es[|es| - 1];
      var rest := ArgsIn(es[..|es| - 1], phi);
      if e.data.PhiUse? && e.src == phi then [e.dst] + rest else rest
  }

  /** Sources of the use edges into `n`: the nodes that read `n`. */
  function UsesIn(es: seq<Edge>, n: Node): (r: seq<Node>)
    decreases |es|
  {
    if |es| == 0 then []
    else
      var e := es[|es| - 1];
      var rest := UsesIn(es[..|es| - 1], n);
      if IsUse(e.data) && e.dst == n then [e.src] + rest else rest
  }

  /** The target of the newest `ReplacedBy` edge out of `n`, or `End`. */
  function ReplacedByIn(es: seq<Edge>, n: Node): (r: Node)
    decreases |es|
  {
    if |es| == 0 then End
    else
      var e := es[|es| - 1];
      var rest := ReplacedByIn(es[..|es| - 1], n);
      if e.data.ReplacedBy? && e.src == n then e.dst else rest
  }

  /** A block's predecessors are exactly the sources of its control edges. */
  lemma {:induction false} PredsInMembers(es: seq<Edge>, b: Node, x: Node)
    ensures x in PredsIn(es, b) <==> exists i :: 0 <= i < |es| && es[i].data.Control? && es[i].dst == b && es[i].src == x
    decreases |es|
  {
    if |es| > 0 {
      PredsInMembers(es[..|es| - 1], b, x);
      assert forall i :: 0 <= i < |es| - 1 ==> es[..|es| - 1][i] == es[i];
    }
  }

  /** A phi's operands are exactly the targets of its operand edges. */
  lemma {:induction false} ArgsInMembers(es: seq<Edge>, phi: Node, x: Node)
    ensures x in ArgsIn(es, phi) <==> exists i :: 0 <= i < |es| && es[i].data.PhiUse? && es[i].src == phi && es[i].dst == x
    decreases |es|
  {
    if |es| > 0 {
      var init, e := es[..|es| - 1], es[|es| - 1];
      ArgsInMembers(init, phi, x);
      var here := e.data.PhiUse? && e.src == phi && e.dst == x;
      if x in ArgsIn(es, phi) && !here {
        assert x in ArgsIn(init, phi);
        var i :| 0 <= i < |init| && init[i].data.PhiUse? && init[i].src == phi && init[i].dst == x;
        assert es[i] == init[i];
      }
      if i :| 0 <= i < |es| && es[i].data.PhiUse? && es[i].src == phi && es[i].dst == x {
        if i < |init| {
          assert init[i] == es[i];
        }
      }
    }
  }

  /** A node's users are exactly the sources of the use edges into it. */
  lemma {:induction false} UsesInMembers(es: seq<Edge>, n: Node, x: Node)
    ensures x in UsesIn(es, n) <==> exists i :: 0 <= i < |es| && IsUse(es[i].data) && es[i].dst == n && es[i].src == x
    decreases |es|
  {
    if |es| > 0 {
      UsesInMembers(es[..|es| - 1], n, x);
      assert forall i :: 0 <= i < |es| - 1 ==> es[..|es| - 1][i] == es[i];
    }
  }

  /** A replacement target, when there is one, is the target of a
      `ReplacedBy` edge leaving the node. */
  lemma {:induction false} ReplacedByInEdge(es: seq<Edge>, n: Node)
    ensures ReplacedByIn(es, n) == End
            || exists i :: 0 <= i < |es| && es[i].data.ReplacedBy? && es[i].src == n && es[i].dst == ReplacedByIn(es, n)
    decreases |es|
  {
    if |es| > 0 {
      ReplacedByInEdge(es[..|es| - 1], n);
      assert forall i :: 0 <= i < |es| - 1 ==> es[..|es| - 1][i] == es[i];
    }
  }

  /** `s` with every `o` replaced by `n`. */
  function Subst(s: seq<Node>, o: Node, n: Node): (r: seq<Node>)
    ensures |r| == |s|
    ensures forall i :: 0 <= i < |s| ==> r[i] == (if s[i] == o then n else s[i])
  {
    if |s| == 0 then [] else [if s[0] == o then n else s[0]] + Subst(s[1..], o, n)
  }

  /** Point a use edge into `o` at `n` instead. */
  function RedirectEdge(e: Edge, o: Node, n: Node): Edge {
    if e.dst == o && IsUse(e.data) then Edge(e.src, n, e.data) else e
  }

  function Redirect(es: seq<Edge>, o: Node, n: Node): (r: seq<Edge>)
    ensures |r| == |es|
    ensures forall i :: 0 <= i < |es| ==> r[i] == RedirectEdge(es[i], o, n)
    decreases |es|
  {
    if |es| == 0 then [] else Redirect(es[..|es| - 1], o, n) + [RedirectEdge(es[|es| - 1], o, n)]
  }

  lemma RedirectPrefix(es: seq<Edge>, o: Node, n: Node)
    requires |es| > 0
    ensures Redirect(es, o, n)[..|es| - 1] == Redirect(es[..|es| - 1], o, n)
    ensures Redirect(es, o, n)[|es| - 1] == RedirectEdge(es[|es| - 1], o, n)
  {
  }

  /** Redirecting use edges leaves every block's predecessors alone. */
  lemma {:induction false} PredsRedirect(es: seq<Edge>, o: Node, n: Node, b: Node)
    ensures PredsIn(Redirect(es, o, n), b) == PredsIn(es, b)
    decreases |es|
  {
    if |es| > 0 {
      RedirectPrefix(es, o, n);
      PredsRedirect(es[..|es| - 1], o, n, b);
    }
  }

  /** Redirecting turns every phi operand `o` into `n`, in place. */
  lemma {:induction false} ArgsRedirect(es: seq<Edge>, o: Node, n: Node, phi: Node)
    ensures ArgsIn(Redirect(es, o, n), phi) == Subst(ArgsIn(es, phi), o, n)
    decreases |es|
  {
    if |es| > 0 {
      RedirectPrefix(es, o, n);
      ArgsRedirect(es[..|es| - 1], o, n, phi);
      var e := es[|es| - 1];
      var rest := ArgsIn(es[..|es| - 1], phi);
      if e.data.PhiUse? && e.src == phi {
        assert Subst([e.dst] + rest, o, n) == [if e.dst == o then n else e.dst] + Subst(rest, o, n);
      }
    }
  }

  /** Redirecting never touches `ReplacedBy` edges. */
  lemma {:induction false} ReplacedByRedirect(es: seq<Edge>, o: Node, n: Node, m: Node)
    ensures ReplacedByIn(Redirect(es, o, n), m) == ReplacedByIn(es, m)
    decreases |es|
  {
    if |es| > 0 {
      RedirectPrefix(es, o, n);
      ReplacedByRedirect(es[..|es| - 1], o, n, m);
    }
  }

  /** After redirecting `o` to a different node, nothing reads `o`. */
  lemma {:induction false} RedirectNoUses(es: seq<Edge>, o: Node, n: Node)
    requires o != n
    ensures UsesIn(Redirect(es, o, n), o) == []
    decreases |es|
  {
    if |es| > 0 {
      RedirectPrefix(es, o, n);
      RedirectNoUses(es[..|es| - 1], o, n);
    }
  }

  /** Appending an edge adds at most its own source or target to a query. */
  lemma AppendEdge(es: seq<Edge>, e: Edge)
    ensures (es + [e])[..|es|] == es && (es + [e])[|es|] == e
  {
  }

  // ----- node arena -----

  /** The number of live phi nodes. */
  function PhiCount(ns: seq<NodeData>): (c: nat)
    ensures c <= |ns|
    decreases |ns|
  {
    if |ns| == 0 then 0 else PhiCount(ns[..|ns| - 1]) + (if ns[|ns| - 1].Phi? then 1 else 0)
  }

  lemma PhiCountAppend(ns: seq<NodeData>, d: NodeData)
    ensures PhiCount(ns + [d]) == PhiCount(ns) + (if d.Phi? then 1 else 0)
  {
    assert (ns + [d])[..|ns|] == ns;
  }

  /** Removing a node lowers the phi count by one exactly when it was a phi. */
  lemma {:induction false} PhiCountRemove(ns: seq<NodeData>, i: int)
    requires 0 <= i < |ns|
    ensures PhiCount(ns[i := Removed]) == PhiCount(ns) - (if ns[i].Phi? then 1 else 0)
    decreases |ns|
  {
    var k := |ns| - 1;
    if i == k {
      assert ns[i := Removed][..k] == ns[..k];
    } else {
      assert ns[i := Removed][..k] == ns[..k][i := Removed];
      PhiCountRemove(ns[..k], i);
    }
  }

  // ----- storage operations -----

  function AddNode(g: Graph, d: NodeData): (r: (Graph, Node))
    ensures IsNode(r.0, r.1) && r.0.nodes[r.1] == d
    ensures |r.0.nodes| == |g.nodes| + 1 && r.0.nodes[..|g.nodes|] == g.nodes && r.0.edges == g.edges
  {
    (Graph(g.nodes + [d], g.edges), |g.nodes|)
  }

  /** Append one edge between existing nodes. */
  function AddEdge(g: Graph, e: Edge): (r: Graph)
    requires IsNode(g, e.src) && IsNode(g, e.dst)
    ensures r.nodes == g.nodes && r.edges == g.edges + [e]
    ensures forall b :: PredsOf(r, b) == if e.data.Control? && e.dst == b then [e.src] + PredsOf(g, b) else PredsOf(g, b)
    ensures forall x :: ArgsOf(r, x) == if e.data.PhiUse? && e.src == x then [e.dst] + ArgsOf(g, x) else ArgsOf(g, x)
    ensures forall x :: UsesOf(r, x) == if IsUse(e.data) && e.dst == x then [e.src] + UsesOf(g, x) else UsesOf(g, x)
    ensures forall m :: ReplacedByTarget(r, m) == if e.data.ReplacedBy? && e.src == m then e.dst else ReplacedByTarget(g, m)
    ensures WellFormed(g) ==> WellFormed(r)
    ensures UsesLive(g) && (IsUse(e.data) ==> Live(g, e.dst)) ==> UsesLive(r)
  {
    AppendEdge(g.edges, e);
    Graph(g.nodes, g.edges + [e])
  }

  /** A data edge from `user` to operand `n` at position `pos`; an operand
      that is not a node (the `End` of an absent operand) adds nothing. */
  function OpUse(g: Graph, user: Node, pos: nat, n: Node): (r: Graph)
    ensures IsNode(g, user) && IsNode(g, n) ==> r == AddEdge(g, Edge(user, n, Data(pos)))
    ensures !(IsNode(g, user) && IsNode(g, n)) ==> r == g
  {
    if IsNode(g, user) && IsNode(g, n) then AddEdge(g, Edge(user, n, Data(pos))) else g
  }

  /** An operand edge from `phi` to `n`. */
  function PhiUseEdge(g: Graph, phi: Node, n: Node): (r: Graph)
    ensures IsNode(g, phi) && IsNode(g, n) ==> r == AddEdge(g, Edge(phi, n, PhiUse))
    ensures !(IsNode(g, phi) && IsNode(g, n)) ==> r == g
  {
    if IsNode(g, phi) && IsNode(g, n) then AddEdge(g, Edge(phi, n, PhiUse)) else g
  }

  function PredsOf(g: Graph, b: Node): seq<Node> {
    PredsIn(g.edges, b)
  }

  function ArgsOf(g: Graph, phi: Node): seq<Node> {
    ArgsIn(g.edges, phi)
  }

  function UsesOf(g: Graph, n: Node): seq<Node> {
    UsesIn(g.edges, n)
  }

  function ReplacedByTarget(g: Graph, n: Node): Node {
    ReplacedByIn(g.edges, n)
  }

  /** The block a phi, operation or comment belongs to; `End` otherwise. */
  function BlockOf(g: Graph, n: Node): (b: Node)
    ensures b != End ==> IsNode(g, n) && (g.nodes[n].Op? || g.nodes[n].Phi? || g.nodes[n].Comment?)
  {
    if !IsNode(g, n) then End
    else match g.nodes[n]
      case Op(_, _, b) => b
      case Phi(_, b) => b
      case Comment(_, b) => b
      case _ => End
  }

  /** The value of a constant operation node. */
  function ReadConst(g: Graph, n: Node): (r: Option<nat>)
    ensures r.Some? <==> IsNode(g, n) && g.nodes[n].Op? && g.nodes[n].opcode.OpConst?
    ensures r.Some? ==> g.nodes[n].opcode == OpConst(r.value)
  {
    if IsNode(g, n) && g.nodes[n].Op? && g.nodes[n].opcode.OpConst? then Some(g.nodes[n].opcode.value) else None
  }

  /** The graph `Replace` builds, before anything is proved about it. */
  function Replaced(g: Graph, o: Node, n: Node): Graph
    requires IsNode(g, o)
  {
    Graph(g.nodes[o := Removed], Redirect(g.edges, o, n) + [Edge(o, n, ReplacedBy)])
  }

  lemma ReplacedQueries(g: Graph, o: Node, n: Node)
    requires IsNode(g, o)
    ensures ReplacedByTarget(Replaced(g, o, n), o) == n
    ensures forall m :: m != o ==> ReplacedByTarget(Replaced(g, o, n), m) == ReplacedByTarget(g, m)
    ensures forall b :: PredsOf(Replaced(g, o, n), b) == PredsOf(g, b)
    ensures forall x :: ArgsOf(Replaced(g, o, n), x) == Subst(ArgsOf(g, x), o, n)
  {
    var es := Redirect(g.edges, o, n);
    AppendEdge(es, Edge(o, n, ReplacedBy));
    forall m | m != o
      ensures ReplacedByTarget(Replaced(g, o, n), m) == ReplacedByTarget(g, m)
    {
      ReplacedByRedirect(g.edges, o, n, m);
    }
    forall b
      ensures PredsOf(Replaced(g, o, n), b) == PredsOf(g, b)
    {
      PredsRedirect(g.edges, o, n, b);
    }
    forall x
      ensures ArgsOf(Replaced(g, o, n), x) == Subst(ArgsOf(g, x), o, n)
    {
      ArgsRedirect(g.edges, o, n, x);
    }
  }

  lemma ReplacedUses(g: Graph, o: Node, n: Node)
    requires IsNode(g, o) && IsNode(g, n) && o != n
    ensures UsesOf(Replaced(g, o, n), o) == []
    ensures WellFormed(g) ==> WellFormed(Replaced(g, o, n))
  {
    var es := Redirect(g.edges, o, n);
    var e := Edge(o, n, ReplacedBy);
    var r := Replaced(g, o, n);
    AppendEdge(es, e);
    RedirectNoUses(g.edges, o, n);
    assert UsesIn(r.edges, o) == UsesIn(es, o);
    if WellFormed(g) {
      forall i | 0 <= i < |r.edges|
        ensures IsNode(r, r.edges[i].src) && IsNode(r, r.edges[i].dst)
      {
        if i < |es| {
          assert r.edges[i] == RedirectEdge(g.edges[i], o, n);
        }
      }
    }
  }

  lemma ReplacedLive(g: Graph, o: Node, n: Node)
    requires IsNode(g, o) && o != n
    ensures UsesLive(g) && Live(g, n) ==> UsesLive(Replaced(g, o, n))
  {
    var es := Redirect(g.edges, o, n);
    var r := Replaced(g, o, n);
    AppendEdge(es, Edge(o, n, ReplacedBy));
    if UsesLive(g) && Live(g, n) {
      forall i | 0 <= i < |r.edges| && IsUse(r.edges[i].data)
        ensures Live(r, r.edges[i].dst)
      {
        assert r.edges[i] == es[i] == RedirectEdge(g.edges[i], o, n);
      }
    }
  }

  /** Reroute every reader of `o` to `n`, mark `o` removed and record the
      replacement with a `ReplacedBy` edge. */
  function Replace(g: Graph, o: Node, n: Node): (r: Graph)
    requires IsNode(g, o) && IsNode(g, n) && o != n
    ensures r.nodes == g.nodes[o := Removed]
    ensures UsesOf(r, o) == []
    ensures ReplacedByTarget(r, o) == n
    ensures forall m :: m != o ==> ReplacedByTarget(r, m) == ReplacedByTarget(g, m)
    ensures forall b :: PredsOf(r, b) == PredsOf(g, b)
    ensures forall x :: ArgsOf(r, x) == Subst(ArgsOf(g, x), o, n)
    ensures WellFormed(g) ==> WellFormed(r)
    ensures UsesLive(g) && Live(g, n) ==> UsesLive(r)
  {
    ReplacedQueries(g, o, n);
    ReplacedUses(g, o, n);
    ReplacedLive(g, o, n);
    Replaced(g, o, n)
  }
}
