/** The value-level pieces of block discovery: the disassembled
    instructions and their order, the address-ordered map of discovered
    blocks, and the bound at which a block stops collecting instructions. */
module Blocks {
  import opened TokenSyntax
  import opened SsaGraph

  /** One disassembled instruction: its address, its ESIL string and its
      operation type (such as "call"). */
  datatype OpInfo = OpInfo(offset: Option<nat>, esil: Option<string>, optype: Option<string>)

  predicate HasOffsets(ops: seq<OpInfo>) {
    forall k :: 0 <= k < |ops| ==> ops[k].offset.Some?
  }

  predicate SortedByOffset(ops: seq<OpInfo>)
    requires HasOffsets(ops)
  {
    forall i, j :: 0 <= i < j < |ops| ==> ops[i].offset.value <= ops[j].offset.value
  }

  // ---------------------------------------------------------------------
  // Sorting by offset (`sort_by` on the offsets, a stable sort)

  /** `x` placed after every element of `s` whose offset is not larger. */
  function InsertOp(x: OpInfo, s: seq<OpInfo>): (r: seq<OpInfo>)
    requires x.offset.Some? && HasOffsets(s)
    ensures HasOffsets(r) && |r| == |s| + 1
    ensures multiset(r) == multiset(s) + multiset{x}
    ensures forall k :: 0 <= k < |r| ==> r[k] == x || r[k] in s
  {
    if |s| == 0 then [x]
    else if s[|s| - 1].offset.value <= x.offset.value then s + [x]
    else
      var t := s[..|s| - 1];
      assert s == t + [s[|s| - 1]];
      InsertOp(x, t) + [s[|s| - 1]]
  }

  lemma {:induction false} InsertOpSorted(x: OpInfo, s: seq<OpInfo>)
    requires x.offset.Some? && HasOffsets(s) && SortedByOffset(s)
    ensures SortedByOffset(InsertOp(x, s))
  {
    if |s| > 0 && s[|s| - 1].offset.value > x.offset.value {
      var t := s[..|s| - 1];
      InsertOpSorted(x, t);
      var r := InsertOp(x, t);
      forall k | 0 <= k < |r|
        ensures r[k].offset.value <= s[|s| - 1].offset.value
      {
        if r[k] != x {
          var m :| 0 <= m < |t| && t[m] == r[k];
        }
      }
    }
  }

  /** Insertion sort: every element goes after the earlier ones with an
      offset not larger than its own, which keeps equal offsets in their
      original order. */
  function SortOps(ops: seq<OpInfo>): (r: seq<OpInfo>)
    requires HasOffsets(ops)
    ensures HasOffsets(r) && |r| == |ops|
  {
    if |ops| == 0 then []
    else InsertOp(ops[|ops| - 1], SortOps(ops[..|ops| - 1]))
  }

  /** The sort orders by offset and is a permutation. */
  lemma SortOpsCorrect(ops: seq<OpInfo>)
    requires HasOffsets(ops)
    ensures SortedByOffset(SortOps(ops))
    ensures multiset(SortOps(ops)) == multiset(ops)
  {
    SortOpsSorted(ops);
    SortOpsPermutes(ops);
  }

  lemma {:induction false} SortOpsSorted(ops: seq<OpInfo>)
    requires HasOffsets(ops)
    ensures SortedByOffset(SortOps(ops))
  {
    if |ops| > 0 {
      var t := ops[..|ops| - 1];
      SortOpsSorted(t);
      InsertOpSorted(ops[|ops| - 1], SortOps(t));
    }
  }

  lemma {:induction false} SortOpsPermutes(ops: seq<OpInfo>)
    requires HasOffsets(ops)
    ensures multiset(SortOps(ops)) == multiset(ops)
  {
    if |ops| > 0 {
      var t, x := ops[..|ops| - 1], ops[|ops| - 1];
      SortOpsPermutes(t);
      assert ops == t + [x];
      assert multiset(ops) == multiset(t) + multiset{x};
    }
  }

  // ---------------------------------------------------------------------
  // Position of the first instruction of a block (`binary_search_by`)

  /** The index of the first instruction whose offset is at least `top`:
      on offsets without duplicates, exactly what the binary search returns,
      found or not. */
  function LowerBound(ops: seq<OpInfo>, top: nat): (i: nat)
    requires HasOffsets(ops) && SortedByOffset(ops)
    ensures i <= |ops|
    ensures forall k :: 0 <= k < i ==> ops[k].offset.value < top
    ensures forall k :: i <= k < |ops| ==> ops[k].offset.value >= top
  {
    if |ops| == 0 || ops[|ops| - 1].offset.value < top then |ops|
    else LowerBound(ops[..|ops| - 1], top)
  }

  /** The binary search's two outcomes: `i` holds `top` exactly when some
      instruction starts at `top`. */
  lemma LowerBoundFound(ops: seq<OpInfo>, top: nat)
    requires HasOffsets(ops) && SortedByOffset(ops)
    ensures var i := LowerBound(ops, top);
      (i < |ops| && ops[i].offset.value == top) <==> exists k :: 0 <= k < |ops| && ops[k].offset.value == top
  {
  }

  // ---------------------------------------------------------------------
  // The block map (`BTreeMap<Address, (NodeIndex, Address)>`)

  /** A block's graph node (`End` once reset) and the address of the
      instruction that ended it. */
  datatype BlockEntry = BlockEntry(node: Node, end: nat)

  /** An association list kept in increasing key order, as the B-tree
      iterates it. */
  type BlockMap = seq<(nat, BlockEntry)>

  predicate Ordered(m: BlockMap) {
    forall i, j :: 0 <= i < j < |m| ==> m[i].0 < m[j].0
  }

  function Keys(m: BlockMap): set<nat> {
    set i | 0 <= i < |m| :: m[i].0
  }

  lemma KeysSnoc(m: BlockMap, e: (nat, BlockEntry))
    ensures Keys(m + [e]) == Keys(m) + {e.0}
  {
    var r := m + [e];
    forall x | x in Keys(m)
      ensures x in Keys(r)
    {
      var i :| 0 <= i < |m| && m[i].0 == x;
      assert r[i].0 == x;
    }
    assert r[|m|].0 == e.0;
  }

  lemma KeysInit(m: BlockMap)
    requires |m| > 0
    ensures Keys(m) == Keys(m[..|m| - 1]) + {m[|m| - 1].0}
  {
    assert m == m[..|m| - 1] + [m[|m| - 1]];
    KeysSnoc(m[..|m| - 1], m[|m| - 1]);
  }

  /** The entry stored under `k`. */
  function Get(m: BlockMap, k: nat): (r: Option<BlockEntry>)
    ensures r.Some? <==> k in Keys(m)
    ensures r.Some? ==> exists i :: 0 <= i < |m| && m[i] == (k, r.value)
  {
    if |m| == 0 then None
    else if m[|m| - 1].0 == k then Some(m[|m| - 1].1)
    else
      var r := Get(m[..|m| - 1], k);
      KeysInit(m);
      assert r.Some? ==> exists i :: 0 <= i < |m| - 1 && m[i] == (k, r.value);
      r
  }

  /** Every address in `tops` already starts a live block of `m`, so the
      worklist loop skips each of them without consulting the
      instructions. */
  predicate SkipsAll(m: BlockMap, tops: seq<nat>) {
    forall k :: 0 <= k < |tops| ==> Get(m, tops[k]).Some? && Get(m, tops[k]).value.node != End
  }

  /** `insert`: overwrite the entry under `k`, or add one in key order. */
  function Put(m: BlockMap, k: nat, v: BlockEntry): (r: BlockMap)
    ensures Keys(r) == Keys(m) + {k}
  {
    if |m| == 0 || m[|m| - 1].0 < k then
      KeysSnoc(m, (k, v));
      m + [(k, v)]
    else if m[|m| - 1].0 == k then
      KeysInit(m);
      KeysSnoc(m[..|m| - 1], (k, v));
      m[..|m| - 1] + [(k, v)]
    else
      var t := m[..|m| - 1];
      KeysInit(m);
      KeysSnoc(Put(t, k, v), m[|m| - 1]);
      Put(t, k, v) + [m[|m| - 1]]
  }

  lemma {:induction false} PutOrdered(m: BlockMap, k: nat, v: BlockEntry)
    requires Ordered(m)
    ensures Ordered(Put(m, k, v))
  {
    if |m| > 0 && m[|m| - 1].0 > k {
      var t := m[..|m| - 1];
      PutOrdered(t, k, v);
      var r := Put(t, k, v);
      forall i | 0 <= i < |r|
        ensures r[i].0 < m[|m| - 1].0
      {
        assert r[i].0 in Keys(t) + {k};
        if r[i].0 != k {
          var j :| 0 <= j < |t| && t[j].0 == r[i].0;
        }
      }
    }
  }

  /** After `Put`, `k` holds the new entry and every other key keeps its
      own. */
  lemma {:induction false} GetPut(m: BlockMap, k: nat, v: BlockEntry, q: nat)
    requires Ordered(m)
    ensures Get(Put(m, k, v), q) == if q == k then Some(v) else Get(m, q)
  {
    if |m| == 0 || m[|m| - 1].0 < k {
      assert (m + [(k, v)])[..|m|] == m;
    } else if m[|m| - 1].0 == k {
      var t := m[..|m| - 1];
      assert (t + [(k, v)])[..|t|] == t;
      if q != k {
        assert Get(m, q) == Get(t, q);
      }
    } else {
      var t := m[..|m| - 1];
      GetPut(t, k, v, q);
      var r := Put(t, k, v) + [m[|m| - 1]];
      assert r[..|r| - 1] == Put(t, k, v);
      if q == m[|m| - 1].0 {
        assert Get(r, q) == Some(m[|m| - 1].1);
      }
    }
  }

  /** The last entry with a key not above `top` (the `next_back` of the
      range up to and including `top`), as its index. */
  function Floor(m: BlockMap, top: nat): (r: Option<nat>)
    ensures r.Some? ==> r.value < |m| && m[r.value].0 <= top
    ensures r.Some? ==> forall j :: r.value < j < |m| ==> m[j].0 > top
    ensures r.None? ==> forall j :: 0 <= j < |m| ==> m[j].0 > top
  {
    if |m| == 0 then None
    else if m[|m| - 1].0 <= top then Some(|m| - 1)
    else Floor(m[..|m| - 1], top)
  }

  /** On an ordered map the floor is the greatest key not above `top`. */
  lemma FloorGreatest(m: BlockMap, top: nat, k: nat)
    requires Ordered(m) && k in Keys(m) && k <= top
    ensures Floor(m, top).Some? && k <= m[Floor(m, top).value].0
  {
  }

  /** The first key above `top` (the `next` of the range after `top`). */
  function Above(m: BlockMap, top: nat): (r: Option<nat>)
    ensures r.Some? ==> r.value in Keys(m) && r.value > top
    ensures r.None? ==> forall j :: 0 <= j < |m| ==> m[j].0 <= top
  {
    if |m| == 0 then None
    else
      var r := Above(m[..|m| - 1], top);
      KeysInit(m);
      if r.Some? then r
      else if m[|m| - 1].0 > top then Some(m[|m| - 1].0)
      else None
  }

  /** On an ordered map the key `Above` finds is the least one above `top`. */
  lemma {:induction false} AboveLeast(m: BlockMap, top: nat, k: nat)
    requires Ordered(m) && k in Keys(m) && k > top
    ensures Above(m, top).Some? && Above(m, top).value <= k
  {
    var t := m[..|m| - 1];
    KeysInit(m);
    if k in Keys(t) {
      AboveLeast(t, top, k);
    } else {
      assert k == m[|m| - 1].0;
      if Above(t, top).Some? {
        var j :| 0 <= j < |t| && t[j].0 == Above(t, top).value;
      }
    }
  }

  // ---------------------------------------------------------------------
  // Where a block stops collecting instructions

  datatype Bound = Unbounded | Excluded(at: nat) | Included(at: nat)

  /** Whether an instruction at `pc` lies beyond the bound. */
  predicate Reached(b: Bound, pc: nat) {
    match b
    case Excluded(e) => pc >= e
    case Included(e) => pc > e
    case Unbounded => false
  }

  /** The initial bound of a block at `top`: the start of the next known
      block after it, or none. */
  function NextBound(m: BlockMap, top: nat): (b: Bound)
    ensures b.Excluded? || b.Unbounded?
    ensures b.Excluded? ==> b.at in Keys(m) && b.at > top
    ensures Ordered(m) ==> forall k :: k in Keys(m) && top < k ==> (b.Excluded? && b.at <= k)
  {
    match Above(m, top)
    case Some(a) =>
      assert forall k :: k in Keys(m) && top < k && Ordered(m) ==> a <= k by {
        forall k | k in Keys(m) && top < k && Ordered(m)
          ensures a <= k
        {
          AboveLeast(m, top, k);
        }
      }
      Excluded(a)
    case None => Unbounded
  }

  /** A deferred control edge between two block addresses, tagged as the
      graph's control edges are. */
  datatype CfgEdge = CfgEdge(src: nat, dst: nat, tag: nat)
}
