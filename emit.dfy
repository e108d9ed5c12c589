/** The peephole pass run over a decoded instruction list: an `OpIf ...
    OpJmp ... OpCl` group becomes one conditional jump, and an
    unconditional jump is moved behind the micro-operations that share its
    instruction address. */
module Emit {
  import opened TokenSyntax
  import opened Ir

  /** The first index from `j` on whose address differs from `a`, or the
      length when there is none. */
  function NextOtherAddr(s: seq<MInst>, a: nat, j: nat): (k: nat)
    requires j <= |s|
    ensures j <= k <= |s|
    ensures forall m :: j <= m < k ==> s[m].addr == a
    ensures k < |s| ==> s[k].addr != a
    decreases |s| - j
  {
    if j == |s| || s[j].addr != a then j else NextOtherAddr(s, a, j + 1)
  }

  /** The first `OpCl` from `j` on, or the length when there is none. */
  function NextClose(s: seq<MInst>, j: nat): (k: nat)
    requires j <= |s|
    ensures j <= k <= |s|
    ensures forall m :: j <= m < k ==> s[m].opcode != OpCl
    ensures k < |s| ==> s[k].opcode == OpCl
    decreases |s| - j
  {
    if j == |s| || s[j].opcode == OpCl then j else NextClose(s, j + 1)
  }

  /** The instructions of `s` that are not `OpJmp`, in order. */
  function NonJumps(s: seq<MInst>): (r: seq<MInst>)
    ensures |r| <= |s|
    ensures forall m :: 0 <= m < |r| ==> r[m].opcode != OpJmp
  {
    if |s| == 0 then []
    else
      assert s == s[..|s| - 1] + [s[|s| - 1]];
      var r := NonJumps(s[..|s| - 1]);
      if s[|s| - 1].opcode == OpJmp then r else r + [s[|s| - 1]]
  }

  /** The last `OpJmp` of `s`. */
  function LastJump(s: seq<MInst>): (r: Option<MInst>)
    ensures r.Some? ==> r.value in s && r.value.opcode == OpJmp
    ensures r.Some? ==>
              exists m :: 0 <= m < |s| && s[m] == r.value && forall m' :: m < m' < |s| ==> s[m'].opcode != OpJmp
    ensures r.None? <==> forall m :: 0 <= m < |s| ==> s[m].opcode != OpJmp
  {
    if |s| == 0 then None
    else if s[|s| - 1].opcode == OpJmp then Some(s[|s| - 1])
    else
      var r := LastJump(s[..|s| - 1]);
      assert forall m :: 0 <= m < |s| - 1 ==> s[..|s| - 1][m] == s[m];
      r
  }

  /** The conditional jump an `OpIf` and its jump become. */
  function CondJump(ifInst: MInst, jmp: MInst): MInst {
    MInst(OpCJmp, NullVal(), ifInst.operand1, jmp.operand1, ifInst.addr)
  }

  /** What `emit_inst` appends for the instruction at `i`, and where the
      iterator it shares with its caller stands afterwards. */
  function EmitStep(s: seq<MInst>, i: nat): (r: Result<(seq<MInst>, nat)>)
    requires i < |s|
    ensures r.Ok? ==> i < r.value.1 <= |s|
  {
    var inst := s[i];
    match inst.opcode
    case OpJmp =>
      var k := NextOtherAddr(s, inst.addr, i + 1);
      if k < |s| then Ok((s[i + 1..k] + [inst, s[k]], k + 1))
      else Ok((s[i + 1..], |s|))
    case OpIf =>
      var k := NextClose(s, i + 1);
      var body := s[i + 1..k];
      var next := if k < |s| then k + 1 else k;
      (match LastJump(body)
       case Some(j) => Ok((NonJumps(body) + [CondJump(inst, j)], next))
       case None => Err(Aborted))
    case _ => Ok(([inst], i + 1))
  }

  /** The output of `emit_insts` for the instructions from `i` on. */
  function EmittedFrom(s: seq<MInst>, i: nat): Result<seq<MInst>>
    requires i <= |s|
    decreases |s| - i
  {
    if i == |s| then Ok([])
    else
      match EmitStep(s, i)
      case Err(e) => Err(e)
      case Ok((c, p)) =>
        match EmittedFrom(s, p)
        case Err(e) => Err(e)
        case Ok(rest) => Ok(c + rest)
  }

  function Emitted(s: seq<MInst>): Result<seq<MInst>> {
    EmittedFrom(s, 0)
  }

  /** `res` followed by the result `r`, if `r` is one. */
  function Then(res: seq<MInst>, r: Result<seq<MInst>>): Result<seq<MInst>> {
    match r
    case Ok(t) => Ok(res + t)
    case Err(e) => Err(e)
  }

  /** `emit_inst`: appends to `res` what the instruction at `i` becomes,
      consuming from the shared iterator, and returns the iterator's
      position afterwards.  A conditional group without a jump is the
      source's panic, reported as `Aborted`. */
  method EmitInst(s: seq<MInst>, i: nat, res: seq<MInst>) returns (r: Result<(seq<MInst>, nat)>)
    requires i < |s|
    ensures EmitStep(s, i).Ok? ==> r == Ok((res + EmitStep(s, i).value.0, EmitStep(s, i).value.1))
    ensures EmitStep(s, i).Err? ==> r == Err(Aborted)
  {
    if s[i].opcode == OpJmp {
      r := EmitJump(s, i, res);
    } else if s[i].opcode == OpIf {
      r := EmitCond(s, i, res);
    } else {
      r := Ok((res + [s[i]], i + 1));
    }
  }

  /** The jump case: same-address followers first, then the jump and the
      first instruction of the next address. */
  method EmitJump(s: seq<MInst>, i: nat, res: seq<MInst>) returns (r: Result<(seq<MInst>, nat)>)
    requires i < |s| && s[i].opcode == OpJmp
    ensures r == Ok((res + EmitStep(s, i).value.0, EmitStep(s, i).value.1))
  {
    var inst := s[i];
    var out := res;
    var j := i + 1;
    while j < |s|
      invariant i + 1 <= j <= |s|
      invariant out == res + s[i + 1..j]
      invariant NextOtherAddr(s, inst.addr, j) == NextOtherAddr(s, inst.addr, i + 1)
    {
      if s[j].addr != inst.addr {
        assert NextOtherAddr(s, inst.addr, i + 1) == j;
        assert res + s[i + 1..j] + [inst, s[j]] == res + (s[i + 1..j] + [inst, s[j]]);
        out := out + [inst, s[j]];
        return Ok((out, j + 1));
      }
      out := out + [s[j]];
      j := j + 1;
    }
    assert s[i + 1..j] == s[i + 1..];
    return Ok((out, j));
  }

  lemma BodyExtend(s: seq<MInst>, lo: nat, j: nat)
    requires lo <= j < |s|
    ensures NonJumps(s[lo..j + 1]) == if s[j].opcode == OpJmp then NonJumps(s[lo..j]) else NonJumps(s[lo..j]) + [s[j]]
    ensures LastJump(s[lo..j + 1]) == if s[j].opcode == OpJmp then Some(s[j]) else LastJump(s[lo..j])
  {
    assert s[lo..j + 1][..j - lo] == s[lo..j];
  }

  /** The conditional case: the group's non-jump body, then one
      conditional jump built from the condition and the last jump. */
  method EmitCond(s: seq<MInst>, i: nat, res: seq<MInst>) returns (r: Result<(seq<MInst>, nat)>)
    requires i < |s| && s[i].opcode == OpIf
    ensures EmitStep(s, i).Ok? ==> r == Ok((res + EmitStep(s, i).value.0, EmitStep(s, i).value.1))
    ensures EmitStep(s, i).Err? ==> r == Err(Aborted)
  {
    var kept, jmp, j := ScanGroup(s, i + 1);
    if jmp.None? {
      return Err(Aborted);
    }
    var next: nat := if j < |s| then j + 1 else j;
    var c := CondJump(s[i], jmp.value);
    assert res + kept + [c] == res + (kept + [c]);
    return Ok((res + kept + [c], next));
  }

  /** The loop over a conditional group: the kept instructions, the last
      jump seen, and the index of the closing `OpCl` (or the end). */
  method ScanGroup(s: seq<MInst>, lo: nat) returns (kept: seq<MInst>, jmp: Option<MInst>, j: nat)
    requires lo <= |s|
    ensures j == NextClose(s, lo)
    ensures kept == NonJumps(s[lo..j]) && jmp == LastJump(s[lo..j])
  {
    kept, jmp, j := [], None, lo;
    while j < |s| && s[j].opcode != OpCl
      invariant lo <= j <= |s|
      invariant NextClose(s, j) == NextClose(s, lo)
      invariant kept == NonJumps(s[lo..j]) && jmp == LastJump(s[lo..j])
    {
      BodyExtend(s, lo, j);
      if s[j].opcode != OpJmp {
        kept := kept + [s[j]];
      } else {
        jmp := Some(s[j]);
      }
      j := j + 1;
    }
  }

  /** `emit_insts`: every instruction, in turn, through `emit_inst`. */
  method EmitInsts(s: seq<MInst>) returns (r: Result<seq<MInst>>)
    ensures r == Emitted(s)
  {
    var res: seq<MInst> := [];
    var i := 0;
    ThenEmpty(EmittedFrom(s, 0));
    while i < |s|
      invariant 0 <= i <= |s|
      invariant Then(res, EmittedFrom(s, i)) == Emitted(s)
      decreases |s| - i
    {
      var step := EmitInst(s, i, res);
      if step.Err? {
        return Err(step.error);
      }
      ghost var c := EmitStep(s, i).value.0;
      assert step.value.0 == res + c;
      ThenAssoc(res, c, EmittedFrom(s, step.value.1));
      res, i := step.value.0, step.value.1;
    }
    assert res + [] == res;
    return Ok(res);
  }

  lemma ThenEmpty(r: Result<seq<MInst>>)
    ensures Then([], r) == r
  {
    if r.Ok? {
      assert [] + r.value == r.value;
    }
  }

  lemma ThenAssoc(a: seq<MInst>, b: seq<MInst>, r: Result<seq<MInst>>)
    ensures Then(a, Then(b, r)) == Then(a + b, r)
  {
    if r.Ok? {
      assert a + (b + r.value) == (a + b) + r.value;
    }
  }

  /** Without jumps and conditionals the pass changes nothing. */
  lemma {:induction false} NoControlUnchangedFrom(s: seq<MInst>, i: nat)
    requires i <= |s|
    requires forall k :: 0 <= k < |s| ==> s[k].opcode != OpJmp && s[k].opcode != OpIf
    ensures EmittedFrom(s, i) == Ok(s[i..])
    decreases |s| - i
  {
    if i < |s| {
      assert EmitStep(s, i) == Ok(([s[i]], i + 1));
      NoControlUnchangedFrom(s, i + 1);
      assert s[i..] == [s[i]] + s[i + 1..];
    }
  }

  lemma NoControlUnchanged(s: seq<MInst>)
    requires forall k :: 0 <= k < |s| ==> s[k].opcode != OpJmp && s[k].opcode != OpIf
    ensures Emitted(s) == Ok(s)
  {
    NoControlUnchangedFrom(s, 0);
  }

  /** Each step emits at most as many instructions as it consumes: a jump
      can only be reordered or dropped, and a conditional group shrinks. */
  lemma StepNoLonger(s: seq<MInst>, i: nat)
    requires i < |s| && EmitStep(s, i).Ok?
    ensures |EmitStep(s, i).value.0| <= EmitStep(s, i).value.1 - i
  {
  }

  lemma {:induction false} EmittedNoLongerFrom(s: seq<MInst>, i: nat)
    requires i <= |s| && EmittedFrom(s, i).Ok?
    ensures |EmittedFrom(s, i).value| <= |s| - i
    decreases |s| - i
  {
    if i < |s| {
      StepNoLonger(s, i);
      EmittedNoLongerFrom(s, EmitStep(s, i).value.1);
    }
  }

  lemma EmittedNoLonger(s: seq<MInst>)
    requires Emitted(s).Ok?
    ensures |Emitted(s).value| <= |s|
  {
    EmittedNoLongerFrom(s, 0);
  }

  /** A jump followed by an instruction of another address is moved behind
      the micro-operations of its own address, directly before that
      instruction; nothing is lost or duplicated. */
  lemma JumpReordered(s: seq<MInst>, i: nat, k: nat)
    requires i < k < |s| && s[i].opcode == OpJmp && s[k].addr != s[i].addr
    ensures EmitStep(s, i).Ok?
    ensures var (c, p) := EmitStep(s, i).value;
      p <= k + 1 && multiset(c) == multiset(s[i..p]) && |c| >= 2 &&
      c[|c| - 2] == s[i] && c[|c| - 1] == s[p - 1] && s[p - 1].addr != s[i].addr &&
      (forall m :: 0 <= m < |c| - 2 ==> c[m].addr == s[i].addr)
  {
    var q := NextOtherAddr(s, s[i].addr, i + 1);
    assert q <= k;
    assert s[i..q + 1] == [s[i]] + s[i + 1..q] + [s[q]];
  }

  /** A jump with no instruction of another address after it is dropped. */
  lemma JumpDropped(s: seq<MInst>, i: nat)
    requires i < |s| && s[i].opcode == OpJmp
    requires forall k :: i < k < |s| ==> s[k].addr == s[i].addr
    ensures EmitStep(s, i) == Ok((s[i + 1..], |s|))
  {
    assert NextOtherAddr(s, s[i].addr, i + 1) == |s|;
  }

  /** A conditional group is accepted exactly when it contains a jump
      before its closing `OpCl`; it then becomes its non-jump body followed
      by one conditional jump on the group's condition, to the last jump's
      target, at the condition's address. */
  lemma CondCollapsed(s: seq<MInst>, i: nat)
    requires i < |s| && s[i].opcode == OpIf
    ensures var k := NextClose(s, i + 1);
      EmitStep(s, i).Ok? <==> exists m :: i < m < k && s[m].opcode == OpJmp
    ensures EmitStep(s, i).Ok? ==> var c := EmitStep(s, i).value.0;
      |c| >= 1 &&
      (forall m :: 0 <= m < |c| - 1 ==> c[m].opcode != OpJmp && c[m].opcode != OpCl) &&
      c[|c| - 1].opcode == OpCJmp && c[|c| - 1].dst == NullVal() &&
      c[|c| - 1].operand1 == s[i].operand1 && c[|c| - 1].addr == s[i].addr &&
      c[..|c| - 1] == NonJumps(s[i + 1..NextClose(s, i + 1)]) &&
      (exists m :: i < m < NextClose(s, i + 1) && s[m].opcode == OpJmp && c[|c| - 1].operand2 == s[m].operand1
         && forall m' :: m < m' < NextClose(s, i + 1) ==> s[m'].opcode != OpJmp)
  {
    var k := NextClose(s, i + 1);
    var body := s[i + 1..k];
    if exists m :: i < m < k && s[m].opcode == OpJmp {
      var m :| i < m < k && s[m].opcode == OpJmp;
      assert body[m - i - 1].opcode == OpJmp;
    }
    CondStep(s, i);
    if EmitStep(s, i).Ok? {
      CondKept(s, i);
      CondTarget(s, i);
    }
  }

  /** The `OpIf` step is the kept body and one conditional jump, when the
      group has a jump at all. */
  lemma CondStep(s: seq<MInst>, i: nat)
    requires i < |s| && s[i].opcode == OpIf
    ensures var body := s[i + 1..NextClose(s, i + 1)];
      (EmitStep(s, i).Ok? <==> LastJump(body).Some?) &&
      (EmitStep(s, i).Ok? ==> EmitStep(s, i).value.0 == NonJumps(body) + [CondJump(s[i], LastJump(body).value)])
  {
  }

  /** The collapsed group: its kept body, then the conditional jump. */
  lemma CondKept(s: seq<MInst>, i: nat)
    requires i < |s| && s[i].opcode == OpIf && EmitStep(s, i).Ok?
    ensures var c := EmitStep(s, i).value.0;
      |c| >= 1 &&
      (forall m :: 0 <= m < |c| - 1 ==> c[m].opcode != OpJmp && c[m].opcode != OpCl) &&
      c[|c| - 1].opcode == OpCJmp && c[|c| - 1].dst == NullVal() &&
      c[|c| - 1].operand1 == s[i].operand1 && c[|c| - 1].addr == s[i].addr &&
      c[..|c| - 1] == NonJumps(s[i + 1..NextClose(s, i + 1)])
  {
    var body := s[i + 1..NextClose(s, i + 1)];
    CondStep(s, i);
    GroupKeepsNoClose(s, i + 1);
    var c := EmitStep(s, i).value.0;
    assert c[..|c| - 1] == NonJumps(body);
  }

  /** The conditional jump's target is that of the group's last jump. */
  lemma CondTarget(s: seq<MInst>, i: nat)
    requires i < |s| && s[i].opcode == OpIf && EmitStep(s, i).Ok?
    ensures var c := EmitStep(s, i).value.0;
      |c| >= 1 &&
      exists m :: i < m < NextClose(s, i + 1) && s[m].opcode == OpJmp && c[|c| - 1].operand2 == s[m].operand1
        && forall m' :: m < m' < NextClose(s, i + 1) ==> s[m'].opcode != OpJmp
  {
    CondStep(s, i);
    LastJumpAt(s, i + 1, NextClose(s, i + 1));
  }

  /** The last jump of `s[lo..k]` sits at an index of `s` with no jump
      after it before `k`. */
  lemma LastJumpAt(s: seq<MInst>, lo: nat, k: nat)
    requires lo <= k <= |s| && LastJump(s[lo..k]).Some?
    ensures exists m :: lo <= m < k && s[m] == LastJump(s[lo..k]).value
                        && forall m' :: m < m' < k ==> s[m'].opcode != OpJmp
  {
    var body := s[lo..k];
    var m :| 0 <= m < |body| && body[m] == LastJump(body).value
             && forall m' :: m < m' < |body| ==> body[m'].opcode != OpJmp;
    forall m' | lo + m < m' < k
      ensures s[m'].opcode != OpJmp
    {
      assert s[m'] == body[m' - lo];
    }
    assert s[lo + m] == body[m];
  }

  /** The kept body of a conditional group holds no `OpCl`. */
  lemma GroupKeepsNoClose(s: seq<MInst>, lo: nat)
    requires lo <= |s|
    ensures forall x :: x in NonJumps(s[lo..NextClose(s, lo)]) ==> x.opcode != OpCl
  {
    var body := s[lo..NextClose(s, lo)];
    NonJumpsIn(body);
    assert forall x :: x in body ==> x.opcode != OpCl;
  }

  /** `r` is the subsequence of `s` at the strictly increasing indices
      `ix`. */
  predicate Picks(s: seq<MInst>, r: seq<MInst>, ix: seq<nat>) {
    |ix| == |r|
    && (forall a :: 0 <= a < |ix| ==> ix[a] < |s| && r[a] == s[ix[a]])
    && (forall a, b :: 0 <= a < b < |ix| ==> ix[a] < ix[b])
  }

  /** `NonJumps` is the filter that drops the jumps: it keeps, in order,
      exactly the instructions of `s` at the positions that are not
      `OpJmp`. */
  lemma {:induction false} NonJumpsFilter(s: seq<MInst>)
    ensures exists ix :: FilterOf(s, NonJumps(s), ix)
  {
    if |s| == 0 {
      var none: seq<nat> := [];
      assert FilterOf(s, NonJumps(s), none);
    } else {
      var init, x := s[..|s| - 1], s[|s| - 1];
      NonJumpsFilter(init);
      var ix0: seq<nat> :| FilterOf(init, NonJumps(init), ix0);
      NonJumpsLast(s);
      assert s == init + [x];
      PicksSnoc(init, NonJumps(init), ix0, x);
      if x.opcode == OpJmp {
        assert FilterOf(s, NonJumps(s), ix0) == true;
      } else {
        assert FilterOf(s, NonJumps(s), ix0 + [|init|]) == true;
      }
    }
  }

  /** `r` is `s` with the jumps dropped, `ix` the kept positions. */
  predicate FilterOf(s: seq<MInst>, r: seq<MInst>, ix: seq<nat>) {
    Picks(s, r, ix) && Covers(s, ix)
  }

  /** `ix` holds exactly the positions of `s` that are not `OpJmp`. */
  predicate Covers(s: seq<MInst>, ix: seq<nat>) {
    forall m :: 0 <= m < |s| ==> (m in ix <==> s[m].opcode != OpJmp)
  }

  lemma NonJumpsLast(s: seq<MInst>)
    requires |s| > 0
    ensures NonJumps(s) == if s[|s| - 1].opcode == OpJmp then NonJumps(s[..|s| - 1]) else NonJumps(s[..|s| - 1]) + [s[|s| - 1]]
  {
  }

  lemma PicksSnoc(s0: seq<MInst>, r0: seq<MInst>, ix0: seq<nat>, x: MInst)
    requires Picks(s0, r0, ix0) && Covers(s0, ix0)
    ensures x.opcode != OpJmp ==> FilterOf(s0 + [x], r0 + [x], ix0 + [|s0|])
    ensures x.opcode == OpJmp ==> FilterOf(s0 + [x], r0, ix0)
  {
    var s := s0 + [x];
    var n := |s0|;
    assert forall m :: 0 <= m < n ==> s[m] == s0[m];
    assert n !in ix0;
    if x.opcode != OpJmp {
      var ix, r := ix0 + [n], r0 + [x];
      forall a | 0 <= a < |ix|
        ensures ix[a] < |s| && r[a] == s[ix[a]]
      {
        if a < |ix0| {
          assert ix[a] == ix0[a] && r[a] == r0[a];
        }
      }
    }
  }

  /** Every instruction `NonJumps` keeps comes from its input. */
  lemma {:induction false} NonJumpsIn(s: seq<MInst>)
    ensures forall x :: x in NonJumps(s) ==> x in s
  {
    if |s| > 0 {
      NonJumpsIn(s[..|s| - 1]);
      assert forall x :: x in s[..|s| - 1] ==> x in s;
    }
  }
}
