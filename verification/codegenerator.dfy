/**
 * bpl/code_generator/code_generator.py: stack-frame offsets for parameters and block
 * locals, and the assembly text the generator writes. The output file is the
 * sequence of strings written to it, one element per `write` call.
 */
module CodeGenerator {
  import opened Wrappers
  import opened ParseTree
  import Decimal
  import TypeChecker
  import Scanner

  const StackPointer := "%rsp"
  const FramePointer := "%rbx"
  const Acc64 := "%rax"
  const Acc32 := "%eax"
  const Arg2Reg64 := "%rsi"
  const Arg2Reg32 := "%esi"
  const Arg1Reg64 := "%rdi"
  const Arg1Reg32 := "%edi"

  // Frame offsets

  /**
   * The shape `compute_offsets` relies on: every parameter, and every local declaration
   * of a block it reaches through blocks, `if` and `while`, is a variable or array
   * declaration that can carry an `offset`.
   */
  predicate StmtFrameShape(s: Node)
    decreases Size(s), 0
  {
    match s
    case CompoundStatementNode(_, decs, stmts) =>
      (forall k :: 0 <= k < |decs| ==> IsVarOrArrayDec(decs[k])) && AllStmtFrameShape(stmts)
    case IfStatementNode(_, _, t, e) =>
      StmtFrameShape(t) && (match e case None => true case Some(x) => assert OptSize(e) == Size(x); StmtFrameShape(x))
    case WhileStatementNode(_, _, b) => StmtFrameShape(b)
    case _ => true
  }

  predicate AllStmtFrameShape(ss: seq<Node>)
    decreases SizeOf(ss), 1
  {
    ss == [] || (StmtFrameShape(ss[0]) && AllStmtFrameShape(ss[1..]))
  }

  predicate FunctionFrameShape(f: Node) {
    f.FunDecNode? && (forall k :: 0 <= k < |f.params| ==> IsVarOrArrayDec(f.params[k])) && StmtFrameShape(f.body)
  }

  predicate FrameShape(program: seq<Node>) {
    forall k :: 0 <= k < |program| && program[k].FunDecNode? ==> FunctionFrameShape(program[k])
  }

  /** The number of 8-byte slots a local declaration takes: its size for an array, one otherwise. */
  function Width(d: Node): int {
    if d.ArrayDecNode? then d.size else 1
  }

  function Widths(ds: seq<Node>): int {
    if ds == [] then 0 else Width(ds[0]) + Widths(ds[1..])
  }

  /** `d` with its `offset` attribute set. */
  function WithOffset(d: Node, offset: int): (r: Node)
    requires IsVarOrArrayDec(d)
    ensures IsVarOrArrayDec(r) && r.offset == Some(offset)
  {
    d.(offset := Some(offset))
  }

  /**
   * The parameter loop of `compute_offsets`: the counter starts at `counter` and rises
   * by 8 before each parameter takes it, so the k-th parameter (from 0) gets
   * `counter + 8 * (k + 1)`.
   */
  function ParameterOffsets(params: seq<Node>, counter: int): (r: seq<Node>)
    requires forall k :: 0 <= k < |params| ==> IsVarOrArrayDec(params[k])
    ensures |r| == |params|
    ensures forall k :: 0 <= k < |params| ==> r[k] == WithOffset(params[k], counter + 8 * (k + 1))
  {
    if params == [] then []
    else
      var rest := ParameterOffsets(params[1..], counter + 8);
      var r := [WithOffset(params[0], counter + 8)] + rest;
      forall k | 0 <= k < |params|
        ensures r[k] == WithOffset(params[k], counter + 8 * (k + 1))
      {
        ParameterOffsetAt(params, counter, rest, r, k);
      }
      r
  }

  /** The inductive step of `ParameterOffsets` at one position. */
  lemma ParameterOffsetAt(params: seq<Node>, counter: int, rest: seq<Node>, r: seq<Node>, k: nat)
    requires 0 <= k < |params| && forall j :: 0 <= j < |params| ==> IsVarOrArrayDec(params[j])
    requires |rest| == |params| - 1
    requires forall j :: 0 <= j < |rest| ==> rest[j] == WithOffset(params[1..][j], counter + 8 + 8 * (j + 1))
    requires r == [WithOffset(params[0], counter + 8)] + rest
    ensures r[k] == WithOffset(params[k], counter + 8 * (k + 1))
  {
    if k > 0 {
      assert r[k] == rest[k - 1];
      assert params[1..][k - 1] == params[k];
      assert counter + 8 + 8 * (k - 1 + 1) == counter + 8 * (k + 1);
    }
  }

  /**
   * The local-declaration loop of `compute_offsets_statement`: each declaration lowers
   * the running offset by 8 per slot and takes the lowered value. The result is the
   * annotated declarations and the offset after the last one; `LocalOffsetAt` gives
   * the offset each declaration takes.
   */
  function LocalOffsets(decs: seq<Node>, offset: int): (r: (seq<Node>, int))
    requires forall k :: 0 <= k < |decs| ==> IsVarOrArrayDec(decs[k])
    ensures |r.0| == |decs| && r.1 == offset - 8 * Widths(decs)
    ensures forall k {:trigger r.0[k]} :: 0 <= k < |decs| ==> IsVarOrArrayDec(r.0[k])
  {
    if decs == [] then ([], offset)
    else
      var lowered := offset - 8 * Width(decs[0]);
      var tail := LocalOffsets(decs[1..], lowered);
      var r := [WithOffset(decs[0], lowered)] + tail.0;
      assert forall k {:trigger r[k]} :: 1 <= k < |decs| ==> r[k] == tail.0[k - 1];
      (r, tail.1)
  }

  /** Setting the offsets changes nothing else in the declarations. */
  lemma {:induction false} LocalOffsetsKeepDeclarations(decs: seq<Node>, offset: int)
    requires forall k :: 0 <= k < |decs| ==> IsVarOrArrayDec(decs[k])
    ensures BareSeq(LocalOffsets(decs, offset).0) == BareSeq(decs)
    decreases |decs|
  {
    if decs != [] {
      var lowered := offset - 8 * Width(decs[0]);
      var tail := LocalOffsets(decs[1..], lowered).0;
      var r := LocalOffsets(decs, offset).0;
      assert r == [WithOffset(decs[0], lowered)] + tail;
      assert r[1..] == tail;
      LocalOffsetsKeepDeclarations(decs[1..], lowered);
      assert Bare(WithOffset(decs[0], lowered)) == Bare(decs[0]);
    }
  }

  /** The k-th local declaration takes the offset lowered by the slots of the first k + 1. */
  lemma {:induction false} LocalOffsetAt(decs: seq<Node>, offset: int, k: nat)
    requires forall j :: 0 <= j < |decs| ==> IsVarOrArrayDec(decs[j])
    requires k < |decs|
    ensures LocalOffsets(decs, offset).0[k] == WithOffset(decs[k], offset - 8 * Widths(decs[..k + 1]))
    decreases k
  {
    var lowered := offset - 8 * Width(decs[0]);
    var r := LocalOffsets(decs, offset).0;
    var tail := LocalOffsets(decs[1..], lowered).0;
    assert r == [WithOffset(decs[0], lowered)] + tail;
    WidthsOfPrefix(decs, k);
    if k == 0 {
      assert decs[1..][..0] == [];
    } else {
      var j := k - 1;
      LocalOffsetAt(decs[1..], lowered, j);
      assert decs[1..][..j + 1] == decs[1..][..k];
      assert r[k] == tail[j];
      assert decs[1..][j] == decs[k];
      assert lowered - 8 * Widths(decs[1..][..k]) == offset - 8 * Widths(decs[..k + 1]);
    }
  }

  /** The slots of the first `k + 1` declarations: the first one's and those of the next `k`. */
  lemma WidthsOfPrefix(decs: seq<Node>, k: nat)
    requires k < |decs|
    ensures Widths(decs[..k + 1]) == Width(decs[0]) + Widths(decs[1..][..k])
  {
    assert decs[..k + 1][1..] == decs[1..][..k];
  }

  /**
   * `compute_offsets_statement`: annotates the local declarations of every block it
   * reaches and returns the statement's total. A block returns the offset after its
   * locals plus the totals of its statements, each started from that offset; an `if`
   * returns the offset plus its branches' totals, a `while` the offset plus its body's;
   * any other statement returns 0.
   */
  function StatementOffsets(s: Node, offset: int): (r: (Node, int))
    requires StmtFrameShape(s)
    decreases Size(s), 1
    ensures r.0.line == s.line
    ensures s.CompoundStatementNode? ==> r.0.CompoundStatementNode?
    ensures !(s.CompoundStatementNode? || s.IfStatementNode? || s.WhileStatementNode?) ==> r == (s, 0)
  {
    match s
    case CompoundStatementNode(_, _, _) => BlockOffsets(s, offset)
    case IfStatementNode(l, c, t, e) =>
      var (t', a) := StatementOffsets(t, offset);
      (match e
       case None => (IfStatementNode(l, c, t', None), offset + a)
       case Some(x) =>
         assert OptSize(e) == Size(x);
         var (x', b) := StatementOffsets(x, offset);
         (IfStatementNode(l, c, t', Some(x')), offset + a + b))
    case WhileStatementNode(l, c, b) =>
      var (b', a) := StatementOffsets(b, offset);
      (WhileStatementNode(l, c, b'), offset + a)
    case _ => (s, 0)
  }

  /** The block case of `StatementOffsets`. */
  function BlockOffsets(s: Node, offset: int): (r: (Node, int))
    requires s.CompoundStatementNode? && StmtFrameShape(s)
    decreases Size(s), 0
    ensures r.0.CompoundStatementNode? && r.0.line == s.line
    ensures |r.0.localDeclarations| == |s.localDeclarations| && |r.0.statements| == |s.statements|
  {
    var CompoundStatementNode(l, decs, stmts) := s;
    var (decs', after) := LocalOffsets(decs, offset);
    var (stmts', sum) := StatementsOffsets(stmts, after);
    (CompoundStatementNode(l, decs', stmts'), after + sum)
  }

  /** The `stmnt` loop of a block: every statement starts from the same offset and the totals add up. */
  function StatementsOffsets(ss: seq<Node>, offset: int): (r: (seq<Node>, int))
    requires AllStmtFrameShape(ss)
    decreases SizeOf(ss), 2
    ensures |r.0| == |ss|
  {
    if ss == [] then ([], 0)
    else
      var (x, a) := StatementOffsets(ss[0], offset);
      var (xs, b) := StatementsOffsets(ss[1..], offset);
      ([x] + xs, a + b)
  }

  /** Annotating a statement's offsets changes nothing else in it. */
  lemma {:induction false} OffsetsKeepStatement(s: Node, offset: int)
    requires StmtFrameShape(s)
    ensures Bare(StatementOffsets(s, offset).0) == Bare(s)
    decreases Size(s), 1
  {
    match s
    case CompoundStatementNode(l, decs, stmts) =>
      var after := LocalOffsets(decs, offset).1;
      LocalOffsetsKeepDeclarations(decs, offset);
      OffsetsKeepStatements(stmts, after);
      assert StatementOffsets(s, offset).0
        == CompoundStatementNode(l, LocalOffsets(decs, offset).0, StatementsOffsets(stmts, after).0);
    case IfStatementNode(_, _, t, e) =>
      OffsetsKeepStatement(t, offset);
      match e {
        case None =>
        case Some(x) => assert OptSize(e) == Size(x); OffsetsKeepStatement(x, offset);
      }
    case WhileStatementNode(_, _, b) => OffsetsKeepStatement(b, offset);
    case _ =>
  }

  lemma {:induction false} OffsetsKeepStatements(ss: seq<Node>, offset: int)
    requires AllStmtFrameShape(ss)
    ensures BareSeq(StatementsOffsets(ss, offset).0) == BareSeq(ss)
    decreases SizeOf(ss), 2
  {
    if ss != [] {
      var (x, a) := StatementOffsets(ss[0], offset);
      var (xs, b) := StatementsOffsets(ss[1..], offset);
      OffsetsKeepStatement(ss[0], offset);
      OffsetsKeepStatements(ss[1..], offset);
      assert StatementsOffsets(ss, offset).0 == [x] + xs;
      assert ([x] + xs)[1..] == xs;
    }
  }

  /** Lists that agree node by node after erasure agree after erasure. */
  lemma {:induction false} BareSeqPointwise(xs: seq<Node>, ys: seq<Node>)
    requires |xs| == |ys| && forall k :: 0 <= k < |xs| ==> Bare(xs[k]) == Bare(ys[k])
    ensures BareSeq(xs) == BareSeq(ys)
    decreases |xs|
  {
    if xs != [] {
      BareSeqPointwise(xs[1..], ys[1..]);
    }
  }

  /** `compute_offsets` on one function: its parameters, its body's locals and its `local_var_offset`. */
  function FunctionOffsets(f: Node): (r: Node)
    requires FunctionFrameShape(f)
    ensures r.FunDecNode? && r.name == f.name && |r.params| == |f.params|
    ensures forall k {:trigger r.params[k]} :: 0 <= k < |f.params| ==> r.params[k] == WithOffset(f.params[k], 8 * (k + 1))
    ensures r.localVarOffset == Some(StatementOffsets(f.body, 0).1)
  {
    var (body, total) := StatementOffsets(f.body, 0);
    FunDecNode(f.line, f.name, f.typeToken, ParameterOffsets(f.params, 0), body, Some(total))
  }

  /** Annotating a function's offsets changes nothing else in it. */
  lemma OffsetsKeepFunction(f: Node)
    requires FunctionFrameShape(f)
    ensures Bare(FunctionOffsets(f)) == Bare(f)
  {
    var params := ParameterOffsets(f.params, 0);
    BareSeqPointwise(params, f.params);
    OffsetsKeepStatement(f.body, 0);
    assert FunctionOffsets(f) == FunDecNode(f.line, f.name, f.typeToken, params, StatementOffsets(f.body, 0).0, FunctionOffsets(f).localVarOffset);
  }

  /**
   * `compute_offsets`: each function is annotated from its own parameters and body
   * alone, and every other top-level item is left as it is.
   */
  function ComputeOffsets(program: seq<Node>): (r: seq<Node>)
    requires FrameShape(program)
    ensures |r| == |program|
    ensures forall k {:trigger r[k]} :: 0 <= k < |program| ==>
      if program[k].FunDecNode? then r[k] == FunctionOffsets(program[k]) else r[k] == program[k]
  {
    if program == [] then []
    else
      var d := program[0];
      var d' := if d.FunDecNode? then FunctionOffsets(d) else d;
      var rest := ComputeOffsets(program[1..]);
      var r := [d'] + rest;
      assert forall k {:trigger r[k]} :: 1 <= k < |program| ==> r[k] == rest[k - 1] && program[k] == program[1..][k - 1];
      r
  }

  /** Annotating the program's offsets changes nothing else in it. */
  lemma OffsetsKeepProgram(program: seq<Node>)
    requires FrameShape(program)
    ensures BareSeq(ComputeOffsets(program)) == BareSeq(program)
  {
    var r := ComputeOffsets(program);
    forall k | 0 <= k < |program|
      ensures Bare(r[k]) == Bare(program[k])
    {
      if program[k].FunDecNode? {
        OffsetsKeepFunction(program[k]);
      }
    }
    BareSeqPointwise(r, program);
  }

  // Properties of the offsets

  /** Every array declaration a statement's blocks hold has a non-negative size. */
  predicate SizesNonNegative(s: Node)
    decreases Size(s), 0
  {
    match s
    case CompoundStatementNode(_, decs, stmts) =>
      (forall k :: 0 <= k < |decs| ==> Width(decs[k]) >= 0) && AllSizesNonNegative(stmts)
    case IfStatementNode(_, _, t, e) =>
      SizesNonNegative(t) && (match e case None => true case Some(x) => assert OptSize(e) == Size(x); SizesNonNegative(x))
    case WhileStatementNode(_, _, b) => SizesNonNegative(b)
    case _ => true
  }

  predicate AllSizesNonNegative(ss: seq<Node>)
    decreases SizeOf(ss), 1
  {
    ss == [] || (SizesNonNegative(ss[0]) && AllSizesNonNegative(ss[1..]))
  }

  /** Every local declaration of the annotated statement's blocks has an offset in `[lo, hi]`. */
  predicate LocalsWithin(s: Node, lo: int, hi: int)
    decreases Size(s), 0
  {
    match s
    case CompoundStatementNode(_, decs, stmts) =>
      (forall k :: 0 <= k < |decs| ==>
         IsVarOrArrayDec(decs[k]) && decs[k].offset.Some? && lo <= decs[k].offset.value <= hi)
      && AllLocalsWithin(stmts, lo, hi)
    case IfStatementNode(_, _, t, e) =>
      LocalsWithin(t, lo, hi) && (match e case None => true case Some(x) => assert OptSize(e) == Size(x); LocalsWithin(x, lo, hi))
    case WhileStatementNode(_, _, b) => LocalsWithin(b, lo, hi)
    case _ => true
  }

  predicate AllLocalsWithin(ss: seq<Node>, lo: int, hi: int)
    decreases SizeOf(ss), 1
  {
    ss == [] || (LocalsWithin(ss[0], lo, hi) && AllLocalsWithin(ss[1..], lo, hi))
  }

  lemma {:induction false} WidenLocals(s: Node, lo: int, hi: int, lo': int, hi': int)
    requires LocalsWithin(s, lo, hi) && lo' <= lo && hi <= hi'
    ensures LocalsWithin(s, lo', hi')
    decreases Size(s), 0
  {
    match s
    case CompoundStatementNode(_, decs, stmts) => WidenAllLocals(stmts, lo, hi, lo', hi');
    case IfStatementNode(_, _, t, e) =>
      WidenLocals(t, lo, hi, lo', hi');
      match e {
        case None =>
        case Some(x) => assert OptSize(e) == Size(x); WidenLocals(x, lo, hi, lo', hi');
      }
    case WhileStatementNode(_, _, b) => WidenLocals(b, lo, hi, lo', hi');
    case _ =>
  }

  lemma {:induction false} WidenAllLocals(ss: seq<Node>, lo: int, hi: int, lo': int, hi': int)
    requires AllLocalsWithin(ss, lo, hi) && lo' <= lo && hi <= hi'
    ensures AllLocalsWithin(ss, lo', hi')
    decreases SizeOf(ss), 1
  {
    if ss != [] {
      WidenLocals(ss[0], lo, hi, lo', hi');
      WidenAllLocals(ss[1..], lo, hi, lo', hi');
    }
  }

  lemma {:induction false} WidthsNonNegative(ds: seq<Node>)
    requires forall k :: 0 <= k < |ds| ==> Width(ds[k]) >= 0
    ensures Widths(ds) >= 0
  {
    if ds != [] {
      WidthsNonNegative(ds[1..]);
    }
  }

  lemma {:induction false} WidthsConcat(a: seq<Node>, b: seq<Node>)
    ensures Widths(a + b) == Widths(a) + Widths(b)
  {
    if a != [] {
      WidthsConcat(a[1..], b);
      assert (a + b)[0] == a[0];
      assert (a + b)[1..] == a[1..] + b;
    } else {
      assert a + b == b;
    }
  }

  /** With non-negative sizes, a prefix of the declarations takes between none and all of their slots. */
  lemma PrefixWidths(ds: seq<Node>, k: nat)
    requires k <= |ds| && forall j :: 0 <= j < |ds| ==> Width(ds[j]) >= 0
    ensures 0 <= Widths(ds[..k]) <= Widths(ds)
  {
    assert ds == ds[..k] + ds[k..];
    WidthsConcat(ds[..k], ds[k..]);
    WidthsNonNegative(ds[..k]);
    WidthsNonNegative(ds[k..]);
  }

  /** From a non-positive offset with non-negative sizes, a statement's total is non-positive. */
  lemma {:induction false} TotalNonPositive(s: Node, offset: int)
    requires StmtFrameShape(s) && SizesNonNegative(s) && offset <= 0
    ensures StatementOffsets(s, offset).1 <= 0
    decreases Size(s), 0
  {
    match s
    case CompoundStatementNode(_, decs, stmts) =>
      WidthsNonNegative(decs);
      TotalsNonPositive(stmts, LocalOffsets(decs, offset).1);
    case IfStatementNode(_, _, t, e) =>
      TotalNonPositive(t, offset);
      match e {
        case None =>
        case Some(x) => assert OptSize(e) == Size(x); TotalNonPositive(x, offset);
      }
    case WhileStatementNode(_, _, b) => TotalNonPositive(b, offset);
    case _ =>
  }

  lemma {:induction false} TotalsNonPositive(ss: seq<Node>, offset: int)
    requires AllStmtFrameShape(ss) && AllSizesNonNegative(ss) && offset <= 0
    ensures StatementsOffsets(ss, offset).1 <= 0
    decreases SizeOf(ss), 1
  {
    if ss != [] {
      TotalNonPositive(ss[0], offset);
      TotalsNonPositive(ss[1..], offset);
    }
  }

  /**
   * The frame a statement's total describes covers every local it annotates: from a
   * non-positive offset with non-negative sizes, each local offset lies between the
   * total and the starting offset.
   */
  lemma {:induction false} LocalsWithinFrame(s: Node, offset: int)
    requires StmtFrameShape(s) && SizesNonNegative(s) && offset <= 0
    ensures LocalsWithin(StatementOffsets(s, offset).0, StatementOffsets(s, offset).1, offset)
    decreases Size(s), 1
  {
    var (s', total) := StatementOffsets(s, offset);
    match s
    case CompoundStatementNode(l, decs, stmts) => BlockLocalsWithinFrame(s, offset);
    case IfStatementNode(_, _, t, e) =>
      var (t', a) := StatementOffsets(t, offset);
      LocalsWithinFrame(t, offset);
      match e {
        case None =>
          WidenLocals(t', a, offset, total, offset);
        case Some(x) =>
          assert OptSize(e) == Size(x);
          var (x', b) := StatementOffsets(x, offset);
          TotalNonPositive(x, offset);
          TotalNonPositive(t, offset);
          LocalsWithinFrame(x, offset);
          WidenLocals(t', a, offset, total, offset);
          WidenLocals(x', b, offset, total, offset);
      }
    case WhileStatementNode(_, _, b) =>
      var (b', a) := StatementOffsets(b, offset);
      LocalsWithinFrame(b, offset);
      WidenLocals(b', a, offset, total, offset);
    case _ =>
  }

  /** The case of `LocalsWithinFrame` for a block: its own locals, then its statements' within the summed total. */
  lemma {:induction false} BlockLocalsWithinFrame(s: Node, offset: int)
    requires s.CompoundStatementNode? && StmtFrameShape(s) && SizesNonNegative(s) && offset <= 0
    ensures LocalsWithin(StatementOffsets(s, offset).0, StatementOffsets(s, offset).1, offset)
    decreases Size(s), 0
  {
    var decs := s.localDeclarations;
    var (decs', after) := LocalOffsets(decs, offset);
    var (stmts', sum) := StatementsOffsets(s.statements, after);
    var total := after + sum;
    assert StatementOffsets(s, offset) == BlockOffsets(s, offset) == (CompoundStatementNode(s.line, decs', stmts'), total);
    assert AllStmtFrameShape(s.statements) && AllSizesNonNegative(s.statements);
    WidthsNonNegative(decs);
    TotalsNonPositive(s.statements, after);
    OwnLocalsWithin(decs, offset, total);
    StatementsLocalsWithinFrame(s.statements, after);
    WidenAllLocals(stmts', after + sum, after, total, offset);
  }

  /** A block's own locals lie between the offset after them and the offset it starts from. */
  lemma OwnLocalsWithin(decs: seq<Node>, offset: int, lo: int)
    requires forall k :: 0 <= k < |decs| ==> IsVarOrArrayDec(decs[k]) && Width(decs[k]) >= 0
    requires lo <= LocalOffsets(decs, offset).1
    ensures var decs' := LocalOffsets(decs, offset).0;
      forall k :: 0 <= k < |decs'| ==>
        IsVarOrArrayDec(decs'[k]) && decs'[k].offset.Some? && lo <= decs'[k].offset.value <= offset
  {
    var decs' := LocalOffsets(decs, offset).0;
    forall k | 0 <= k < |decs'|
      ensures IsVarOrArrayDec(decs'[k]) && decs'[k].offset.Some? && lo <= decs'[k].offset.value <= offset
    {
      LocalOffsetAt(decs, offset, k);
      PrefixWidths(decs, k + 1);
    }
  }

  /** The statements of a block, all started from `offset`, keep their locals within the block's summed frame. */
  lemma {:induction false} StatementsLocalsWithinFrame(ss: seq<Node>, offset: int)
    requires AllStmtFrameShape(ss) && AllSizesNonNegative(ss) && offset <= 0
    ensures AllLocalsWithin(StatementsOffsets(ss, offset).0, offset + StatementsOffsets(ss, offset).1, offset)
    decreases SizeOf(ss), 2
  {
    if ss != [] {
      assert StmtFrameShape(ss[0]) && SizesNonNegative(ss[0]);
      assert AllStmtFrameShape(ss[1..]) && AllSizesNonNegative(ss[1..]);
      var (x, a) := StatementOffsets(ss[0], offset);
      var (xs, b) := StatementsOffsets(ss[1..], offset);
      TotalNonPositive(ss[0], offset);
      TotalsNonPositive(ss[1..], offset);
      LocalsWithinFrame(ss[0], offset);
      StatementsLocalsWithinFrame(ss[1..], offset);
      WidenLocals(x, a, offset, offset + a + b, offset);
      WidenAllLocals(xs, offset + b, offset, offset + a + b, offset);
      assert StatementsOffsets(ss, offset) == ([x] + xs, a + b);
      assert ([x] + xs)[0] == x && ([x] + xs)[1..] == xs;
    }
  }

  /**
   * A function's `local_var_offset` is the total of its body from offset 0: with
   * non-negative sizes it is non-positive and every local of the body lies in
   * `[local_var_offset, 0]`.
   */
  lemma FrameCoversLocals(f: Node)
    requires FunctionFrameShape(f) && SizesNonNegative(f.body)
    ensures FunctionOffsets(f).localVarOffset.value <= 0
    ensures LocalsWithin(FunctionOffsets(f).body, FunctionOffsets(f).localVarOffset.value, 0)
  {
    TotalNonPositive(f.body, 0);
    LocalsWithinFrame(f.body, 0);
  }

  /** With every slot count positive, each local of a block sits strictly below the one declared before it. */
  lemma LocalOffsetsDecrease(decs: seq<Node>, offset: int, i: nat, j: nat)
    requires forall k :: 0 <= k < |decs| ==> IsVarOrArrayDec(decs[k]) && Width(decs[k]) > 0
    requires i < j < |decs|
    ensures var r := LocalOffsets(decs, offset).0;
      r[i].offset.Some? && r[j].offset.Some? && r[j].offset.value < r[i].offset.value
  {
    LocalOffsetAt(decs, offset, i);
    LocalOffsetAt(decs, offset, j);
    PrefixWidthsIncrease(decs, i, j);
  }

  /** With every slot count positive, a longer prefix takes more slots. */
  lemma PrefixWidthsIncrease(decs: seq<Node>, i: nat, j: nat)
    requires forall k :: 0 <= k < |decs| ==> Width(decs[k]) > 0
    requires i < j < |decs|
    ensures Widths(decs[..i + 1]) < Widths(decs[..j + 1])
  {
    var a := decs[..i + 1];
    var b := decs[i + 1..j + 1];
    assert decs[..j + 1] == a + b;
    WidthsConcat(a, b);
    assert b[0] == decs[i + 1];
    var c := b[1..];
    assert forall k :: 0 <= k < |c| ==> c[k] == decs[i + 2 + k];
    WidthsNonNegative(c);
  }

  /**
   * The summing totals over-allocate: in `{ int x; { int y; } { int z; } }` the two
   * inner blocks reuse the slot below `x`, so two slots suffice, yet
   * `local_var_offset` is -40, five slots.
   */
  lemma SummedTotalsOverAllocate(t: Scanner.Token)
    ensures var x := VarDecNode(1, "x", t);
      var y := VarDecNode(2, "y", t);
      var z := VarDecNode(3, "z", t);
      var body := CompoundStatementNode(1, [x], [CompoundStatementNode(2, [y], []), CompoundStatementNode(3, [z], [])]);
      var f := FunDecNode(1, "f", t, [], body);
      FunctionFrameShape(f)
      && FunctionOffsets(f).localVarOffset == Some(-40)
      && FunctionOffsets(f).body == CompoundStatementNode(1, [WithOffset(x, -8)],
           [CompoundStatementNode(2, [WithOffset(y, -16)], []), CompoundStatementNode(3, [WithOffset(z, -16)], [])])
  {
    var x := VarDecNode(1, "x", t);
    var y := VarDecNode(2, "y", t);
    var z := VarDecNode(3, "z", t);
    var inner1 := CompoundStatementNode(2, [y], []);
    var inner2 := CompoundStatementNode(3, [z], []);
    var inner1' := CompoundStatementNode(2, [WithOffset(y, -16)], []);
    var inner2' := CompoundStatementNode(3, [WithOffset(z, -16)], []);
    var body := CompoundStatementNode(1, [x], [inner1, inner2]);
    OneVariableBlock(2, y, -8);
    OneVariableBlock(3, z, -8);
    assert [inner2][1..] == [] && [inner1, inner2][1..] == [inner2];
    assert AllStmtFrameShape([]) && AllStmtFrameShape([inner2]) && AllStmtFrameShape([inner1, inner2]);
    assert StatementsOffsets([], -8) == ([], 0);
    assert [inner2][0] == inner2 && [inner2'] + [] == [inner2'];
    assert StatementsOffsets([inner2], -8) == ([inner2'], -16);
    assert [inner1, inner2][0] == inner1 && [inner1'] + [inner2'] == [inner1', inner2'];
    assert StatementsOffsets([inner1, inner2], -8) == ([inner1', inner2'], -32);
    OneVariable(x, 0);
    assert StmtFrameShape(body);
    assert StatementOffsets(body, 0) == BlockOffsets(body, 0);
    assert BlockOffsets(body, 0) == (CompoundStatementNode(1, [WithOffset(x, -8)], [inner1', inner2']), -40);
  }

  /** One variable declared from `offset` takes the slot just below it. */
  lemma OneVariable(d: Node, offset: int)
    requires d.VarDecNode?
    ensures LocalOffsets([d], offset) == ([WithOffset(d, offset - 8)], offset - 8)
  {
    assert [d][0] == d && [d][1..] == [] && Width(d) == 1;
    assert LocalOffsets([], offset - 8) == ([], offset - 8);
    assert [WithOffset(d, offset - 8)] + [] == [WithOffset(d, offset - 8)];
  }

  /** A block declaring one variable and holding no statements totals the offset below that variable. */
  lemma OneVariableBlock(l: nat, d: Node, offset: int)
    requires d.VarDecNode?
    ensures StmtFrameShape(CompoundStatementNode(l, [d], []))
    ensures StatementOffsets(CompoundStatementNode(l, [d], []), offset)
      == (CompoundStatementNode(l, [WithOffset(d, offset - 8)], []), offset - 8)
  {
    var s := CompoundStatementNode(l, [d], []);
    assert AllStmtFrameShape([]);
    OneVariable(d, offset);
    assert StatementsOffsets([], offset - 8) == ([], 0);
    assert StatementOffsets(s, offset) == BlockOffsets(s, offset);
  }

  // The type checker establishes the generator's precondition

  /** A linked statement has the frame shape: every block it reaches has a scope, so only declarations. */
  lemma {:induction false} LinkedStmtFrameShape(s: Node, stack: TypeChecker.Stack)
    requires |stack| > 0 && TypeChecker.LinkedStmt(s, stack)
    ensures StmtFrameShape(s)
    decreases Size(s), 0
  {
    match s
    case CompoundStatementNode(_, decs, stmts) =>
      LinkedStmtsFrameShape(stmts, stack + [TypeChecker.ScopeOf(decs).value]);
    case IfStatementNode(_, _, t, e) =>
      LinkedStmtFrameShape(t, stack);
      match e {
        case None =>
        case Some(x) => assert OptSize(e) == Size(x); LinkedStmtFrameShape(x, stack);
      }
    case WhileStatementNode(_, _, b) => LinkedStmtFrameShape(b, stack);
    case _ =>
  }

  lemma {:induction false} LinkedStmtsFrameShape(ss: seq<Node>, stack: TypeChecker.Stack)
    requires |stack| > 0 && TypeChecker.AllLinkedStmt(ss, stack)
    ensures AllStmtFrameShape(ss)
    decreases SizeOf(ss), 1
  {
    if ss != [] {
      LinkedStmtFrameShape(ss[0], stack);
      LinkedStmtsFrameShape(ss[1..], stack);
    }
  }

  /** The tree `type_check` hands to `generate_code` always meets `compute_offsets`' demands. */
  lemma TypeCheckedHasFrameShape(program: seq<Node>)
    requires TypeChecker.TypeCheck(program).Success?
    ensures FrameShape(TypeChecker.TypeCheck(program).value)
  {
    var out := TypeChecker.TypeCheck(program).value;
    forall k | 0 <= k < |out| && out[k].FunDecNode?
      ensures FunctionFrameShape(out[k])
    {
      TypeChecker.FunctionSeesEarlierDeclarations(out, program, map[], k);
      LinkedStmtFrameShape(out[k].body, [TypeChecker.Declare(map[], program[..k + 1]), TypeChecker.ScopeOf(out[k].params).value]);
    }
  }

  // Assembly text

  /** An immediate operand as `format` renders it: a number, a label or string, or Python's `None`. */
  datatype Immediate = Number(n: int) | Symbol(text: string) | NoneValue

  function ImmediateString(v: Immediate): string {
    match v
    case Number(n) => Decimal.IntToString(n)
    case Symbol(text) => text
    case NoneValue => "None"
  }

  /** An optional integer attribute as an immediate: `None` when it was never set. */
  function ImmediateOf(o: Option<int>): Immediate {
    match o
    case Some(n) => Number(n)
    case None => NoneValue
  }

  /** One instruction, by the `gen_*` helper that writes it. */
  datatype Instr =
    | RegReg(opcode: string, source: string, target: string, comment: string)
    | ImmediateReg(opcode: string, immediate: Immediate, target: string, comment: string)
    | NoOperands(opcode: string, comment: string)
    | OneOperand(opcode: string, operand: string, comment: string)

  /** The operand text between the opcode and the comment: empty for `gen_no_operands`. */
  function Operands(i: Instr): string {
    match i
    case RegReg(_, src, dst, _) => " " + src + ", " + dst
    case ImmediateReg(_, v, dst, _) => " $" + ImmediateString(v) + ", " + dst
    case NoOperands(_, _) => ""
    case OneOperand(_, operand, _) => " " + operand
  }

  /**
   * The line a `gen_*` helper writes: a tab, the opcode, the operands, and the comment
   * after ` #`, ending the line.
   */
  function Render(i: Instr): string {
    "\t" + i.opcode + Operands(i) + (" #" + i.comment + "\n")
  }

  /** A rendered line splits back into its opcode, operand text and comment at fixed positions. */
  lemma RenderParts(i: Instr)
    ensures var line := Render(i);
      |line| == |i.opcode| + |Operands(i)| + |i.comment| + 4
      && line[..1 + |i.opcode|] == "\t" + i.opcode
      && line[1 + |i.opcode|..|line| - |i.comment| - 3] == Operands(i)
      && line[|line| - |i.comment| - 3..] == " #" + i.comment + "\n"
  {
    var head, tail := "\t" + i.opcode, " #" + i.comment + "\n";
    var line := head + Operands(i) + tail;
    assert line[..|head|] == head && line[|head|..|line| - |tail|] == Operands(i) && line[|line| - |tail|..] == tail;
  }

  function RenderAll(code: seq<Instr>): (lines: seq<string>)
    ensures |lines| == |code| && forall k {:trigger lines[k]} :: 0 <= k < |code| ==> lines[k] == Render(code[k])
  {
    seq(|code|, k requires 0 <= k < |code| => Render(code[k]))
  }

  /** Two rendered lines are equal exactly when their instructions print alike, part by part. */
  lemma RenderSplits(i: Instr, j: Instr)
    requires |i.opcode| == |j.opcode| && |i.comment| == |j.comment|
    ensures Render(i) == Render(j) <==>
      i.opcode == j.opcode && Operands(i) == Operands(j) && i.comment == j.comment
  {
    var a, b := Render(i), Render(j);
    RenderParts(i);
    RenderParts(j);
    if a == b {
      assert a[..1 + |i.opcode|] == b[..1 + |j.opcode|];
      assert ("\t" + i.opcode)[1..] == i.opcode && ("\t" + j.opcode)[1..] == j.opcode;
      assert a[|a| - |i.comment| - 3..] == b[|b| - |j.comment| - 3..];
      assert (" #" + i.comment + "\n")[2..2 + |i.comment|] == i.comment;
      assert (" #" + j.comment + "\n")[2..2 + |j.comment|] == j.comment;
    }
    if i.opcode == j.opcode && Operands(i) == Operands(j) && i.comment == j.comment {
      assert a == a[..1 + |i.opcode|] + a[1 + |i.opcode|..|a| - |i.comment| - 3] + a[|a| - |i.comment| - 3..];
      assert b == b[..1 + |j.opcode|] + b[1 + |j.opcode|..|b| - |j.comment| - 3] + b[|b| - |j.comment| - 3..];
    }
  }

  /** An integer immediate can be read back from the line: distinct amounts print differently. */
  lemma ImmediateReadsBack(op: string, m: int, n: int, reg: string, c: string)
    requires Render(ImmediateReg(op, Number(m), reg, c)) == Render(ImmediateReg(op, Number(n), reg, c))
    ensures m == n
  {
    var i, j := ImmediateReg(op, Number(m), reg, c), ImmediateReg(op, Number(n), reg, c);
    RenderSplits(i, j);
    var a, b := Decimal.IntToString(m), Decimal.IntToString(n);
    assert Operands(i) == " $" + a + ", " + reg && Operands(j) == " $" + b + ", " + reg;
    Between(" $", a, b, ", ", reg);
    Decimal.IntToStringInjective(m, n);
  }

  /** Text that is equal with the same surroundings is equal. */
  lemma Between(p: string, a: string, b: string, q: string, r: string)
    requires p + a + q + r == p + b + q + r
    ensures a == b
  {
    var x, y := p + a + q + r, p + b + q + r;
    assert |a| == |b|;
    assert x[|p|..|p| + |a|] == a;
    assert y[|p|..|p| + |b|] == b;
  }

  // The header

  /** The read-only strings the header declares, by label, with the text of each `.string` directive. */
  const DataLabels: seq<string> := [".WriteIntString", ".WritelnString", ".WriteStringString", ".ArrayOverflowString", ".ReadIntString"]
  const DataTexts: seq<string> := ["%d ", "\\n", "%s ", "You fell off the end of an array.\\n", "%d"]

  function DataLine(k: nat): string
    requires k < |DataLabels|
  {
    DataLabels[k] + ": .string \"" + DataTexts[k] + "\"\n"
  }

  /**
   * `gen_header`: the read-only section declaring each format string under its label,
   * then the text section with `main` global, whatever the tree holds.
   */
  function GenHeader(tree: seq<Node>): (out: seq<string>)
    ensures |out| == 8 && out[0] == ".section .rodata\n"
    ensures forall k :: 0 <= k < |DataLabels| ==> out[k + 1] == DataLine(k)
    ensures out[6] == ".text\n" && out[7] == ".globl main\n"
  {
    [".section .rodata\n"] + seq(|DataLabels|, k requires 0 <= k < |DataLabels| => DataLine(k)) + [".text\n", ".globl main\n"]
  }

  // Functions

  /** The instructions `gen_code_function` writes after the label; no body code is generated between them. */
  function FunctionInstrs(f: Node): seq<Instr>
    requires f.FunDecNode?
  {
    var amount := ImmediateOf(f.localVarOffset);
    [ RegReg("movq", StackPointer, FramePointer, "set up the frame pointer"),
      ImmediateReg("sub", amount, StackPointer, "allocate local variables"),
      ImmediateReg("add", amount, StackPointer, "deallocate local variables"),
      NoOperands("ret", "return from function \"" + f.name + "\"") ]
  }

  /**
   * `gen_code_function`: the function's label, the frame-pointer set-up, then the stack
   * pointer moved by `local_var_offset` and back by the same amount, and `ret`.
   */
  function GenCodeFunction(f: Node): (out: seq<string>)
    requires f.FunDecNode?
    ensures |out| == 5
  {
    [f.name + ":\n"] + RenderAll(FunctionInstrs(f))
  }

  /** The five lines `gen_code_function` writes, one by one. */
  lemma FunctionBlockLines(f: Node)
    requires f.FunDecNode?
    ensures var out := GenCodeFunction(f);
      && out[0] == f.name + ":\n"
      && out[1] == Render(RegReg("movq", StackPointer, FramePointer, "set up the frame pointer"))
      && out[2] == Render(ImmediateReg("sub", ImmediateOf(f.localVarOffset), StackPointer, "allocate local variables"))
      && out[3] == Render(ImmediateReg("add", ImmediateOf(f.localVarOffset), StackPointer, "deallocate local variables"))
      && out[4] == Render(NoOperands("ret", "return from function \"" + f.name + "\""))
  {
    var out := GenCodeFunction(f);
    var lines := RenderAll(FunctionInstrs(f));
    assert out == [f.name + ":\n"] + lines;
    assert out[1] == lines[0] && out[2] == lines[1] && out[3] == lines[2] && out[4] == lines[3];
  }

  /**
   * The amount a function block moves the stack pointer by can be read back from its
   * allocation line: blocks that allocate alike have the same `local_var_offset`.
   */
  lemma AllocationReadsBack(f: Node, g: Node)
    requires f.FunDecNode? && g.FunDecNode? && f.localVarOffset.Some? && g.localVarOffset.Some?
    requires GenCodeFunction(f)[2] == GenCodeFunction(g)[2]
    ensures f.localVarOffset == g.localVarOffset
  {
    FunctionBlockLines(f);
    FunctionBlockLines(g);
    ImmediateReadsBack("sub", f.localVarOffset.value, g.localVarOffset.value, StackPointer, "allocate local variables");
  }

  /** The number of function declarations among the top-level items. */
  function FunctionCount(ds: seq<Node>): nat {
    if ds == [] then 0 else (if ds[0].FunDecNode? then 1 else 0) + FunctionCount(ds[1..])
  }

  /** What the loop of `generate_code` writes for one top-level item: a block for a function, nothing otherwise. */
  function ItemCode(d: Node): (out: seq<string>)
    ensures |out| == if d.FunDecNode? then 5 else 0
  {
    if d.FunDecNode? then GenCodeFunction(d) else []
  }

  /** The `declaration = declaration.next_node` loop of `generate_code`: one block per function, in order. */
  function FunctionsCode(ds: seq<Node>): (out: seq<string>)
    ensures |out| == 5 * FunctionCount(ds)
  {
    if ds == [] then [] else ItemCode(ds[0]) + FunctionsCode(ds[1..])
  }

  /** A slice of `b` is the slice of `a + b` shifted by `|a|`. */
  lemma SliceAfter(a: seq<string>, b: seq<string>, i: nat, n: nat, at: nat, block: seq<string>)
    requires i + n <= |b| && b[i .. i + n] == block && at == |a| + i
    ensures at + n <= |a + b| && (a + b)[at .. at + n] == block
  {
    assert (a + b)[at .. at + n] == b[i .. i + n];
  }

  /** The function at position `k` owns the five lines after those of the functions before it. */
  lemma {:induction false} FunctionsCodeLayout(ds: seq<Node>, k: nat)
    requires k < |ds| && ds[k].FunDecNode?
    ensures 5 * FunctionCount(ds[..k]) + 5 <= |FunctionsCode(ds)|
    ensures FunctionsCode(ds)[5 * FunctionCount(ds[..k]) .. 5 * FunctionCount(ds[..k]) + 5] == ItemCode(ds[k])
    decreases k
  {
    var head := ItemCode(ds[0]);
    var rest := FunctionsCode(ds[1..]);
    assert FunctionsCode(ds) == head + rest;
    if k == 0 {
      assert ds[..0] == [];
      assert (head + rest)[..5] == head;
    } else {
      var j := k - 1;
      assert ds[1..][j] == ds[k];
      FunctionsCodeLayout(ds[1..], j);
      var block := ItemCode(ds[k]);
      var i := 5 * FunctionCount(ds[1..][..j]);
      assert rest[i .. i + 5] == block;
      var before := ds[..k];
      assert before != [] && before[0] == ds[0] && before[1..] == ds[1..][..j];
      assert FunctionCount(before) == (if ds[0].FunDecNode? then 1 else 0) + FunctionCount(before[1..]);
      assert 5 * FunctionCount(before) == |head| + i;
      SliceAfter(head, rest, i, 5, 5 * FunctionCount(ds[..k]), block);
    }
  }

  /** The line at which `generate_code` writes the block of the item at position `k`: after the header and the earlier functions' blocks. */
  function BlockStart(program: seq<Node>, k: nat): nat
    requires k <= |program|
  {
    8 + 5 * FunctionCount(program[..k])
  }

  /**
   * `generate_code`: offsets are computed first, then the header is written, then one
   * block per function declaration, in program order, of the annotated tree.
   */
  function GenerateCode(program: seq<Node>): (out: seq<string>)
    requires FrameShape(program)
    ensures |out| == 8 + 5 * FunctionCount(program)
    ensures out[..8] == GenHeader(program)
    ensures forall k :: 0 <= k < |program| && program[k].FunDecNode? ==>
      BlockStart(program, k) + 5 <= |out|
      && out[BlockStart(program, k) .. BlockStart(program, k) + 5] == GenCodeFunction(FunctionOffsets(program[k]))
  {
    var annotated := ComputeOffsets(program);
    var header := GenHeader(annotated);
    assert header == GenHeader(program);
    var out := header + FunctionsCode(annotated);
    assert out[..8] == header;
    SameFunctions(annotated, program);
    forall k | 0 <= k < |program| && program[k].FunDecNode?
      ensures BlockStart(program, k) + 5 <= |out|
        && out[BlockStart(program, k) .. BlockStart(program, k) + 5] == GenCodeFunction(FunctionOffsets(program[k]))
    {
      FunctionBlockAt(program, annotated, header, k);
    }
    out
  }

  lemma FunctionBlockAt(program: seq<Node>, annotated: seq<Node>, header: seq<string>, k: nat)
    requires FrameShape(program) && annotated == ComputeOffsets(program) && |header| == 8
    requires k < |program| && program[k].FunDecNode?
    ensures BlockStart(program, k) + 5 <= |header + FunctionsCode(annotated)|
    ensures (header + FunctionsCode(annotated))[BlockStart(program, k) .. BlockStart(program, k) + 5]
      == GenCodeFunction(FunctionOffsets(program[k]))
  {
    var before, before' := annotated[..k], program[..k];
    forall j | 0 <= j < k
      ensures before[j].FunDecNode? <==> before'[j].FunDecNode?
    {
      assert before[j] == annotated[j] && before'[j] == program[j];
    }
    SameFunctions(before, before');
    var f := annotated[k];
    assert f == FunctionOffsets(program[k]);
    assert ItemCode(f) == GenCodeFunction(f);
    var at := BlockStart(program, k);
    assert at == 8 + 5 * FunctionCount(before);
    BlockAfterHeader(header, annotated, k, at);
    assert (header + FunctionsCode(annotated))[at .. at + 5] == ItemCode(f);
  }

  /** After an eight-line header, the item at position `k` owns the five lines after those of the functions before it. */
  lemma BlockAfterHeader(header: seq<string>, ds: seq<Node>, k: nat, at: nat)
    requires |header| == 8 && k < |ds| && ds[k].FunDecNode? && at == 8 + 5 * FunctionCount(ds[..k])
    ensures at + 5 <= |header + FunctionsCode(ds)| && (header + FunctionsCode(ds))[at .. at + 5] == ItemCode(ds[k])
  {
    FunctionsCodeLayout(ds, k);
    SliceAfter(header, FunctionsCode(ds), 5 * FunctionCount(ds[..k]), 5, at, ItemCode(ds[k]));
  }

  /** Lists whose items agree on being functions hold the same number of functions. */
  lemma {:induction false} SameFunctions(xs: seq<Node>, ys: seq<Node>)
    requires |xs| == |ys| && forall k :: 0 <= k < |xs| ==> (xs[k].FunDecNode? <==> ys[k].FunDecNode?)
    ensures FunctionCount(xs) == FunctionCount(ys)
    decreases |xs|
  {
    if xs != [] {
      SameFunctions(xs[1..], ys[1..]);
    }
  }

  /** The stack adjustment `generate_code` writes for a function, both ways, is its body's computed total. */
  lemma GeneratedFrameSize(program: seq<Node>, k: nat)
    requires FrameShape(program) && k < |program| && program[k].FunDecNode?
    ensures BlockStart(program, k) + 5 <= |GenerateCode(program)|
    ensures GenerateCode(program)[BlockStart(program, k) + 2]
      == Render(ImmediateReg("sub", Number(StatementOffsets(program[k].body, 0).1), StackPointer, "allocate local variables"))
    ensures GenerateCode(program)[BlockStart(program, k) + 3]
      == Render(ImmediateReg("add", Number(StatementOffsets(program[k].body, 0).1), StackPointer, "deallocate local variables"))
  {
    var f := FunctionOffsets(program[k]);
    FrameLines(f, StatementOffsets(program[k].body, 0).1);
    LinesOfSlice(GenerateCode(program), BlockStart(program, k), GenCodeFunction(f));
  }

  /** A function block's `sub` and `add` lines carry the function's `local_var_offset`. */
  lemma FrameLines(f: Node, n: int)
    requires f.FunDecNode? && f.localVarOffset == Some(n)
    ensures GenCodeFunction(f)[2] == Render(ImmediateReg("sub", Number(n), StackPointer, "allocate local variables"))
    ensures GenCodeFunction(f)[3] == Render(ImmediateReg("add", Number(n), StackPointer, "deallocate local variables"))
  {
    FunctionBlockLines(f);
  }

  /** The lines of a five-line slice, by position. */
  lemma LinesOfSlice(out: seq<string>, at: nat, block: seq<string>)
    requires at + 5 <= |out| && out[at .. at + 5] == block
    ensures out[at + 2] == block[2] && out[at + 3] == block[3]
  {
    assert block[2] == out[at .. at + 5][2] && block[3] == out[at .. at + 5][3];
  }

  // Statements

  /** The instructions written for `write` of the integer `n`, the value moved into the register `arg`. */
  function WriteIntInstrs(n: int, arg: string): seq<Instr> {
    [ ImmediateReg("movl", Number(n), Acc32, "put write statement integer value into accumulator"),
      RegReg("movl", Acc32, arg, "integer value to print = arg2"),
      ImmediateReg("movq", Symbol(DataLabels[0]), Arg1Reg64, "printf integer formatting string = arg1"),
      ImmediateReg("movl", Number(0), Acc32, "clear the return value"),
      OneOperand("call", "printf", "call the C-lib printf function") ]
  }

  /**
   * The `else` branch: the expression's `string` attribute moved into the accumulator,
   * an `AttributeError` for an expression that has none.
   */
  function WriteStringInstrs(e: Node): Result<seq<Instr>, TypeChecker.CheckError> {
    if e.StringExpNode? then
      Success([ImmediateReg("movq", Symbol(e.text), Acc64, "put write statement string value into accumulator")])
    else Failure(TypeChecker.MissingAttribute(ClassName(e), "string"))
  }

  /**
   * `gen_code_statement` as written: code for `write` of an integer or string literal,
   * nothing for any other statement. The integer is moved into the first argument
   * register, `%edi`, and not `%esi`.
   */
  function GenCodeStatement(s: Node): (r: Result<seq<Instr>, TypeChecker.CheckError>)
    ensures r.Failure? <==> s.WriteStatementNode? && !s.expression.NumExpNode? && !s.expression.StringExpNode?
    ensures r.Failure? ==> r.error == TypeChecker.MissingAttribute(ClassName(s.expression), "string")
    ensures !s.WriteStatementNode? ==> r == Success([])
    ensures s.WriteStatementNode? && s.expression.StringExpNode? ==>
      r.Success? && Run(map[], r.value) == map[Acc64 := Symbol(s.expression.text)]
    ensures s.WriteStatementNode? && s.expression.NumExpNode? ==>
      r.Success? && |r.value| == 5 && r.value[4] == OneOperand("call", "printf", "call the C-lib printf function")
  {
    if s.WriteStatementNode? then
      if s.expression.NumExpNode? then Success(WriteIntInstrs(s.expression.number, Arg1Reg32))
      else StringWriteRuns(s.expression); WriteStringInstrs(s.expression)
    else Success([])
  }

  /**
   * `gen_code_statement` as its comments describe it: the integer to print moved into
   * the second argument register, `%esi`, where `printf` reads it.
   */
  function IntendedGenCodeStatement(s: Node): (r: Result<seq<Instr>, TypeChecker.CheckError>)
    ensures r.Failure? <==> s.WriteStatementNode? && !s.expression.NumExpNode? && !s.expression.StringExpNode?
    ensures r.Failure? ==> r.error == TypeChecker.MissingAttribute(ClassName(s.expression), "string")
    ensures !s.WriteStatementNode? ==> r == Success([])
    ensures s.WriteStatementNode? && s.expression.StringExpNode? ==>
      r.Success? && Run(map[], r.value) == map[Acc64 := Symbol(s.expression.text)]
    ensures s.WriteStatementNode? && s.expression.NumExpNode? ==>
      r.Success? && |r.value| == 5 && r.value[4] == OneOperand("call", "printf", "call the C-lib printf function")
      && PrintfArguments(Run(map[], r.value[..4]), Symbol(DataLabels[0]), Number(s.expression.number))
  {
    if s.WriteStatementNode? then
      if s.expression.NumExpNode? then
        WriteIntPassesValue(s.expression.number);
        Success(WriteIntInstrs(s.expression.number, Arg2Reg32))
      else StringWriteRuns(s.expression); WriteStringInstrs(s.expression)
    else Success([])
  }

  lemma StringWriteRuns(e: Node)
    ensures e.StringExpNode? ==>
      WriteStringInstrs(e).Success? && Run(map[], WriteStringInstrs(e).value) == map[Acc64 := Symbol(e.text)]
  {
    if e.StringExpNode? {
      var code := WriteStringInstrs(e).value;
      assert code[1..] == [];
      assert Run(map[], code) == Run(Step(map[], code[0]), []);
    }
  }

  // What the registers hold

  /** The 64-bit register a register name is part of: `%eax` is the low half of `%rax`, and so on. */
  function Register64(r: string): string {
    if r == Acc32 then Acc64 else if r == Arg1Reg32 then Arg1Reg64 else if r == Arg2Reg32 then Arg2Reg64 else r
  }

  /** What each 64-bit register is known to hold. */
  type Registers = map<string, Immediate>

  predicate IsMove(opcode: string) {
    opcode == "movl" || opcode == "movq"
  }

  /**
   * One instruction's effect on what the registers hold: a move copies its immediate,
   * or its source register's contents, into the whole target register; any other
   * instruction with a target leaves that target unknown, and the rest leave the
   * registers as they are.
   */
  function Step(regs: Registers, i: Instr): Registers {
    match i
    case ImmediateReg(op, v, dst, _) =>
      if IsMove(op) then regs[Register64(dst) := v] else regs - {Register64(dst)}
    case RegReg(op, src, dst, _) =>
      if IsMove(op) && Register64(src) in regs then regs[Register64(dst) := regs[Register64(src)]]
      else regs - {Register64(dst)}
    case _ => regs
  }

  function Run(regs: Registers, code: seq<Instr>): Registers
    decreases |code|
  {
    if code == [] then regs else Run(Step(regs, code[0]), code[1..])
  }

  /** At a call to `printf` of one integer: the format string in `%rdi`, the integer in `%rsi`. */
  predicate PrintfArguments(regs: Registers, format: Immediate, value: Immediate) {
    Arg1Reg64 in regs && regs[Arg1Reg64] == format && Arg2Reg64 in regs && regs[Arg2Reg64] == value
  }

  /** The registers at the `call` after the four moves of `write` of `n` into `arg`. */
  lemma WriteIntRegisters(n: int, arg: string)
    requires Register64(arg) != Acc64
    ensures Run(map[], WriteIntInstrs(n, arg)[..4])
      == map[Acc64 := Number(n)][Register64(arg) := Number(n)][Arg1Reg64 := Symbol(DataLabels[0])][Acc64 := Number(0)]
  {
    var code := WriteIntInstrs(n, arg)[..4];
    var r1 := map[Acc64 := Number(n)];
    var r2 := r1[Register64(arg) := Number(n)];
    var r3 := r2[Arg1Reg64 := Symbol(DataLabels[0])];
    var r4 := r3[Acc64 := Number(0)];
    assert Run(r4, code[4..]) == r4;
    assert Run(r3, code[3..]) == Run(r4, code[4..]);
    assert Run(r2, code[2..]) == Run(r3, code[3..]);
    assert Run(r1, code[1..]) == Run(r2, code[2..]);
    assert Run(map[], code) == Run(r1, code[1..]);
  }

  /**
   * As written, `write` of a non-zero integer reaches `printf` with the integer in no
   * register at all: it went to `%edi`, which the format string then overwrote, and
   * `%rsi`, where `printf` reads it, was never set.
   */
  lemma WriteIntLosesValue(line: nat, line': nat, n: int)
    ensures var code := GenCodeStatement(WriteStatementNode(line, NumExpNode(line', n))).value;
      var regs := Run(map[], code[..4]);
      Arg1Reg64 in regs && regs[Arg1Reg64] == Symbol(DataLabels[0]) && Arg2Reg64 !in regs
      && (n != 0 ==> forall r :: r in regs ==> regs[r] != Number(n))
      && !PrintfArguments(regs, Symbol(DataLabels[0]), Number(n))
  {
    WriteIntRegisters(n, Arg1Reg32);
    var regs := Run(map[], WriteIntInstrs(n, Arg1Reg32)[..4]);
    assert regs == map[Acc64 := Number(0), Arg1Reg64 := Symbol(DataLabels[0])];
  }

  /** With `%esi`, `write` of an integer reaches `printf` with the format string and the integer where it reads them. */
  lemma WriteIntPassesValue(n: int)
    ensures PrintfArguments(Run(map[], WriteIntInstrs(n, Arg2Reg32)[..4]), Symbol(DataLabels[0]), Number(n))
  {
    WriteIntRegisters(n, Arg2Reg32);
  }
}
