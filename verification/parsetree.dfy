/**
 * The parse-tree node classes of bpl/parser/parsetree.py and their `__str__` printers.
 *
 * Each node class is one constructor of `Node`; the intrusive `next_node` sibling
 * chains become sequences owned by the parent. The attributes later passes bolt onto
 * nodes (`declaration`, `offset`, `local_var_offset`) are optional fields that start
 * out as `None`.
 */
module ParseTree {
  import opened Wrappers
  import Decimal
  import Scanner

  /** The 23 node kinds, in the order the source lists them. */
  datatype NodeType =
    | VarDec | FunDec | ArrayDec
    | ExpStatement | CmpndStatement | WhileStatement | ReturnStatement | IfStatement
    | WriteStatement | WritelnStatement | ReadStatement
    | VarExp | AssignExp | CompExp | ArrayExp | AddressExp | DerefExp | FunCallExp
    | MathExp | NegExp | NumExp | StrExp | ReadExp

  const NodeTypes: seq<NodeType> := [
    VarDec, FunDec, ArrayDec, ExpStatement, CmpndStatement, WhileStatement, ReturnStatement,
    IfStatement, WriteStatement, WritelnStatement, ReadStatement, VarExp, AssignExp, CompExp,
    ArrayExp, AddressExp, DerefExp, FunCallExp, MathExp, NegExp, NumExp, StrExp, ReadExp]

  /** The integer a node kind stands for: its position in the source's list. */
  function Ordinal(k: NodeType): nat {
    match k
    case VarDec => 0 case FunDec => 1 case ArrayDec => 2 case ExpStatement => 3
    case CmpndStatement => 4 case WhileStatement => 5 case ReturnStatement => 6
    case IfStatement => 7 case WriteStatement => 8 case WritelnStatement => 9
    case ReadStatement => 10 case VarExp => 11 case AssignExp => 12 case CompExp => 13
    case ArrayExp => 14 case AddressExp => 15 case DerefExp => 16 case FunCallExp => 17
    case MathExp => 18 case NegExp => 19 case NumExp => 20 case StrExp => 21 case ReadExp => 22
  }

  /** Each node kind sits at the position its value names. */
  lemma NodeTypesListedInOrder()
    ensures |NodeTypes| == 23
    ensures forall k :: NodeTypes[Ordinal(k)] == k
    ensures forall i :: 0 <= i < |NodeTypes| ==> Ordinal(NodeTypes[i]) == i
    ensures Scanner.Distinct(NodeTypes)
  {
    forall k
      ensures NodeTypes[Ordinal(k)] == k
    {
    }
  }

  /** `enum` gives the 23 node kinds the values 0..22 in list order, so no two kinds share a value. */
  lemma NodeTypeValues()
    ensures forall k :: k in NodeTypes && Scanner.Enum(NodeTypes)[k] == Ordinal(k) < 23
    ensures forall k, l :: Ordinal(k) == Ordinal(l) ==> k == l
  {
    NodeTypesListedInOrder();
    forall k
      ensures k in NodeTypes && Scanner.Enum(NodeTypes)[k] == Ordinal(k) < 23
    {
      assert NodeTypes[Ordinal(k)] == k;
    }
  }

  /** The three kinds an `OpNode` is built with. */
  datatype OpKind = Assign | Comparison | Arithmetic

  datatype Node =
    | VarDecNode(line: nat, name: string, typeToken: Scanner.Token,
                 isPointer: bool := false, offset: Option<int> := None)
    | ArrayDecNode(line: nat, name: string, typeToken: Scanner.Token, size: int,
                   isPointer: bool := false, offset: Option<int> := None)
    | FunDecNode(line: nat, name: string, typeToken: Scanner.Token, params: seq<Node>, body: Node,
                 localVarOffset: Option<int> := None)
    | ExpressionStatementNode(line: nat, maybeExpression: Option<Node>)
    | CompoundStatementNode(line: nat, localDeclarations: seq<Node>, statements: seq<Node>)
    | WhileStatementNode(line: nat, condition: Node, statement: Node)
    | ReturnStatementNode(line: nat, maybeExpression: Option<Node>)
    | IfStatementNode(line: nat, condition: Node, statement: Node, elseStatement: Option<Node>)
    | WriteStatementNode(line: nat, expression: Node)
    | WritelnStatementNode(line: nat)
    | ReadStatementNode(line: nat)
    | VarExpNode(line: nat, name: string, declaration: Option<Node> := None)
    | OpNode(opKind: OpKind, line: nat, token: Scanner.Token, left: Node, right: Node)
    | ArrayExpNode(line: nat, name: string, expression: Node, declaration: Option<Node> := None)
    | DerefExpNode(line: nat, expression: Node)
    | AddressExpNode(line: nat, expression: Node)
    | NegExpNode(line: nat, expression: Node)
    | NumExpNode(line: nat, number: int)
    | StringExpNode(line: nat, text: string)
    | ReadExpNode(line: nat)
    | FunCallExpNode(line: nat, name: string, arguments: seq<Node>, declaration: Option<Node> := None)

  /** A node's `kind` attribute. */
  function Kind(n: Node): NodeType {
    match n
    case VarDecNode(_, _, _, _, _) => VarDec
    case ArrayDecNode(_, _, _, _, _, _) => ArrayDec
    case FunDecNode(_, _, _, _, _, _) => FunDec
    case ExpressionStatementNode(_, _) => ExpStatement
    case CompoundStatementNode(_, _, _) => CmpndStatement
    case WhileStatementNode(_, _, _) => WhileStatement
    case ReturnStatementNode(_, _) => ReturnStatement
    case IfStatementNode(_, _, _, _) => IfStatement
    case WriteStatementNode(_, _) => WriteStatement
    case WritelnStatementNode(_) => WritelnStatement
    case ReadStatementNode(_) => ReadStatement
    case VarExpNode(_, _, _) => VarExp
    case OpNode(k, _, _, _, _) => (match k case Assign => AssignExp case Comparison => CompExp case Arithmetic => MathExp)
    case ArrayExpNode(_, _, _, _) => ArrayExp
    case DerefExpNode(_, _) => DerefExp
    case AddressExpNode(_, _) => AddressExp
    case NegExpNode(_, _) => NegExp
    case NumExpNode(_, _) => NumExp
    case StringExpNode(_, _) => StrExp
    case ReadExpNode(_) => ReadExp
    case FunCallExpNode(_, _, _, _) => FunCallExp
  }

  /** `self.__class__.__name__`. */
  function ClassName(n: Node): string {
    match n
    case VarDecNode(_, _, _, _, _) => "VarDecNode"
    case ArrayDecNode(_, _, _, _, _, _) => "ArrayDecNode"
    case FunDecNode(_, _, _, _, _, _) => "FunDecNode"
    case ExpressionStatementNode(_, _) => "ExpressionStatementNode"
    case CompoundStatementNode(_, _, _) => "CompoundStatementNode"
    case WhileStatementNode(_, _, _) => "WhileStatementNode"
    case ReturnStatementNode(_, _) => "ReturnStatementNode"
    case IfStatementNode(_, _, _, _) => "IfStatementNode"
    case WriteStatementNode(_, _) => "WriteStatementNode"
    case WritelnStatementNode(_) => "WritelnStatementNode"
    case ReadStatementNode(_) => "ReadStatementNode"
    case VarExpNode(_, _, _) => "VarExpNode"
    case OpNode(_, _, _, _, _) => "OpNode"
    case ArrayExpNode(_, _, _, _) => "ArrayExpNode"
    case DerefExpNode(_, _) => "DerefExpNode"
    case AddressExpNode(_, _) => "AddressExpNode"
    case NegExpNode(_, _) => "NegExpNode"
    case NumExpNode(_, _) => "NumExpNode"
    case StringExpNode(_, _) => "StringExpNode"
    case ReadExpNode(_) => "ReadExpNode"
    case FunCallExpNode(_, _, _, _) => "FunCallExpNode"
  }

  /** Variable and array declarations, the only nodes allowed as parameters and block locals. */
  predicate IsVarOrArrayDec(n: Node) {
    n.VarDecNode? || n.ArrayDecNode?
  }

  /** Nodes that have a `name` attribute. */
  predicate HasName(n: Node) {
    n.VarDecNode? || n.ArrayDecNode? || n.FunDecNode? || n.VarExpNode? || n.ArrayExpNode? || n.FunCallExpNode?
  }

  // Size of a tree, the measure the recursive passes decrease. Declaration links are
  // not children and are not counted.

  function Size(n: Node): nat {
    1 + match n
      case FunDecNode(_, _, _, params, body, _) => SizeOf(params) + Size(body)
      case ExpressionStatementNode(_, e) => OptSize(e)
      case CompoundStatementNode(_, decs, stmts) => SizeOf(decs) + SizeOf(stmts)
      case WhileStatementNode(_, c, s) => Size(c) + Size(s)
      case ReturnStatementNode(_, e) => OptSize(e)
      case IfStatementNode(_, c, s, e) => Size(c) + Size(s) + OptSize(e)
      case WriteStatementNode(_, e) => Size(e)
      case OpNode(_, _, _, l, r) => Size(l) + Size(r)
      case ArrayExpNode(_, _, e, _) => Size(e)
      case DerefExpNode(_, e) => Size(e)
      case AddressExpNode(_, e) => Size(e)
      case NegExpNode(_, e) => Size(e)
      case FunCallExpNode(_, _, args, _) => SizeOf(args)
      case _ => 0
  }

  function SizeOf(ns: seq<Node>): nat {
    if ns == [] then 0 else Size(ns[0]) + SizeOf(ns[1..])
  }

  function OptSize(o: Option<Node>): nat {
    match o
    case None => 0
    case Some(n) => Size(n)
  }

  // The printers.

  /** `'Line {}: {}'.format(line_number, class name)`, the prefix of every node's printout. */
  function BaseString(n: Node): (r: string)
    ensures |r| > 5 && r[..5] == "Line "
  {
    "Line " + Decimal.NatToString(n.line) + ": " + ClassName(n)
  }

  /** The base string reads back: two nodes with the same one have the same line and class. */
  lemma BaseStringReadsBack(a: Node, b: Node)
    requires BaseString(a) == BaseString(b)
    ensures a.line == b.line && ClassName(a) == ClassName(b)
  {
    SplitAfterDigits(Decimal.NatToString(a.line), Decimal.NatToString(b.line), ClassName(a), ClassName(b));
    Decimal.NatToStringInjective(a.line, b.line);
  }

  /** The first `:` after a run of digits marks where the digits end. */
  lemma SplitAfterDigits(da: string, db: string, ca: string, cb: string)
    requires forall k :: 0 <= k < |da| ==> Decimal.IsDigit(da[k])
    requires forall k :: 0 <= k < |db| ==> Decimal.IsDigit(db[k])
    requires "Line " + da + ": " + ca == "Line " + db + ": " + cb
    ensures da == db && ca == cb
  {
    var x, y := "Line " + da + ": " + ca, "Line " + db + ": " + cb;
    LineTextShape(da, ca);
    LineTextShape(db, cb);
    if |da| < |db| {
      assert false;
    } else if |db| < |da| {
      assert false;
    }
    assert da == x[5..5 + |da|] && db == y[5..5 + |db|];
    assert ca == x[7 + |da|..] && cb == y[7 + |db|..];
  }

  /** Where the digits and the colon of a `Line <digits>: <name>` text stand. */
  lemma LineTextShape(d: string, c: string)
    ensures var x := "Line " + d + ": " + c;
      x[5 + |d|] == ':' && forall k :: 0 <= k < |d| ==> x[5 + k] == d[k]
  {
  }

  /** A token kind as the printers show it: the kind's integer value. */
  function KindString(t: Scanner.Token): string {
    Decimal.NatToString(Scanner.Ordinal(t.kind))
  }

  /**
   * `str(x)` of the node `head` whose `next_node` siblings are `siblings`. Every class
   * prints its own fields and then `str_if_not_none(next_node)`, except `ReadExpNode`,
   * which prints only its base string.
   */
  function Str(head: Node, siblings: seq<Node>): (r: string)
    decreases Size(head) + SizeOf(siblings), 1
    ensures |BaseString(head)| <= |r| && r[..|BaseString(head)|] == BaseString(head)
  {
    if head.ReadExpNode? then BaseString(head)
    else BaseString(head) + Details(head) + StrIfNotNone(siblings)
  }

  /** `str_if_not_none(x)`: "" for an absent node, else a newline and the printout of the chain. */
  function StrIfNotNone(chain: seq<Node>): (r: string)
    decreases SizeOf(chain), 2
    ensures r == "" <==> chain == []
    ensures chain != [] ==> |r| > 6 && r[..6] == "\nLine "
  {
    if chain == [] then "" else "\n" + Str(chain[0], chain[1..])
  }

  /** Plain `str(x)` of a chain that may be absent, which prints `None`. */
  function StrOrNone(chain: seq<Node>): (r: string)
    decreases SizeOf(chain), 2
    ensures r == "None" <==> chain == []
  {
    if chain == [] then "None" else Str(chain[0], chain[1..])
  }

  /** Plain `str(x)` of an optional node without siblings. */
  function StrOpt(o: Option<Node>): (r: string)
    decreases OptSize(o), 2
    ensures r == "None" <==> o.None?
  {
    match o
    case None => "None"
    case Some(n) => Str(n, [])
  }

  /** What a node prints after its base string and before its siblings. */
  function Details(n: Node): string
    decreases Size(n), 0
  {
    match n
    case VarDecNode(_, name, t, _, _) =>
      " id = " + name + " type = " + KindString(t)
    case ArrayDecNode(_, name, t, _, _, _) =>
      " id = " + name + " type = " + KindString(t)
    case FunDecNode(_, name, t, params, body, _) =>
      " id = " + name + " return type = " + KindString(t)
        + "\n\tparams: " + StrOrNone(params) + "\n\tbody: " + Str(body, [])
    case ExpressionStatementNode(_, e) =>
      "\n" + StrOpt(e)
    case CompoundStatementNode(_, decs, stmts) =>
      StrIfNotNone(decs) + StrIfNotNone(stmts)
    case WhileStatementNode(_, c, s) =>
      "\n\tcondition: " + Str(c, []) + "\n\tstatement: " + Str(s, [])
    case ReturnStatementNode(_, e) =>
      "\n\texpression: " + StrOpt(e)
    case IfStatementNode(_, c, s, e) =>
      "\n\tcondition: " + Str(c, []) + "\n\tstatement: " + Str(s, []) + "\n\telse_statement: " + StrOpt(e)
    case WriteStatementNode(_, e) =>
      "\n\texpression: " + Str(e, [])
    case WritelnStatementNode(_) => ""
    case ReadStatementNode(_) => ""
    case VarExpNode(_, name, _) =>
      " id = " + name
    case OpNode(_, _, t, l, r) =>
      " token = " + KindString(t) + "\n" + Str(l, []) + "\n" + Str(r, [])
    case ArrayExpNode(_, name, e, _) =>
      " id = " + name + "\n\texpression: " + Str(e, [])
    case DerefExpNode(_, e) => "\n\texpression: " + Str(e, [])
    case AddressExpNode(_, e) => "\n\texpression: " + Str(e, [])
    case NegExpNode(_, e) => "\n\texpression: " + Str(e, [])
    case NumExpNode(_, number) => " number = " + Decimal.IntToString(number)
    case StringExpNode(_, text) => " string = " + text
    case ReadExpNode(_) => ""
    case FunCallExpNode(_, name, args, _) =>
      " name = " + name + "\n\tparams:" + StrIfNotNone(args)
  }

  /** `Join(parts)`: the parts separated by single newlines. */
  function JoinLines(parts: seq<string>): string {
    if |parts| == 0 then "" else if |parts| == 1 then parts[0] else parts[0] + "\n" + JoinLines(parts[1..])
  }

  /** The printout of a single node with no siblings. */
  function Own(n: Node): string {
    Str(n, [])
  }

  /** The printouts of the nodes of a chain, each on its own. */
  function Owns(chain: seq<Node>): (r: seq<string>)
    ensures |r| == |chain|
  {
    if chain == [] then [] else [Own(chain[0])] + Owns(chain[1..])
  }

  /** Alone, a node other than `ReadExpNode` prints its base string and its details. */
  lemma OwnIsBaseAndDetails(n: Node)
    requires !n.ReadExpNode?
    ensures Own(n) == BaseString(n) + Details(n)
  {
    assert StrIfNotNone([]) == "";
    var b := BaseString(n) + Details(n);
    assert b + "" == b;
  }

  /** A node other than `ReadExpNode` prints itself, a newline, and then its siblings. */
  lemma StrSplitsAtHead(head: Node, siblings: seq<Node>)
    requires !head.ReadExpNode? && siblings != []
    ensures Str(head, siblings) == Own(head) + "\n" + Str(siblings[0], siblings[1..])
  {
    OwnIsBaseAndDetails(head);
  }

  /**
   * Printing a node prints its whole sibling chain: the nodes' own printouts one per
   * line, in chain order, as long as no `ReadExpNode` cuts the chain short.
   */
  lemma {:induction false} ChainPrintsEveryNode(head: Node, siblings: seq<Node>)
    requires !head.ReadExpNode? || siblings == []
    requires forall k :: 0 <= k < |siblings| - 1 ==> !siblings[k].ReadExpNode?
    ensures Str(head, siblings) == JoinLines(Owns([head] + siblings))
    decreases |siblings|
  {
    assert ([head] + siblings)[1..] == siblings;
    if siblings != [] {
      ChainPrintsEveryNode(siblings[0], siblings[1..]);
      assert siblings == [siblings[0]] + siblings[1..];
      StrSplitsAtHead(head, siblings);
    }
  }

  /** `ReadExpNode` prints only its base string: none of its siblings appear. */
  lemma ReadExpHidesSiblings(line: nat, siblings: seq<Node>)
    ensures Str(ReadExpNode(line), siblings) == BaseString(ReadExpNode(line))
    ensures BaseString(ReadExpNode(line)) == "Line " + Decimal.NatToString(line) + ": ReadExpNode"
  {
  }

  /**
   * An array declaration prints its line, class name, id and type token kind: neither
   * the array size nor the pointer flag appears in the output, which therefore matches
   * a variable declaration's apart from the class name.
   */
  lemma ArrayDecPrintsAsVarDec(line: nat, name: string, t: Scanner.Token, size: int, size': int,
                               isPointer: bool, isPointer': bool, siblings: seq<Node>)
    ensures Str(ArrayDecNode(line, name, t, size, isPointer), siblings)
         == Str(ArrayDecNode(line, name, t, size', isPointer'), siblings)
    ensures Str(ArrayDecNode(line, name, t, size, isPointer), siblings)
         == BaseString(ArrayDecNode(line, name, t, size, isPointer)) + (" id = " + name + " type = " + KindString(t))
            + StrIfNotNone(siblings)
    ensures Details(ArrayDecNode(line, name, t, size, isPointer)) == Details(VarDecNode(line, name, t, isPointer'))
  {
  }

  /** An `if` without `else` prints `None` in the else slot, while its siblings still go through `str_if_not_none`. */
  lemma IfWithoutElsePrintsNone(line: nat, c: Node, s: Node, siblings: seq<Node>)
    ensures Str(IfStatementNode(line, c, s, None), siblings)
         == BaseString(IfStatementNode(line, c, s, None))
            + ("\n\tcondition: " + Own(c) + "\n\tstatement: " + Own(s) + "\n\telse_statement: None")
            + StrIfNotNone(siblings)
  {
    assert StrOpt(None) == "None";
    var x := "\n\tcondition: " + Own(c) + "\n\tstatement: " + Own(s);
    assert x + "\n\telse_statement: " + "None" == x + "\n\telse_statement: None";
  }

  /** The tree with every annotation of the later passes removed. */
  function Bare(n: Node): Node
    decreases Size(n), 0
  {
    match n
    case VarDecNode(l, name, t, p, _) => VarDecNode(l, name, t, p, None)
    case ArrayDecNode(l, name, t, size, p, _) => ArrayDecNode(l, name, t, size, p, None)
    case FunDecNode(l, name, t, params, body, _) => FunDecNode(l, name, t, BareSeq(params), Bare(body), None)
    case ExpressionStatementNode(l, e) => ExpressionStatementNode(l, BareOpt(e))
    case CompoundStatementNode(l, decs, stmts) => CompoundStatementNode(l, BareSeq(decs), BareSeq(stmts))
    case WhileStatementNode(l, c, s) => WhileStatementNode(l, Bare(c), Bare(s))
    case ReturnStatementNode(l, e) => ReturnStatementNode(l, BareOpt(e))
    case IfStatementNode(l, c, s, e) => IfStatementNode(l, Bare(c), Bare(s), BareOpt(e))
    case WriteStatementNode(l, e) => WriteStatementNode(l, Bare(e))
    case VarExpNode(l, name, _) => VarExpNode(l, name, None)
    case OpNode(k, l, t, left, right) => OpNode(k, l, t, Bare(left), Bare(right))
    case ArrayExpNode(l, name, e, _) => ArrayExpNode(l, name, Bare(e), None)
    case DerefExpNode(l, e) => DerefExpNode(l, Bare(e))
    case AddressExpNode(l, e) => AddressExpNode(l, Bare(e))
    case NegExpNode(l, e) => NegExpNode(l, Bare(e))
    case FunCallExpNode(l, name, args, _) => FunCallExpNode(l, name, BareSeq(args), None)
    case _ => n
  }

  function BareSeq(ns: seq<Node>): (r: seq<Node>)
    decreases SizeOf(ns), 1
  {
    if ns == [] then [] else [Bare(ns[0])] + BareSeq(ns[1..])
  }

  function BareOpt(o: Option<Node>): Option<Node>
    decreases OptSize(o), 1
  {
    match o
    case None => None
    case Some(n) => Some(Bare(n))
  }
}
