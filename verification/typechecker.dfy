/**
 * Pass 1 of bpl/type_checker/type_checker.py: resolving every variable, array and
 * function-call expression to the declaration it names.
 *
 * The source mutates a stack of dictionaries and writes `declaration` attributes into
 * the tree. Here the resolver returns the annotated tree and the stack as it leaves
 * it. A link is a copy of the declaration as it sits in the symbol table.
 */
module TypeChecker {
  import opened Wrappers
  import opened ParseTree
  import Decimal
  import Scanner

  /** One dictionary of the symbol table. */
  type Scope = map<string, Node>

  /** The symbol table: index 0 holds the globals, the last scope is the innermost. */
  type Stack = seq<Scope>

  /** What can stop the pass: the source's own exception, or a Python runtime error. */
  datatype CheckError =
    | TypeCheckerException(line: nat, message: string)
      /** An `AttributeError`: an object of class `className` lacks `attribute`. */
    | MissingAttribute(className: string, attribute: string)
      /** A `NameError` for an unbound global name. */
    | UndefinedName(name: string)

  /** The text of the raised exception. */
  function ErrorMessage(e: CheckError): string {
    match e
    case TypeCheckerException(line, message) =>
      "Type Checking Error on line " + Decimal.NatToString(line) + ": " + message
    case MissingAttribute(c, a) => "'" + c + "' object has no attribute '" + a + "'"
    case UndefinedName(x) => "global name '" + x + "' is not defined"
  }

  /** The exception carries its line number and message behind a fixed prefix. */
  lemma ErrorMessageFormat(line: nat, message: string)
    ensures var t := ErrorMessage(TypeCheckerException(line, message));
      var p := "Type Checking Error on line " + Decimal.NatToString(line) + ": ";
      |p| <= |t| && t[..|p|] == p && t[|p|..] == message
  {
  }

  /** `d` is the binding of `symbol` in the innermost scope of `stack` that binds it. */
  predicate Innermost(stack: Stack, symbol: string, d: Node) {
    exists i :: 0 <= i < |stack| && symbol in stack[i] && stack[i][symbol] == d
      && forall j :: i < j < |stack| ==> symbol !in stack[j]
  }

  /** Some scope of the stack binds `symbol`. */
  predicate Bound(stack: Stack, symbol: string) {
    exists i :: 0 <= i < |stack| && symbol in stack[i]
  }

  /** `lookup`: the innermost binding of `symbol`, `None` if no scope binds it. */
  function Lookup(symbol: string, stack: Stack): (r: Option<Node>)
    ensures r.Some? <==> Bound(stack, symbol)
    ensures r.Some? ==> Innermost(stack, symbol, r.value)
  {
    if stack == [] then None
    else
      var n := |stack| - 1;
      if symbol in stack[n] then Some(stack[n][symbol])
      else
        var r := Lookup(symbol, stack[..n]);
        assert Bound(stack, symbol) <==> Bound(stack[..n], symbol) by {
          if Bound(stack, symbol) {
            var i :| 0 <= i < |stack| && symbol in stack[i];
            assert stack[..n][i] == stack[i];
          }
          if Bound(stack[..n], symbol) {
            var i :| 0 <= i < n && symbol in stack[..n][i];
            assert stack[i] == stack[..n][i];
          }
        }
        if r.Some? then
          assert Innermost(stack, symbol, r.value) by {
            var i :| 0 <= i < n && symbol in stack[..n][i] && stack[..n][i][symbol] == r.value
              && forall j :: i < j < n ==> symbol !in stack[..n][j];
            assert stack[i] == stack[..n][i];
            assert forall j :: i < j < |stack| ==> symbol !in stack[j] by {
              forall j | i < j < |stack|
                ensures symbol !in stack[j]
              {
                if j < n {
                  assert stack[j] == stack[..n][j];
                }
              }
            }
          }
          r
        else r
  }

  /** A binding has one innermost scope, so `Innermost` pins the declaration down. */
  lemma InnermostUnique(stack: Stack, symbol: string, d: Node, d': Node)
    requires Innermost(stack, symbol, d) && Innermost(stack, symbol, d')
    ensures d == d'
  {
    var i :| 0 <= i < |stack| && symbol in stack[i] && stack[i][symbol] == d
      && forall j :: i < j < |stack| ==> symbol !in stack[j];
    var i' :| 0 <= i' < |stack| && symbol in stack[i'] && stack[i'][symbol] == d'
      && forall j :: i' < j < |stack| ==> symbol !in stack[j];
  }

  /** A pushed scope that binds `symbol` shadows every outer binding; one that does not is transparent. */
  lemma PushedScopeShadows(symbol: string, stack: Stack, scope: Scope)
    ensures symbol in scope ==> Lookup(symbol, stack + [scope]) == Some(scope[symbol])
    ensures symbol !in scope ==> Lookup(symbol, stack + [scope]) == Lookup(symbol, stack)
  {
    assert (stack + [scope])[..|stack|] == stack;
  }

  /** A node's `name` attribute; the empty string for nodes that have none. */
  function NameOf(n: Node): string {
    if HasName(n) then n.name else ""
  }

  /** The names of a list of declarations. */
  function Names(ns: seq<Node>): (r: seq<string>)
    ensures |r| == |ns| && forall k :: 0 <= k < |ns| ==> r[k] == NameOf(ns[k])
  {
    if ns == [] then [] else Names(ns[..|ns| - 1]) + [NameOf(ns[|ns| - 1])]
  }

  /** Entering `d` under its name keeps the last-occurrence bindings of the longer chain. */
  lemma EnterKeepsLastOccurrences(prefix: seq<Node>, d: Node, m: Scope)
    requires forall k :: 0 <= k < |prefix| && Scanner.LastOccurrence(Names(prefix), k) ==>
      NameOf(prefix[k]) in m && m[NameOf(prefix[k])] == prefix[k]
    ensures var decls := prefix + [d]; var m' := m[NameOf(d) := d];
      forall k :: 0 <= k < |decls| && Scanner.LastOccurrence(Names(decls), k) ==>
        NameOf(decls[k]) in m' && m'[NameOf(decls[k])] == decls[k]
  {
    var decls := prefix + [d];
    forall k | 0 <= k < |decls| && Scanner.LastOccurrence(Names(decls), k)
      ensures NameOf(decls[k]) in m[NameOf(d) := d] && m[NameOf(d) := d][NameOf(decls[k])] == decls[k]
    {
      if k < |prefix| {
        assert decls[k] == prefix[k];
        assert Names(decls)[|prefix|] == NameOf(d);
        assert Scanner.LastOccurrence(Names(prefix), k) by {
          forall l | k < l < |prefix|
            ensures Names(prefix)[l] != Names(prefix)[k]
          {
            assert Names(decls)[l] != Names(decls)[k];
            assert decls[l] == prefix[l];
          }
        }
      }
    }
  }

  /**
   * The dictionary the source builds from a parameter or local-declaration chain:
   * each declaration is entered under its name in chain order, so a later duplicate
   * replaces an earlier one. The first node that is not a variable or array
   * declaration stops the walk and is returned.
   */
  function ScopeOf(decls: seq<Node>): (r: Result<Scope, Node>)
    ensures r.Success? <==> forall k :: 0 <= k < |decls| ==> IsVarOrArrayDec(decls[k])
    ensures r.Success? ==> forall x :: x in r.value <==> x in Names(decls)
    ensures r.Success? ==> forall k :: 0 <= k < |decls| && Scanner.LastOccurrence(Names(decls), k) ==>
      NameOf(decls[k]) in r.value && r.value[NameOf(decls[k])] == decls[k]
    ensures r.Failure? ==>
      (exists k :: 0 <= k < |decls| && decls[k] == r.error && !IsVarOrArrayDec(decls[k])
        && forall j :: 0 <= j < k ==> IsVarOrArrayDec(decls[j]))
  {
    if decls == [] then Success(map[])
    else
      var n := |decls| - 1;
      var prefix := decls[..n];
      assert decls == prefix + [decls[n]];
      var m :- ScopeOf(prefix);
      var d := decls[n];
      if !IsVarOrArrayDec(d) then Failure(d)
      else
        EnterKeepsLastOccurrences(prefix, d, m);
        Success(m[NameOf(d) := d])
  }

  /** The exception for a bad parameter or local declaration. */
  function DeclarationError(bad: Node, message: string): CheckError {
    TypeCheckerException(bad.line, message)
  }

  const ParameterMessage := "Function parameter is not a variable, pointer, or array."
  const LocalMessage := "Local declaration is not a variable, pointer, or array."
  const StatementMessage := "Statement node is not a valid type of statement."
  const TopLevelMessage := "Top-level declaration is not a variable, pointer, array, or function."

  function UndeclaredVariable(name: string): string {
    "Undeclared variable or array with name " + name + "."
  }

  function UndeclaredFunction(name: string): string {
    "Undeclared function with name " + name + "."
  }

  // Expressions

  /**
   * Every node is one of the handled expression kinds, every variable and array name is
   * bound in some scope and every call names a global: the condition under which
   * resolution succeeds.
   */
  predicate WellScopedExp(e: Node, stack: Stack)
    requires |stack| > 0
    decreases Size(e), 0
  {
    match e
    case VarExpNode(_, name, _) => Bound(stack, name)
    case ArrayExpNode(_, name, _, _) => Bound(stack, name)
    case FunCallExpNode(_, name, args, _) => name in stack[0] && AllWellScopedExp(args, stack)
    case OpNode(_, _, _, l, r) => WellScopedExp(l, stack) && WellScopedExp(r, stack)
    case AddressExpNode(_, x) => WellScopedExp(x, stack)
    case DerefExpNode(_, x) => WellScopedExp(x, stack)
    case NegExpNode(_, x) => WellScopedExp(x, stack)
    case NumExpNode(_, _) => true
    case StringExpNode(_, _) => true
    case ReadExpNode(_) => true
    case _ => false
  }

  predicate AllWellScopedExp(es: seq<Node>, stack: Stack)
    requires |stack| > 0
    decreases SizeOf(es), 1
  {
    es == [] || (WellScopedExp(es[0], stack) && AllWellScopedExp(es[1..], stack))
  }

  /**
   * Every variable and array expression links to the innermost binding of its name,
   * every call links to the global binding of its name, and the links are set on
   * operands and arguments throughout.
   */
  predicate LinkedExp(e: Node, stack: Stack)
    requires |stack| > 0
    decreases Size(e), 0
  {
    match e
    case VarExpNode(_, name, d) => d.Some? && Innermost(stack, name, d.value)
    case ArrayExpNode(_, name, _, d) => d.Some? && Innermost(stack, name, d.value)
    case FunCallExpNode(_, name, args, d) =>
      name in stack[0] && d == Some(stack[0][name]) && AllLinkedExp(args, stack)
    case OpNode(_, _, _, l, r) => LinkedExp(l, stack) && LinkedExp(r, stack)
    case AddressExpNode(_, x) => LinkedExp(x, stack)
    case DerefExpNode(_, x) => LinkedExp(x, stack)
    case NegExpNode(_, x) => LinkedExp(x, stack)
    case NumExpNode(_, _) => true
    case StringExpNode(_, _) => true
    case ReadExpNode(_) => true
    case _ => false
  }

  predicate AllLinkedExp(es: seq<Node>, stack: Stack)
    requires |stack| > 0
    decreases SizeOf(es), 1
  {
    es == [] || (LinkedExp(es[0], stack) && AllLinkedExp(es[1..], stack))
  }

  /**
   * `find_references_expression`. It succeeds exactly when every name is in scope, and
   * then returns the same tree with every link set. The index of an array expression
   * is left as it was: the source does not descend into it.
   */
  function ResolveExpression(e: Node, stack: Stack): (r: Result<Node, CheckError>)
    requires |stack| > 0
    decreases Size(e), 1
    ensures r.Success? <==> WellScopedExp(e, stack)
    ensures r.Success? ==> Bare(r.value) == Bare(e) && LinkedExp(r.value, stack)
    ensures r.Success? && e.ArrayExpNode? ==> r.value.ArrayExpNode? && r.value.expression == e.expression
  {
    match e
    case VarExpNode(l, name, _) =>
      (match Lookup(name, stack)
       case None => Failure(TypeCheckerException(l, UndeclaredVariable(name)))
       case Some(d) => Success(VarExpNode(l, name, Some(d))))
    case ArrayExpNode(l, name, x, _) =>
      (match Lookup(name, stack)
       case None => Failure(TypeCheckerException(l, UndeclaredVariable(name)))
       case Some(d) => Success(ArrayExpNode(l, name, x, Some(d))))
    case FunCallExpNode(l, name, args, _) =>
      if name !in stack[0] then Failure(TypeCheckerException(l, UndeclaredFunction(name)))
      else
        var args' :- ResolveExpressions(args, stack);
        Success(FunCallExpNode(l, name, args', Some(stack[0][name])))
    case OpNode(_, _, _, _, _) => ResolveOperands(e, stack)
    case AddressExpNode(_, _) => ResolveOperands(e, stack)
    case DerefExpNode(_, _) => ResolveOperands(e, stack)
    case NegExpNode(_, _) => ResolveOperands(e, stack)
    case NumExpNode(_, _) => Success(e)
    case StringExpNode(_, _) => Success(e)
    case ReadExpNode(_) => Success(e)
    case _ => Failure(UndefinedName("statement"))
  }

  /** The operator cases: both operands, or the one operand, resolved in order. */
  function ResolveOperands(e: Node, stack: Stack): (r: Result<Node, CheckError>)
    requires |stack| > 0 && (e.OpNode? || e.AddressExpNode? || e.DerefExpNode? || e.NegExpNode?)
    decreases Size(e), 0
    ensures r.Success? <==> WellScopedExp(e, stack)
    ensures r.Success? ==> Bare(r.value) == Bare(e) && LinkedExp(r.value, stack)
  {
    match e
    case OpNode(k, l, t, a, b) =>
      var a' :- ResolveExpression(a, stack);
      var b' :- ResolveExpression(b, stack);
      Success(OpNode(k, l, t, a', b'))
    case AddressExpNode(l, x) =>
      var x' :- ResolveExpression(x, stack);
      Success(AddressExpNode(l, x'))
    case DerefExpNode(l, x) =>
      var x' :- ResolveExpression(x, stack);
      Success(DerefExpNode(l, x'))
    case NegExpNode(l, x) =>
      var x' :- ResolveExpression(x, stack);
      Success(NegExpNode(l, x'))
  }

  /** The `arg = arg.next_node` walk over call arguments, stopping at the first failure. */
  function ResolveExpressions(es: seq<Node>, stack: Stack): (r: Result<seq<Node>, CheckError>)
    requires |stack| > 0
    decreases SizeOf(es), 2
    ensures r.Success? <==> AllWellScopedExp(es, stack)
    ensures r.Success? ==> BareSeq(r.value) == BareSeq(es) && AllLinkedExp(r.value, stack)
  {
    if es == [] then Success([])
    else
      var x :- ResolveExpression(es[0], stack);
      var xs :- ResolveExpressions(es[1..], stack);
      assert ([x] + xs)[1..] == xs;
      Success([x] + xs)
  }

  // Statements

  /** A resolved statement and the symbol table as the source leaves it. */
  datatype Resolved = Resolved(node: Node, stack: Stack)

  /** Resolved statements and the symbol table as the source leaves it. */
  datatype ResolvedSeq = ResolvedSeq(nodes: seq<Node>, stack: Stack)

  /**
   * Every expression of the statement is present and well scoped, every block's local
   * declarations are variable or array declarations, and each block's statements are
   * well scoped under the stack extended by the block's scope.
   */
  predicate WellScopedStmt(s: Node, stack: Stack)
    requires |stack| > 0
    decreases Size(s), 0
  {
    match s
    case ExpressionStatementNode(_, o) => o.Some? && WellScopedExp(o.value, stack)
    case WhileStatementNode(_, c, b) => WellScopedExp(c, stack) && WellScopedStmt(b, stack)
    case ReturnStatementNode(_, o) => o.Some? && WellScopedExp(o.value, stack)
    case WriteStatementNode(_, e) => WellScopedExp(e, stack)
    case WritelnStatementNode(_) => true
    case IfStatementNode(_, c, t, o) =>
      WellScopedExp(c, stack) && WellScopedStmt(t, stack)
        && (match o case None => true case Some(e) => assert OptSize(o) == Size(e); WellScopedStmt(e, stack))
    case CompoundStatementNode(_, decs, stmts) =>
      ScopeOf(decs).Success? && AllWellScopedStmt(stmts, stack + [ScopeOf(decs).value])
    case _ => false
  }

  predicate AllWellScopedStmt(ss: seq<Node>, stack: Stack)
    requires |stack| > 0
    decreases SizeOf(ss), 1
  {
    ss == [] || (WellScopedStmt(ss[0], stack) && AllWellScopedStmt(ss[1..], stack))
  }

  /**
   * Every expression of the statement is linked under the scopes in force at it: the
   * enclosing stack for `while`, `if`, `return`, `write` and expression statements,
   * and the stack extended by exactly one scope, the block's own, inside a block.
   */
  predicate LinkedStmt(s: Node, stack: Stack)
    requires |stack| > 0
    decreases Size(s), 0
  {
    match s
    case ExpressionStatementNode(_, o) => o.Some? && LinkedExp(o.value, stack)
    case WhileStatementNode(_, c, b) => LinkedExp(c, stack) && LinkedStmt(b, stack)
    case ReturnStatementNode(_, o) => o.Some? && LinkedExp(o.value, stack)
    case WriteStatementNode(_, e) => LinkedExp(e, stack)
    case WritelnStatementNode(_) => true
    case IfStatementNode(_, c, t, o) =>
      LinkedExp(c, stack) && LinkedStmt(t, stack)
        && (match o case None => true case Some(e) => assert OptSize(o) == Size(e); LinkedStmt(e, stack))
    case CompoundStatementNode(_, decs, stmts) =>
      ScopeOf(decs).Success? && AllLinkedStmt(stmts, stack + [ScopeOf(decs).value])
    case _ => false
  }

  predicate AllLinkedStmt(ss: seq<Node>, stack: Stack)
    requires |stack| > 0
    decreases SizeOf(ss), 1
  {
    ss == [] || (LinkedStmt(ss[0], stack) && AllLinkedStmt(ss[1..], stack))
  }

  /** `find_references_expression` on an attribute that may hold `None`, which has no `kind`. */
  function ResolveOptExpression(o: Option<Node>, stack: Stack): (r: Result<Node, CheckError>)
    requires |stack| > 0
    ensures r.Success? <==> o.Some? && WellScopedExp(o.value, stack)
    ensures r.Success? ==> Bare(r.value) == Bare(o.value) && LinkedExp(r.value, stack)
    ensures o.None? ==> r == Failure(MissingAttribute("NoneType", "kind"))
  {
    match o
    case None => Failure(MissingAttribute("NoneType", "kind"))
    case Some(e) => ResolveExpression(e, stack)
  }

  /**
   * `find_references_statement`. It succeeds exactly when the statement is well
   * scoped, returns the statement with every link set, and leaves the symbol table as
   * it found it: each scope a block pushes is popped again.
   */
  function ResolveStatement(s: Node, stack: Stack): (r: Result<Resolved, CheckError>)
    requires |stack| > 0
    decreases Size(s), 1
    ensures r.Success? ==> r.value.stack == stack
    ensures r.Success? <==> WellScopedStmt(s, stack)
    ensures r.Success? ==> Bare(r.value.node) == Bare(s) && LinkedStmt(r.value.node, stack)
  {
    match s
    case ExpressionStatementNode(l, o) =>
      var e :- ResolveOptExpression(o, stack);
      Success(Resolved(ExpressionStatementNode(l, Some(e)), stack))
    case WhileStatementNode(l, c, b) =>
      var c' :- ResolveExpression(c, stack);
      var b' :- ResolveStatement(b, stack);
      Success(Resolved(WhileStatementNode(l, c', b'.node), b'.stack))
    case ReturnStatementNode(l, o) =>
      var e :- ResolveOptExpression(o, stack);
      Success(Resolved(ReturnStatementNode(l, Some(e)), stack))
    case WriteStatementNode(l, e) =>
      var e' :- ResolveExpression(e, stack);
      Success(Resolved(WriteStatementNode(l, e'), stack))
    case WritelnStatementNode(_) => Success(Resolved(s, stack))
    case IfStatementNode(_, _, _, _) => ResolveIf(s, stack)
    case CompoundStatementNode(_, _, _) => ResolveBlock(s, stack)
    case _ => Failure(TypeCheckerException(s.line, StatementMessage))
  }

  /** The `if` case: condition, then branch, then the optional else branch under the stack the then branch left. */
  function ResolveIf(s: Node, stack: Stack): (r: Result<Resolved, CheckError>)
    requires |stack| > 0 && s.IfStatementNode?
    decreases Size(s), 0
    ensures r.Success? ==> r.value.stack == stack
    ensures r.Success? <==> WellScopedStmt(s, stack)
    ensures r.Success? ==> Bare(r.value.node) == Bare(s) && LinkedStmt(r.value.node, stack)
  {
    var IfStatementNode(l, c, t, o) := s;
    var c' :- ResolveExpression(c, stack);
    var t' :- ResolveStatement(t, stack);
    match o
    case None => Success(Resolved(IfStatementNode(l, c', t'.node, None), t'.stack))
    case Some(e) =>
      assert OptSize(o) == Size(e);
      var e' :- ResolveStatement(e, t'.stack);
      Success(Resolved(IfStatementNode(l, c', t'.node, Some(e'.node)), e'.stack))
  }

  /** The block case: its declarations form a scope pushed for its statements and popped after them. */
  function ResolveBlock(s: Node, stack: Stack): (r: Result<Resolved, CheckError>)
    requires |stack| > 0 && s.CompoundStatementNode?
    decreases Size(s), 0
    ensures r.Success? ==> r.value.stack == stack
    ensures r.Success? <==> WellScopedStmt(s, stack)
    ensures r.Success? ==> Bare(r.value.node) == Bare(s) && LinkedStmt(r.value.node, stack)
    ensures ScopeOf(s.localDeclarations).Failure? ==> r == Failure(DeclarationError(ScopeOf(s.localDeclarations).error, LocalMessage))
  {
    var CompoundStatementNode(l, decs, stmts) := s;
    match ScopeOf(decs)
    case Failure(bad) => Failure(DeclarationError(bad, LocalMessage))
    case Success(scope) =>
      var pushed := stack + [scope];
      var rs :- ResolveStatements(stmts, pushed);
      assert pushed[..|stack|] == stack;
      Success(Resolved(CompoundStatementNode(l, decs, rs.nodes), rs.stack[..|rs.stack| - 1]))
  }

  /** The `stmnt = stmnt.next_node` walk over a block's statements. */
  function ResolveStatements(ss: seq<Node>, stack: Stack): (r: Result<ResolvedSeq, CheckError>)
    requires |stack| > 0
    decreases SizeOf(ss), 2
    ensures r.Success? ==> r.value.stack == stack
    ensures r.Success? <==> AllWellScopedStmt(ss, stack)
    ensures r.Success? ==> BareSeq(r.value.nodes) == BareSeq(ss) && AllLinkedStmt(r.value.nodes, stack)
  {
    if ss == [] then Success(ResolvedSeq([], stack))
    else
      var x :- ResolveStatement(ss[0], stack);
      var xs :- ResolveStatements(ss[1..], x.stack);
      assert ([x.node] + xs.nodes)[1..] == xs.nodes;
      Success(ResolvedSeq([x.node] + xs.nodes, xs.stack))
  }

  // Top-level declarations

  /** The globals after entering `decls` in order, each under its name. */
  function Declare(globals: Scope, decls: seq<Node>): Scope
    decreases |decls|
  {
    if decls == [] then globals else Declare(globals[NameOf(decls[0]) := decls[0]], decls[1..])
  }

  /**
   * Every top-level item is a named variable, array or function declaration, and each
   * function has variable or array parameters and a body well scoped under the globals
   * entered so far (the function itself included) and its parameter scope.
   */
  predicate WellScopedDecls(decls: seq<Node>, globals: Scope)
    decreases |decls|
  {
    decls == [] ||
    (var d := decls[0];
     var g := globals[NameOf(d) := d];
     (IsVarOrArrayDec(d)
       || (d.FunDecNode? && ScopeOf(d.params).Success? && WellScopedStmt(d.body, [g, ScopeOf(d.params).value])))
     && WellScopedDecls(decls[1..], g))
  }

  /**
   * `out` is `decls` with each function body linked under the globals entered up to
   * and including that function, and one pushed scope of its parameters.
   */
  predicate LinkedDecls(out: seq<Node>, decls: seq<Node>, globals: Scope)
    decreases |decls|
  {
    |out| == |decls| &&
    (decls == [] ||
     (var g := globals[NameOf(decls[0]) := decls[0]];
      (out[0].FunDecNode? ==> ScopeOf(out[0].params).Success? && LinkedStmt(out[0].body, [g, ScopeOf(out[0].params).value]))
      && LinkedDecls(out[1..], decls[1..], g)))
  }

  /**
   * `find_references`: each top-level declaration is entered into scope 0 before its
   * body is resolved, and a function's parameters form one scope pushed for its body
   * and popped after it.
   */
  function ResolveDecls(decls: seq<Node>, globals: Scope): (r: Result<seq<Node>, CheckError>)
    decreases |decls|
    ensures r.Success? <==> WellScopedDecls(decls, globals)
    ensures r.Success? ==> BareSeq(r.value) == BareSeq(decls) && LinkedDecls(r.value, decls, globals)
  {
    if decls == [] then Success([])
    else
      var d := decls[0];
      if !HasName(d) then Failure(MissingAttribute(ClassName(d), "name"))
      else
        var g := globals[d.name := d];
        assert NameOf(d) == d.name;
        if IsVarOrArrayDec(d) then
          var rest :- ResolveDecls(decls[1..], g);
          assert ([d] + rest)[1..] == rest;
          Success([d] + rest)
        else if d.FunDecNode? then
          (match ScopeOf(d.params)
           case Failure(bad) => Failure(DeclarationError(bad, ParameterMessage))
           case Success(ps) =>
             var b :- ResolveStatement(d.body, [g, ps]);
             var popped := b.stack[..1];
             var rest :- ResolveDecls(decls[1..], popped[0]);
             var f := d.(body := b.node);
             assert ([f] + rest)[1..] == rest;
             Success([f] + rest))
        else Failure(TypeCheckerException(d.line, TopLevelMessage))
  }

  /** `type_check` (pass 1): resolution starts from a single empty global scope. */
  function TypeCheck(program: seq<Node>): (r: Result<seq<Node>, CheckError>)
    ensures r.Success? <==> WellScopedDecls(program, map[])
    ensures r.Success? ==> BareSeq(r.value) == BareSeq(program) && LinkedDecls(r.value, program, map[])
  {
    ResolveDecls(program, map[])
  }

  // Properties

  /** Entering declarations in order binds exactly their names on top of the globals. */
  lemma {:induction false} DeclareBinds(globals: Scope, decls: seq<Node>)
    ensures forall x :: x in Declare(globals, decls) <==> x in globals || x in Names(decls)
    decreases |decls|
  {
    if decls != [] {
      var g := globals[NameOf(decls[0]) := decls[0]];
      DeclareBinds(g, decls[1..]);
      assert Declare(globals, decls) == Declare(g, decls[1..]);
      assert Names(decls) == [NameOf(decls[0])] + Names(decls[1..]);
    }
  }

  /** The last declaration entered keeps its binding. */
  lemma {:induction false} DeclareLast(globals: Scope, decls: seq<Node>)
    requires decls != []
    ensures NameOf(decls[|decls| - 1]) in Declare(globals, decls)
    ensures Declare(globals, decls)[NameOf(decls[|decls| - 1])] == decls[|decls| - 1]
    decreases |decls|
  {
    var g := globals[NameOf(decls[0]) := decls[0]];
    assert Declare(globals, decls) == Declare(g, decls[1..]);
    if |decls| == 1 {
      assert decls[1..] == [];
    } else {
      DeclareLast(g, decls[1..]);
      assert decls[1..][|decls[1..]| - 1] == decls[|decls| - 1];
    }
  }

  /**
   * In closed form: the body of the function at position `k` is linked under the globals
   * `decls[..k+1]` declares (itself included, later items not) and its parameter scope.
   */
  lemma {:induction false} FunctionSeesEarlierDeclarations(out: seq<Node>, decls: seq<Node>, globals: Scope, k: nat)
    requires LinkedDecls(out, decls, globals)
    requires k < |decls| && out[k].FunDecNode?
    ensures ScopeOf(out[k].params).Success?
    ensures LinkedStmt(out[k].body, [Declare(globals, decls[..k + 1]), ScopeOf(out[k].params).value])
    decreases k
  {
    var g := globals[NameOf(decls[0]) := decls[0]];
    if k == 0 {
      assert Declare(globals, decls[..1]) == g by {
        assert decls[..1][1..] == [];
      }
    } else {
      FunctionSeesEarlierDeclarations(out[1..], decls[1..], g, k - 1);
      assert decls[1..][..k] == decls[..k + 1][1..];
    }
  }

  /** A call resolves only in scope 0: an inner binding of the same name neither helps nor shadows it. */
  lemma CallResolvesGlobally(line: nat, name: string, args: seq<Node>, d: Option<Node>, stack: Stack)
    requires |stack| > 0
    ensures name !in stack[0] ==>
      ResolveExpression(FunCallExpNode(line, name, args, d), stack) == Failure(TypeCheckerException(line, UndeclaredFunction(name)))
    ensures ResolveExpression(FunCallExpNode(line, name, args, d), stack).Success? ==>
      ResolveExpression(FunCallExpNode(line, name, args, d), stack).value.declaration == Some(stack[0][name])
  {
  }

  /** A variable or array expression with no binding in any scope is an undeclared-name error. */
  lemma UndeclaredVariableFails(line: nat, name: string, index: Node, d: Option<Node>, stack: Stack)
    requires |stack| > 0 && !Bound(stack, name)
    ensures ResolveExpression(VarExpNode(line, name, d), stack) == Failure(TypeCheckerException(line, UndeclaredVariable(name)))
    ensures ResolveExpression(ArrayExpNode(line, name, index, d), stack) == Failure(TypeCheckerException(line, UndeclaredVariable(name)))
  {
  }

  /** An innermost binding in a pushed block scope is what a variable expression links to. */
  lemma BlockScopeShadows(line: nat, name: string, stack: Stack, scope: Scope)
    requires |stack| > 0 && name in scope
    ensures ResolveExpression(VarExpNode(line, name), stack + [scope]) == Success(VarExpNode(line, name, Some(scope[name])))
  {
    PushedScopeShadows(name, stack, scope);
  }

  /**
   * The index of an array expression is not resolved: the expression succeeds as soon
   * as the array's name is bound, whatever names the index uses, and the index keeps
   * whatever links it had.
   */
  lemma ArrayIndexNotResolved(line: nat, name: string, index: Node, d: Option<Node>, stack: Stack)
    requires |stack| > 0 && Bound(stack, name)
    ensures ResolveExpression(ArrayExpNode(line, name, index, d), stack).Success?
    ensures ResolveExpression(ArrayExpNode(line, name, index, d), stack).value.expression == index
  {
  }

  /** Literal and `read` expressions are left as they are: they create no links. */
  lemma LiteralsCreateNoLinks(e: Node, stack: Stack)
    requires |stack| > 0 && (e.NumExpNode? || e.StringExpNode? || e.ReadExpNode?)
    ensures ResolveExpression(e, stack) == Success(e)
  {
  }

  /** The expression kinds `find_references_expression` handles. */
  predicate IsExpressionKind(e: Node) {
    e.VarExpNode? || e.ArrayExpNode? || e.FunCallExpNode? || e.OpNode? || e.AddressExpNode?
      || e.DerefExpNode? || e.NegExpNode? || e.NumExpNode? || e.StringExpNode? || e.ReadExpNode?
  }

  /** The statement kinds `find_references_statement` handles; `read` statements are not among them. */
  predicate IsStatementKind(s: Node) {
    s.ExpressionStatementNode? || s.WhileStatementNode? || s.ReturnStatementNode? || s.WriteStatementNode?
      || s.WritelnStatementNode? || s.IfStatementNode? || s.CompoundStatementNode?
  }

  /**
   * The final `else` of `find_references_expression` names an unbound variable
   * `statement`, so any other node in an expression slot raises a `NameError` rather
   * than the intended exception.
   */
  lemma NonExpressionFails(e: Node, stack: Stack)
    requires |stack| > 0 && !IsExpressionKind(e)
    ensures ResolveExpression(e, stack) == Failure(UndefinedName("statement"))
  {
  }

  /** Any node in a statement slot other than the seven handled statement kinds is rejected. */
  lemma NonStatementFails(s: Node, stack: Stack)
    requires |stack| > 0 && !IsStatementKind(s)
    ensures ResolveStatement(s, stack) == Failure(TypeCheckerException(s.line, StatementMessage))
  {
  }

  /** An empty expression statement or a bare `return` hands `None` to the expression resolver. */
  lemma MissingExpressionFails(line: nat, stack: Stack)
    requires |stack| > 0
    ensures ResolveStatement(ExpressionStatementNode(line, None), stack) == Failure(MissingAttribute("NoneType", "kind"))
    ensures ResolveStatement(ReturnStatementNode(line, None), stack) == Failure(MissingAttribute("NoneType", "kind"))
  {
  }

  /** A block whose local declarations include a non-declaration fails at the first such node. */
  lemma BadLocalDeclarationFails(line: nat, decs: seq<Node>, stmts: seq<Node>, stack: Stack)
    requires |stack| > 0
    requires exists k :: 0 <= k < |decs| && !IsVarOrArrayDec(decs[k])
    ensures
      (exists k :: 0 <= k < |decs| && !IsVarOrArrayDec(decs[k])
        && (forall j :: 0 <= j < k ==> IsVarOrArrayDec(decs[j]))
        && ResolveStatement(CompoundStatementNode(line, decs, stmts), stack)
           == Failure(TypeCheckerException(decs[k].line, LocalMessage)))
  {
    var r := ScopeOf(decs);
    var k :| 0 <= k < |decs| && decs[k] == r.error && !IsVarOrArrayDec(decs[k])
      && forall j :: 0 <= j < k ==> IsVarOrArrayDec(decs[j]);
    assert ResolveStatement(CompoundStatementNode(line, decs, stmts), stack)
        == Failure(TypeCheckerException(decs[k].line, LocalMessage));
  }

  /** A function with a non-declaration parameter fails at the first such parameter. */
  lemma BadParameterFails(f: Node, rest: seq<Node>, globals: Scope)
    requires f.FunDecNode? && exists k :: 0 <= k < |f.params| && !IsVarOrArrayDec(f.params[k])
    ensures
      (exists k :: 0 <= k < |f.params| && !IsVarOrArrayDec(f.params[k])
        && (forall j :: 0 <= j < k ==> IsVarOrArrayDec(f.params[j]))
        && ResolveDecls([f] + rest, globals) == Failure(TypeCheckerException(f.params[k].line, ParameterMessage)))
  {
    var r := ScopeOf(f.params);
    var k :| 0 <= k < |f.params| && f.params[k] == r.error && !IsVarOrArrayDec(f.params[k])
      && forall j :: 0 <= j < k ==> IsVarOrArrayDec(f.params[j]);
    assert ([f] + rest)[0] == f;
    assert ResolveDecls([f] + rest, globals) == Failure(TypeCheckerException(f.params[k].line, ParameterMessage));
  }

  /** A named top-level item that is not a declaration is rejected; one without a name has no `name` attribute. */
  lemma BadTopLevelFails(d: Node, rest: seq<Node>, globals: Scope)
    requires !IsVarOrArrayDec(d) && !d.FunDecNode?
    ensures HasName(d) ==> ResolveDecls([d] + rest, globals) == Failure(TypeCheckerException(d.line, TopLevelMessage))
    ensures !HasName(d) ==> ResolveDecls([d] + rest, globals) == Failure(MissingAttribute(ClassName(d), "name"))
  {
  }

  /** A function body made of one call statement. */
  function Caller(line: nat, name: string, t: Scanner.Token, callee: string): Node {
    FunDecNode(line, name, t, [],
      CompoundStatementNode(line, [], [ExpressionStatementNode(line, Some(FunCallExpNode(line, callee, [])))]))
  }

  /** A block holding one call statement resolves when the callee is global, linking the call to it. */
  lemma CallBlockResolves(line: nat, callee: string, stack: Stack)
    requires |stack| > 0 && callee in stack[0]
    ensures ResolveStatement(Caller(line, "", Scanner.Token(Scanner.TEof, "", 0), callee).body, stack)
         == Success(Resolved(CompoundStatementNode(line, [], [ExpressionStatementNode(line, Some(FunCallExpNode(line, callee, [], Some(stack[0][callee]))))]), stack))
  {
    var pushed := stack + [map[]];
    assert pushed[0] == stack[0];
    CallStatementResolves(line, callee, pushed);
    OneStatementBlock(line, ExpressionStatementNode(line, Some(FunCallExpNode(line, callee, []))),
      ExpressionStatementNode(line, Some(FunCallExpNode(line, callee, [], Some(stack[0][callee])))), stack);
  }

  lemma CallStatementResolves(line: nat, callee: string, stack: Stack)
    requires |stack| > 0 && callee in stack[0]
    ensures ResolveStatement(ExpressionStatementNode(line, Some(FunCallExpNode(line, callee, []))), stack)
         == Success(Resolved(ExpressionStatementNode(line, Some(FunCallExpNode(line, callee, [], Some(stack[0][callee])))), stack))
  {
    var call := FunCallExpNode(line, callee, []);
    var linked := FunCallExpNode(line, callee, [], Some(stack[0][callee]));
    assert ResolveExpressions([], stack) == Success([]);
    assert ResolveExpression(call, stack) == Success(linked);
    assert ResolveOptExpression(Some(call), stack) == Success(linked);
  }

  /** A block with no declarations and one statement resolves as that statement does under one more, empty, scope. */
  lemma OneStatementBlock(line: nat, st: Node, st': Node, stack: Stack)
    requires |stack| > 0 && ResolveStatement(st, stack + [map[]]) == Success(Resolved(st', stack + [map[]]))
    ensures ResolveStatement(CompoundStatementNode(line, [], [st]), stack)
         == Success(Resolved(CompoundStatementNode(line, [], [st']), stack))
  {
    var pushed := stack + [map[]];
    assert ResolveStatements([], pushed) == Success(ResolvedSeq([], pushed));
    assert ResolveStatements([st], pushed) == Success(ResolvedSeq([st'], pushed)) by {
      assert [st][1..] == [];
      assert [st'] + [] == [st'];
    }
    assert ScopeOf([]) == Success(map[]);
    assert pushed[..|stack|] == stack;
    assert ResolveBlock(CompoundStatementNode(line, [], [st]), stack) == Success(Resolved(CompoundStatementNode(line, [], [st']), stack));
  }

  /** A function can call itself: it is in scope 0 before its body is resolved. */
  lemma SelfRecursionResolves(line: nat, f: string, t: Scanner.Token)
    ensures var caller := Caller(line, f, t, f);
      TypeCheck([caller]) == Success([FunDecNode(line, f, t, [],
        CompoundStatementNode(line, [], [ExpressionStatementNode(line, Some(FunCallExpNode(line, f, [], Some(caller))))]))])
  {
    var caller := Caller(line, f, t, f);
    var g := map[f := caller];
    var stack := [g, map[]];
    CallBlockResolves(line, f, stack);
    assert caller.body == Caller(line, "", Scanner.Token(Scanner.TEof, "", 0), f).body;
    var es' := ExpressionStatementNode(line, Some(FunCallExpNode(line, f, [], Some(caller))));
    assert ScopeOf([]) == Success(map[]);
    assert ResolveDecls([], g) == Success([]);
    assert [caller][1..] == [];
    var linkedCaller := caller.(body := CompoundStatementNode(line, [], [es']));
    assert [linkedCaller] + [] == [linkedCaller];
  }

  /** A call to a function declared later in the program is an undeclared-function error. */
  lemma LaterFunctionIsUndeclared(line: nat, line': nat, f: string, g: string, t: Scanner.Token)
    requires f != g
    ensures TypeCheck([Caller(line, f, t, g), FunDecNode(line', g, t, [], CompoundStatementNode(line', [], []))])
         == Failure(TypeCheckerException(line, UndeclaredFunction(g)))
  {
    var caller := Caller(line, f, t, g);
    var callee := FunDecNode(line', g, t, [], CompoundStatementNode(line', [], []));
    var gl := map[f := caller];
    var pushed := [gl, map[], map[]];
    var es := caller.body.statements[0];
    var err := TypeCheckerException(line, UndeclaredFunction(g));
    assert ResolveExpression(es.maybeExpression.value, pushed) == Failure(err);
    assert ResolveStatements([es], pushed) == Failure(err);
    assert ScopeOf([]) == Success(map[]);
    assert [gl, map[]] + [map[]] == pushed;
    assert ResolveStatement(caller.body, [gl, map[]]) == Failure(err);
    assert [caller, callee][0] == caller;
  }

  /** The same call succeeds once the callee is declared first. */
  lemma EarlierFunctionResolves(line: nat, line': nat, f: string, g: string, t: Scanner.Token)
    requires f != g
    ensures TypeCheck([FunDecNode(line', g, t, [], CompoundStatementNode(line', [], [])), Caller(line, f, t, g)]).Success?
  {
    var caller := Caller(line, f, t, g);
    var callee := FunDecNode(line', g, t, [], CompoundStatementNode(line', [], []));
    var g1 := map[g := callee];
    var g2 := g1[f := caller];
    assert ScopeOf([]) == Success(map[]);
    assert WellScopedStmt(callee.body, [g1, map[]]);
    assert WellScopedStmt(caller.body, [g2, map[]]) by {
      CallBlockResolves(line, g, [g2, map[]]);
      assert caller.body == Caller(line, "", Scanner.Token(Scanner.TEof, "", 0), g).body;
    }
    assert WellScopedDecls([], g2);
    assert WellScopedDecls([caller], g1) by {
      assert [caller][1..] == [];
    }
    assert [callee, caller][1..] == [caller];
    assert WellScopedDecls([callee, caller], map[]);
  }
}
