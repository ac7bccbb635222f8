/** The code fix for the named-arguments rule: every positional argument gets
    the name of the parameter at its position. Two versions of the provider
    exist; one pairs arguments with the parameter names of the method symbol,
    the other pairs the parameters of the method's declaration with the
    arguments. Both keep an argument that already has a name. */
module NamedParametersFix {
  import opened Common
  import opened Syntax
  import opened NamedParameters

  const FixTitle := "Add parameter name(s)"

  /** The fix is offered for the rule's diagnostic only. */
  const FixableIds: seq<string> := [DiagnosticId]

  function Min(a: nat, b: nat): nat
  {
    if a <= b then a else b
  }

  /** `FixArgumentIfNeeded`: a named argument is kept, a positional one gets
      `paramName:` in front of the same expression. */
  function NameArgument(a: Argument, paramName: string): (r: Argument)
    ensures r.expr == a.expr && IsNamed(r)
    ensures IsNamed(a) ==> r == a
    ensures !IsNamed(a) ==> r.nameColon == Some(paramName)
  {
    if a.nameColon.Some? then a else Argument(Some(paramName), a.expr)
  }

  /** `GetUpdatedArguments` of the symbol-based provider:
      `arguments.Zip(parameterNames)`, each pair through `NameArgument`. */
  function UpdatedArguments(args: seq<Argument>, paramNames: seq<string>): (r: seq<Argument>)
    ensures |r| == Min(|args|, |paramNames|)
    ensures forall i :: 0 <= i < |r| ==> r[i].expr == args[i].expr && IsNamed(r[i])
    ensures forall i :: 0 <= i < |r| && IsNamed(args[i]) ==> r[i] == args[i]
    ensures forall i :: 0 <= i < |r| && !IsNamed(args[i]) ==> r[i].nameColon == Some(paramNames[i])
    decreases |args|
  {
    if |args| == 0 || |paramNames| == 0 then []
    else [NameArgument(args[0], paramNames[0])] + UpdatedArguments(args[1..], paramNames[1..])
  }

  /** A parameter of the method's declaration; `identifierText` is the
      identifier as written (with a leading `@` when escaped). */
  datatype ParameterDecl = ParameterDecl(identifierText: string)

  /** `GetUpdatedArguments` of the declaration-based provider:
      `parameters.Zip(arguments)`, each pair through `NameArgument`. */
  function UpdatedArgumentsFromDeclaration(params: seq<ParameterDecl>, args: seq<Argument>): (r: seq<Argument>)
    ensures |r| == Min(|params|, |args|)
    decreases |params|
  {
    if |params| == 0 || |args| == 0 then []
    else [NameArgument(args[0], params[0].identifierText)] + UpdatedArgumentsFromDeclaration(params[1..], args[1..])
  }

  function IdentifierTexts(params: seq<ParameterDecl>): (r: seq<string>)
    ensures |r| == |params| && forall i :: 0 <= i < |params| ==> r[i] == params[i].identifierText
  {
    seq(|params|, i requires 0 <= i < |params| => params[i].identifierText)
  }

  /** Zipping parameters first gives the same arguments as zipping arguments
      first: the two providers differ only in where the names come from. */
  lemma {:induction false} ZipOrderDoesNotMatter(params: seq<ParameterDecl>, args: seq<Argument>)
    ensures UpdatedArgumentsFromDeclaration(params, args) == UpdatedArguments(args, IdentifierTexts(params))
    decreases |params|
  {
    if |params| > 0 && |args| > 0 {
      ZipOrderDoesNotMatter(params[1..], args[1..]);
      assert IdentifierTexts(params)[1..] == IdentifierTexts(params[1..]);
    }
  }

  /** Naming the arguments a second time changes nothing. */
  lemma {:induction false} UpdateIdempotent(args: seq<Argument>, paramNames: seq<string>)
    ensures UpdatedArguments(UpdatedArguments(args, paramNames), paramNames) == UpdatedArguments(args, paramNames)
    decreases |args|
  {
    if |args| > 0 && |paramNames| > 0 {
      var r := UpdatedArguments(args, paramNames);
      UpdateIdempotent(args[1..], paramNames[1..]);
      assert r[1..] == UpdatedArguments(args[1..], paramNames[1..]);
    }
  }

  /** The call with its argument list replaced by the fixed one. */
  function WithArguments(node: Expr, args: seq<Argument>): (r: Expr)
    requires ArgumentsOf(node).Some?
    ensures ArgumentsOf(r) == Some(args)
    ensures node.Invocation? ==> r == Invocation(node.callee, args)
    ensures node.ObjectCreation? ==> r == ObjectCreation(node.typeName, true, args)
  {
    match node
    case Invocation(callee, _) => Invocation(callee, args)
    case ObjectCreation(t, _, _) => ObjectCreation(t, true, args)
  }

  /** `UpdateInvocationArguments` / `UpdateCreationArguments` of the
      symbol-based provider; a node bound to no method raises. */
  function FixCall(node: Expr, resolved: Option<seq<ParameterInfo>>): (r: Result<Expr>)
    requires ArgumentsOf(node).Some?
    ensures r.Failed? <==> resolved.None?
    ensures r.Ok? ==> r.value == WithArguments(node, UpdatedArguments(node.args, ParameterNamesOf(resolved.value)))
  {
    match resolved
    case None => Failed(NullReference)
    case Some(ps) => Ok(WithArguments(node, UpdatedArguments(node.args, ParameterNamesOf(ps))))
  }

  /** The names of the called member's parameters, in declaration order. */
  function ParameterNamesOf(ps: seq<ParameterInfo>): (r: seq<string>)
    ensures |r| == |ps| && forall i :: 0 <= i < |ps| ==> r[i] == ps[i].name
  {
    if |ps| == 0 then [] else [ps[0].name] + ParameterNamesOf(ps[1..])
  }

  /** The fix silences the rule: a reported call with no more arguments than
      parameters is, once fixed, no longer reported, and its arguments are
      the same expressions in the same order. */
  lemma FixSilencesRule(node: Expr, ps: seq<ParameterInfo>)
    requires AnalyzeNode(node, Some(ps)) == Ok(true)
    requires |node.args| <= |ps|
    ensures FixCall(node, Some(ps)).Ok?
    ensures AnalyzeNode(FixCall(node, Some(ps)).value, Some(ps)) == Ok(false)
    ensures var fixed := ArgumentsOf(FixCall(node, Some(ps)).value).value;
            |fixed| == |node.args| && forall i :: 0 <= i < |fixed| ==> fixed[i].expr == node.args[i].expr
  {
    var fixed := UpdatedArguments(node.args, ParameterNamesOf(ps));
    assert !HasPositional(fixed);
  }

  /** The declaration-based provider: the called member's declaration, when
      the source has one that is a method (or constructor) declaration;
      otherwise reading its parameter list raises. */
  function FixCallFromDeclaration(node: Expr, declaration: Option<seq<ParameterDecl>>): (r: Result<Expr>)
    requires ArgumentsOf(node).Some?
    ensures r.Failed? <==> declaration.None?
    ensures r.Ok? ==> r.value == WithArguments(node, UpdatedArguments(node.args, IdentifierTexts(declaration.value)))
  {
    match declaration
    case None => Failed(NullReference)
    case Some(params) =>
      ZipOrderDoesNotMatter(params, node.args);
      Ok(WithArguments(node, UpdatedArgumentsFromDeclaration(params, node.args)))
  }

  // ---------------------------------------------------------------------
  // Which node the fix rewrites
  // ---------------------------------------------------------------------

  datatype NodeKind = InvocationNode | CreationNode | OtherNode

  /** A node on the path from the token at the start of the diagnostic up to
      the root, with its source span. */
  datatype Ancestor = Ancestor(kind: NodeKind, start: nat, end: nat)

  /** Index of the first node of the given kind. */
  function FirstOfKind(chain: seq<Ancestor>, k: NodeKind): (r: Option<nat>)
    ensures r.None? <==> forall i :: 0 <= i < |chain| ==> chain[i].kind != k
    ensures r.Some? ==> r.value < |chain| && chain[r.value].kind == k
    ensures r.Some? ==> forall i :: 0 <= i < r.value ==> chain[i].kind != k
  {
    if |chain| == 0 then None
    else if chain[0].kind == k then Some(0)
    else
      match FirstOfKind(chain[1..], k)
      case None => None
      case Some(i) => Some(i + 1)
  }

  /** `GetFixerMethod` as written: the innermost invocation among the
      ancestors, else the innermost object creation, else no fix. */
  function FixerTargetAsWritten(chain: seq<Ancestor>): (r: Option<nat>)
    ensures r.None? <==> forall i :: 0 <= i < |chain| ==> chain[i].kind == OtherNode
    ensures r.Some? ==> r.value < |chain| && chain[r.value].kind != OtherNode
    ensures r.Some? && chain[r.value].kind == CreationNode ==>
              forall i :: 0 <= i < |chain| ==> chain[i].kind != InvocationNode
    ensures r.Some? ==> forall i :: 0 <= i < r.value ==> chain[i].kind != chain[r.value].kind
  {
    match FirstOfKind(chain, InvocationNode)
    case Some(i) => Some(i)
    case None => FirstOfKind(chain, CreationNode)
  }

  /** The node the diagnostic was reported on: the innermost call node whose
      span is the diagnostic's span. */
  function FixerTarget(chain: seq<Ancestor>, start: nat, end: nat): (r: Option<nat>)
    ensures r.None? <==> forall i :: 0 <= i < |chain| ==>
              !(chain[i].kind != OtherNode && chain[i].start == start && chain[i].end == end)
    ensures r.Some? ==> r.value < |chain| && chain[r.value].kind != OtherNode
                        && chain[r.value].start == start && chain[r.value].end == end
    ensures r.Some? ==> forall i :: 0 <= i < r.value ==>
              !(chain[i].kind != OtherNode && chain[i].start == start && chain[i].end == end)
  {
    if |chain| == 0 then None
    else if chain[0].kind != OtherNode && chain[0].start == start && chain[0].end == end then Some(0)
    else
      match FixerTarget(chain[1..], start, end)
      case None => None
      case Some(i) => Some(i + 1)
  }

  /** Both choose the reported node when it is the innermost call node on
      the path and, for an object creation, no invocation encloses it. */
  lemma SelectionsAgree(chain: seq<Ancestor>, k: nat)
    requires k < |chain| && chain[k].kind != OtherNode
    requires forall i :: 0 <= i < k ==> chain[i].kind == OtherNode
    requires chain[k].kind == CreationNode ==> forall i :: 0 <= i < |chain| ==> chain[i].kind != InvocationNode
    ensures FixerTargetAsWritten(chain) == Some(k)
    ensures FixerTarget(chain, chain[k].start, chain[k].end) == Some(k)
  {
    var r := FixerTargetAsWritten(chain);
    assert r.Some?;
  }

  /** The path from `b` in `b.Create().With(1, 2, 3, 4)`: the identifier,
      `b.Create`, the inner call `b.Create()`, `b.Create().With`, and the
      reported outer call. */
  function ChainedCall(): seq<Ancestor>
  {
    [Ancestor(OtherNode, 0, 1), Ancestor(OtherNode, 0, 8), Ancestor(InvocationNode, 0, 10),
     Ancestor(OtherNode, 0, 15), Ancestor(InvocationNode, 0, 28)]
  }

  /** The fix as written rewrites the inner call `b.Create()`, which has no
      arguments, instead of the reported one; the corrected selection takes
      the reported call. */
  lemma ChainedCallFixesTheInnerCall()
    ensures FixerTargetAsWritten(ChainedCall()) == Some(2)
    ensures FixerTarget(ChainedCall(), 0, 28) == Some(4)
  {
    var c := ChainedCall();
    assert c[2].kind == InvocationNode;
    assert forall i :: 0 <= i < 2 ==> c[i].kind != InvocationNode;
  }

  /** The path from `new` in `Call(new T(1, 2, 3, 4))`: the reported object
      creation, the argument, the argument list and the enclosing call. */
  function CreationInsideCall(): seq<Ancestor>
  {
    [Ancestor(CreationNode, 5, 23), Ancestor(OtherNode, 5, 23), Ancestor(OtherNode, 4, 24), Ancestor(InvocationNode, 0, 24)]
  }

  /** The fix as written rewrites the enclosing one-argument call instead of
      the reported object creation; the corrected selection takes the
      creation. */
  lemma CreationInsideCallFixesTheCall()
    ensures FixerTargetAsWritten(CreationInsideCall()) == Some(3)
    ensures FixerTarget(CreationInsideCall(), 5, 23) == Some(0)
  {
    var c := CreationInsideCall();
    assert c[3].kind == InvocationNode;
    assert forall i :: 0 <= i < 3 ==> c[i].kind != InvocationNode;
  }
}
