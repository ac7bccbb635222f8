/** The named-arguments rule: a method call or object creation with four or
    more arguments, at least one of them positional, is reported unless the
    called member takes a `params` parameter. */
module NamedParameters {
  import opened Common
  import opened Syntax

  /** The argument count from which a call is looked at. */
  const Threshold: nat := 4

  const DiagnosticId := "CCN0031"
  const AnalyzerErrorId := "CCN0030"
  const Category := "Naming"

  /** The title and message print the threshold. */
  const Title := "Method calls with 4 or more parameters should be named"
  const Message := "Method calls with 4 or more parameters should have param names"

  /** A parameter of the called member, as the semantic model describes it. */
  datatype ParameterInfo = ParameterInfo(name: string, isParams: bool)

  /** The argument list of an invocation or object creation; other nodes, and
      an object creation written without parentheses, have none. */
  function ArgumentsOf(node: Expr): (r: Option<seq<Argument>>)
    ensures r.Some? <==> node.Invocation? || (node.ObjectCreation? && node.hasArgumentList)
    ensures r.Some? ==> r.value == node.args
  {
    match node
    case Invocation(_, args) => Some(args)
    case ObjectCreation(_, hasList, args) => if hasList then Some(args) else None
    case _ => None
  }

  predicate IsNamed(a: Argument)
  {
    a.nameColon.Some?
  }

  /** Some argument is written without `name:`. */
  predicate HasPositional(args: seq<Argument>)
  {
    exists i :: 0 <= i < |args| && !IsNamed(args[i])
  }

  predicate TakesParams(ps: seq<ParameterInfo>)
  {
    exists i :: 0 <= i < |ps| && ps[i].isParams
  }

  /** The node is a candidate before the called member is looked up: it has
      an argument list of at least the threshold's length with a positional
      argument in it. */
  predicate Candidate(node: Expr)
  {
    ArgumentsOf(node).Some? && |ArgumentsOf(node).value| >= Threshold && HasPositional(ArgumentsOf(node).value)
  }

  /** `AnalyzeNode`: whether the node is reported. The called member is
      looked up only for a candidate; `resolved` is None when the node binds
      to no method symbol, and then reading its parameters raises. */
  function AnalyzeNode(node: Expr, resolved: Option<seq<ParameterInfo>>): (r: Result<bool>)
    ensures r.Failed? <==> Candidate(node) && resolved.None?
    ensures r.Failed? ==> r.fault == NullReference
    ensures r == Ok(true) <==> Candidate(node) && resolved.Some? && !TakesParams(resolved.value)
    ensures !Candidate(node) ==> r == Ok(false)
  {
    match ArgumentsOf(node)
    case None => Ok(false)
    case Some(args) =>
      if |args| < Threshold then Ok(false)
      else if !exists i :: 0 <= i < |args| && args[i].nameColon.None? then Ok(false)
      else
        match resolved
        case None => Failed(NullReference)
        case Some(ps) =>
          if exists i :: 0 <= i < |ps| && ps[i].isParams then Ok(false) else Ok(true)
  }

  /** `Method1("param1", param2: ..., param3: ..., param4: ...)`: one
      positional argument among four is enough to be reported. */
  lemma OnePositionalOfFourIsReported(callee: Expr, e: seq<Expr>, ps: seq<ParameterInfo>)
    requires |e| == 4 && |ps| == 4
    requires forall i :: 0 <= i < 4 ==> !ps[i].isParams
    ensures var args := [Argument(None, e[0]), Argument(Some("param2"), e[1]),
                         Argument(Some("param3"), e[2]), Argument(Some("param4"), e[3])];
            && AnalyzeNode(Invocation(callee, args), Some(ps)) == Ok(true)
            && AnalyzeNode(ObjectCreation("TypeName", true, args), Some(ps)) == Ok(true)
  {
    var args := [Argument(None, e[0]), Argument(Some("param2"), e[1]),
                 Argument(Some("param3"), e[2]), Argument(Some("param4"), e[3])];
    assert !IsNamed(args[0]);
  }
}
