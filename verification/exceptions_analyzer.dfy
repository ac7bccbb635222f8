/** The exception-handling analyzer: every statement of a catch block is
    classified by how it treats the caught exception, the per-statement results
    are mapped to at most one diagnostic per catch clause, and a fault while
    analysing a try statement is turned into one internal-error diagnostic. */
module ExceptionsAnalyzer {
  import opened Common
  import opened Syntax
  import opened ExceptionDescriptors

  // ---------------------------------------------------------------------
  // Usage scan
  // ---------------------------------------------------------------------

  /** The usages the scan can see: the identifier itself, or an argument of an
      invocation or object creation that (recursively) mentions it. A member
      access such as `e.Message`, a binary expression or a callee is not
      looked into. */
  ghost predicate Mentions(name: string, e: Expr)
    decreases e
  {
    match e
    case Identifier(n) => n == name
    case Invocation(_, args) => exists i :: 0 <= i < |args| && Mentions(name, args[i].expr)
    case ObjectCreation(_, has, args) => has && exists i :: 0 <= i < |args| && Mentions(name, args[i].expr)
    case _ => false
  }

  /** Every object creation the scan may reach has an argument list, so the
      scan cannot dereference a missing one. */
  ghost predicate Scannable(e: Expr)
    decreases e
  {
    match e
    case Invocation(_, args) => forall i :: 0 <= i < |args| ==> Scannable(args[i].expr)
    case ObjectCreation(_, has, args) => has && forall i :: 0 <= i < |args| ==> Scannable(args[i].expr)
    case _ => true
  }

  /** Whether the expression uses the variable `name`. The scan visits
      arguments left to right and stops at the first usage; reaching an object
      creation without an argument list raises a null reference. */
  function UsedIn(name: string, e: Expr): (r: Result<bool>)
    ensures r.Ok? ==> (r.value <==> Mentions(name, e))
    ensures Scannable(e) ==> r.Ok?
    ensures r.Failed? ==> r.fault == NullReference
    decreases e
  {
    match e
    case Identifier(n) => Ok(n == name)
    case Invocation(_, _) => UsedInArguments(name, e, 0)
    case ObjectCreation(_, has, _) => if has then UsedInArguments(name, e, 0) else Failed(NullReference)
    case _ => Ok(false)
  }

  /** `call.ArgumentList.Arguments.Skip(from).Any(x => UsedIn(name, x.Expression))` */
  function UsedInArguments(name: string, call: Expr, from: nat): (r: Result<bool>)
    requires call.Invocation? || call.ObjectCreation?
    requires from <= |call.args|
    ensures r.Ok? ==> (r.value <==> exists i :: from <= i < |call.args| && Mentions(name, call.args[i].expr))
    ensures (forall i :: from <= i < |call.args| ==> Scannable(call.args[i].expr)) ==> r.Ok?
    ensures r.Failed? ==> r.fault == NullReference
    decreases call, |call.args| - from
  {
    if from == |call.args| then Ok(false)
    else
      match UsedIn(name, call.args[from].expr)
      case Failed(f) => Failed(f)
      case Ok(true) => Ok(true)
      case Ok(false) => UsedInArguments(name, call, from + 1)
  }

  /** Some declarator's initializer mentions `name`. */
  ghost predicate InitializerMentions(name: string, ds: seq<Declarator>)
  {
    exists i :: 0 <= i < |ds| && ds[i].init.Some? && Mentions(name, ds[i].init.value)
  }

  /** `Variables.Any(x => UsedIn(name, x.Initializer.Value))`: declarators are
      visited in order, and one without an initializer raises a null reference
      unless an earlier one already used the variable. */
  function UsedInDeclarators(name: string, ds: seq<Declarator>): (r: Result<bool>)
    ensures r.Ok? ==> (r.value <==> InitializerMentions(name, ds))
    ensures r == Ok(false) ==> forall i :: 0 <= i < |ds| ==> ds[i].init.Some?
    ensures (forall i :: 0 <= i < |ds| ==> ds[i].init.Some? && Scannable(ds[i].init.value)) ==> r.Ok?
    ensures r.Failed? ==> r.fault == NullReference
  {
    if |ds| == 0 then Ok(false)
    else if ds[0].init.None? then Failed(NullReference)
    else
      match UsedIn(name, ds[0].init.value)
      case Failed(f) => Failed(f)
      case Ok(true) => Ok(true)
      case Ok(false) =>
        var rest := UsedInDeclarators(name, ds[1..]);
        assert rest.Ok? ==> (InitializerMentions(name, ds) <==> InitializerMentions(name, ds[1..])) by {
          if rest.Ok? && InitializerMentions(name, ds) {
            var i :| 0 <= i < |ds| && ds[i].init.Some? && Mentions(name, ds[i].init.value);
            assert i != 0;
            assert ds[1..][i - 1] == ds[i];
          }
        }
        rest
  }

  // ---------------------------------------------------------------------
  // Statement classifier
  // ---------------------------------------------------------------------

  /** The statement kinds the classifier knows, with every expression it scans
      free of argument-list-less object creations and every declarator
      initialised. */
  ghost predicate Classifiable(s: Stmt)
  {
    match s
    case ExpressionStmt(e) => Scannable(e)
    case LocalDecl(_, _, ds) => forall i :: 0 <= i < |ds| ==> ds[i].init.Some? && Scannable(ds[i].init.value)
    case Throw(None) => true
    case Throw(Some(x)) => Scannable(x)
    case _ => false
  }

  /** The result for one statement of a catch block whose variable is `name`. */
  function ClassifyStatement(name: string, s: Stmt): (r: Result<Verdict>)
    ensures r.Ok? ==> r.value != Undefined
    ensures (r.Failed? && r.fault == UnknownStatement) <==> !(s.ExpressionStmt? || s.LocalDecl? || s.Throw?)
    ensures Classifiable(s) ==> r.Ok?
    ensures s.ExpressionStmt? && r.Ok? ==>
              (r.value == Used || r.value == NoUsage) && (r.value == Used <==> Mentions(name, s.expr))
    ensures s.LocalDecl? && r.Ok? ==>
              (r.value == Used || r.value == NoUsage) && (r.value == Used <==> InitializerMentions(name, s.declarators))
    ensures s == Throw(None) ==> r == Ok(CorrectRethrow)
    ensures r == Ok(RethrowSame) <==> s == Throw(Some(Identifier(name)))
    ensures s.Throw? && s.operand.Some? && s.operand.value != Identifier(name) && r.Ok? ==>
              (r.value == CorrectRethrow || r.value == RethrowWithoutInnerException)
              && (r.value == CorrectRethrow <==> Mentions(name, s.operand.value))
  {
    match s
    case ExpressionStmt(e) => UsageVerdict(UsedIn(name, e), Used, NoUsage)
    case LocalDecl(_, _, ds) => UsageVerdict(UsedInDeclarators(name, ds), Used, NoUsage)
    case Throw(None) => Ok(CorrectRethrow)
    case Throw(Some(x)) =>
      if x.Identifier? && x.name == name then Ok(RethrowSame)
      else UsageVerdict(UsedIn(name, x), CorrectRethrow, RethrowWithoutInnerException)
    case _ => Failed(UnknownStatement)
  }

  /** `used ? whenUsed : otherwise`, passing a fault through. */
  function UsageVerdict(used: Result<bool>, whenUsed: Verdict, otherwise: Verdict): (r: Result<Verdict>)
    ensures used.Failed? ==> r == Failed(used.fault)
    ensures used.Ok? ==> r.Ok? && (r.value == whenUsed || r.value == otherwise)
    ensures used.Ok? && whenUsed != otherwise ==> (r.value == whenUsed <==> used.value)
  {
    match used
    case Failed(f) => Failed(f)
    case Ok(b) => Ok(if b then whenUsed else otherwise)
  }

  // ---------------------------------------------------------------------
  // Catch clause: from per-statement results to one diagnostic
  // ---------------------------------------------------------------------

  /** The declared variable's name, or "" for `catch` and `catch (T)`. */
  function CatchVariableName(c: CatchClause): string
  {
    if c.declaration.Some? then c.declaration.value.identifier else ""
  }

  /** All statements classified in order (the source materialises the list),
      so the first faulting statement aborts the whole block. */
  function ClassifyBlock(name: string, stmts: seq<Stmt>): (r: Result<seq<Verdict>>)
    ensures r.Ok? ==> |r.value| == |stmts|
    ensures r.Ok? ==> forall i :: 0 <= i < |stmts| ==> ClassifyStatement(name, stmts[i]) == Ok(r.value[i])
    ensures r.Failed? <==> exists i :: 0 <= i < |stmts| && ClassifyStatement(name, stmts[i]).Failed?
  {
    if |stmts| == 0 then Ok([])
    else
      match ClassifyStatement(name, stmts[0])
      case Failed(f) => Failed(f)
      case Ok(v) =>
        match ClassifyBlock(name, stmts[1..])
        case Failed(f) =>
          assert forall i :: 1 <= i < |stmts| ==> stmts[1..][i - 1] == stmts[i];
          Failed(f)
        case Ok(vs) =>
          assert forall i :: 1 <= i < |stmts| ==> stmts[1..][i - 1] == stmts[i];
          Ok([v] + vs)
  }

  /** Index of the first occurrence of `v`. */
  function FirstIndexOf(vs: seq<Verdict>, v: Verdict): (r: Option<nat>)
    ensures r.None? <==> v !in vs
    ensures r.Some? ==> r.value < |vs| && vs[r.value] == v
    ensures r.Some? ==> forall j :: 0 <= j < r.value ==> vs[j] != v
  {
    if |vs| == 0 then None
    else if vs[0] == v then Some(0)
    else
      match FirstIndexOf(vs[1..], v)
      case None => None
      case Some(i) => Some(i + 1)
  }

  /** Where a diagnostic of one catch clause points. */
  datatype Anchor = AtCatchKeyword | AtStatement(index: nat)

  datatype Finding = Finding(kind: Kind, anchor: Anchor)

  /** The fixed order in which a catch block's results are mapped to a
      diagnostic: unanimous NoUsage (or no statement) first, then the first
      `throw e;`, then any rethrow without inner exception. */
  function SelectFinding(vs: seq<Verdict>): (r: Option<Finding>)
    ensures (r.Some? && r.value.kind == NoExceptionUsage) <==> forall i :: 0 <= i < |vs| ==> vs[i] == NoUsage
    ensures (r.Some? && r.value.kind == RethrowSameException) <==> RethrowSame in vs
    ensures (r.Some? && r.value.kind == RethrowWithoutInner) <==>
              RethrowSame !in vs && RethrowWithoutInnerException in vs
    ensures r.None? <==>
              (exists i :: 0 <= i < |vs| && vs[i] != NoUsage)
              && RethrowSame !in vs && RethrowWithoutInnerException !in vs
    ensures r.Some? ==> r.value.kind != AnalyzerError
    ensures r.Some? && r.value.kind == RethrowSameException ==>
              r.value.anchor.AtStatement? && r.value.anchor.index < |vs|
              && vs[r.value.anchor.index] == RethrowSame
              && forall j :: 0 <= j < r.value.anchor.index ==> vs[j] != RethrowSame
    ensures r.Some? && r.value.kind != RethrowSameException ==> r.value.anchor == AtCatchKeyword
  {
    if forall i :: 0 <= i < |vs| ==> vs[i] == NoUsage then
      Some(Finding(NoExceptionUsage, AtCatchKeyword))
    else
      match FirstIndexOf(vs, RethrowSame)
      case Some(i) => Some(Finding(RethrowSameException, AtStatement(i)))
      case None =>
        if RethrowWithoutInnerException in vs then Some(Finding(RethrowWithoutInner, AtCatchKeyword))
        else None
  }

  /** `AnalyzeCatch`: the diagnostic (if any) of one catch clause, or the fault
      that aborted its classification. */
  function AnalyzeCatch(c: CatchClause): (r: Result<Option<Finding>>)
    ensures r.Failed? <==>
              exists i :: 0 <= i < |c.block| && ClassifyStatement(CatchVariableName(c), c.block[i]).Failed?
    ensures r.Ok? ==> r.value == SelectFinding(ClassifyBlock(CatchVariableName(c), c.block).value)
  {
    match ClassifyBlock(CatchVariableName(c), c.block)
    case Failed(f) => Failed(f)
    case Ok(vs) => Ok(SelectFinding(vs))
  }

  /** The worst (lowest-ranked) result of a non-empty block. */
  function Worst(vs: seq<Verdict>): (w: Verdict)
    requires |vs| > 0
    ensures w in vs
    ensures forall i :: 0 <= i < |vs| ==> Rank(w) <= Rank(vs[i])
  {
    if |vs| == 1 then vs[0]
    else
      var w := Worst(vs[1..]);
      if Rank(vs[0]) <= Rank(w) then vs[0] else w
  }

  /** The selection order agrees with "worst wins" for the defects, but a
      NoUsage result only produces the swallow diagnostic when it is unanimous:
      a single Used or CorrectRethrow statement clears it. */
  lemma {:induction false} WorstDecidesFinding(vs: seq<Verdict>)
    requires |vs| > 0 && Undefined !in vs
    ensures Worst(vs) == RethrowSame ==>
              SelectFinding(vs).Some? && SelectFinding(vs).value.kind == RethrowSameException
    ensures Worst(vs) == RethrowWithoutInnerException ==>
              SelectFinding(vs) == Some(Finding(RethrowWithoutInner, AtCatchKeyword))
    ensures IsPositive(Worst(vs)) ==> SelectFinding(vs).None?
    ensures Worst(vs) == NoUsage ==>
              (SelectFinding(vs).Some? <==> forall i :: 0 <= i < |vs| ==> vs[i] == NoUsage)
  {
  }

  // ---------------------------------------------------------------------
  // Try statement: catches analysed lazily, faults contained
  // ---------------------------------------------------------------------

  /** Locations are paths inside the analysed try statement. */
  datatype Location =
    | CatchKeyword(catchIndex: nat)
    | StatementIn(catchIndex: nat, statementIndex: nat)
    | TryNode

  datatype Diagnostic = Diagnostic(kind: Kind, location: Location)

  /** The diagnostic reported for finding `f` of catch clause number `k`. */
  function Locate(k: nat, f: Finding): Diagnostic
  {
    match f.anchor
    case AtCatchKeyword => Diagnostic(f.kind, CatchKeyword(k))
    case AtStatement(i) => Diagnostic(f.kind, StatementIn(k, i))
  }

  /** What analysing one catch clause gives: a fault, or at most one finding. */
  type Outcome = Result<Option<Finding>>

  /** Outcomes `from` up to and including `k` are all fault-free. */
  ghost predicate NoFaultThrough(outs: seq<Outcome>, from: nat, k: nat)
    requires k < |outs|
  {
    forall j :: from <= j <= k ==> outs[j].Ok?
  }

  /** `d` is the diagnostic of catch clause number `k`, reached before any fault. */
  ghost predicate ReportedFor(outs: seq<Outcome>, from: nat, k: nat, d: Diagnostic)
  {
    && from <= k < |outs|
    && NoFaultThrough(outs, from, k)
    && outs[k].value.Some?
    && d == Locate(k, outs[k].value.value)
  }

  /** The catch index a lint diagnostic points into. */
  function CatchIndexOf(d: Diagnostic): nat
  {
    match d.location
    case CatchKeyword(k) => k
    case StatementIn(k, _) => k
    case TryNode => 0
  }

  /** Some outcome from `from` on is a fault. */
  ghost predicate FaultFrom(outs: seq<Outcome>, from: nat)
  {
    exists k :: from <= k < |outs| && outs[k].Failed?
  }

  lemma FaultFromStep(outs: seq<Outcome>, from: nat)
    requires from < |outs|
    ensures FaultFrom(outs, from) <==> outs[from].Failed? || FaultFrom(outs, from + 1)
  {
    if FaultFrom(outs, from) {
      var k :| from <= k < |outs| && outs[k].Failed?;
      assert k == from || from + 1 <= k;
    }
  }

  /** No outcome holds a finding of the internal-error kind. */
  ghost predicate LintOnly(outs: seq<Outcome>)
  {
    forall k :: 0 <= k < |outs| && outs[k].Ok? && outs[k].value.Some? ==> outs[k].value.value.kind != AnalyzerError
  }

  /** The reporting loop over the catch outcomes, in order: each finding is
      reported as soon as it is produced, and the first fault stops the loop
      and adds the internal-error diagnostic at the try statement. Lint
      diagnostics point into a catch clause, so the try node marks the fault. */
  function ReportOutcomes(outs: seq<Outcome>, from: nat): (r: seq<Diagnostic>)
    requires from <= |outs|
    ensures |r| <= |outs| - from + 1
    ensures forall i :: 0 <= i < |r| && r[i].location == TryNode ==> i == |r| - 1 && r[i].kind == AnalyzerError
    ensures FaultFrom(outs, from) <==> (|r| > 0 && r[|r| - 1].location == TryNode)
    decreases |outs| - from
  {
    if from == |outs| then []
    else
      FaultFromStep(outs, from);
      match outs[from]
      case Failed(_) => [Diagnostic(AnalyzerError, TryNode)]
      case Ok(None) => ReportOutcomes(outs, from + 1)
      case Ok(Some(f)) => [Locate(from, f)] + ReportOutcomes(outs, from + 1)
  }

  /** Nothing is reported but the findings of catch clauses reached before a fault. */
  lemma {:induction false} ReportsOnlyFindingsBeforeAFault(outs: seq<Outcome>, from: nat)
    requires from <= |outs|
    ensures forall i :: 0 <= i < |ReportOutcomes(outs, from)| && ReportOutcomes(outs, from)[i].location != TryNode ==>
              ReportedFor(outs, from, CatchIndexOf(ReportOutcomes(outs, from)[i]), ReportOutcomes(outs, from)[i])
    decreases |outs| - from
  {
    if from < |outs| && outs[from].Ok? {
      ReportsOnlyFindingsBeforeAFault(outs, from + 1);
      var rest := ReportOutcomes(outs, from + 1);
      forall i | 0 <= i < |rest| && rest[i].location != TryNode
        ensures ReportedFor(outs, from, CatchIndexOf(rest[i]), rest[i])
      {
        assert ReportedFor(outs, from + 1, CatchIndexOf(rest[i]), rest[i]);
      }
    }
  }

  /** Lint diagnostics keep the kinds of their findings. */
  lemma {:induction false} ReportsLintKinds(outs: seq<Outcome>, from: nat)
    requires from <= |outs| && LintOnly(outs)
    ensures forall i :: 0 <= i < |ReportOutcomes(outs, from)| && ReportOutcomes(outs, from)[i].location != TryNode ==>
              ReportOutcomes(outs, from)[i].kind != AnalyzerError
    decreases |outs| - from
  {
    if from < |outs| && outs[from].Ok? {
      ReportsLintKinds(outs, from + 1);
    }
  }

  /** Every finding of a catch clause reached before a fault is reported. */
  lemma {:induction false} ReportsEveryFindingBeforeAFault(outs: seq<Outcome>, from: nat, k: nat)
    requires from <= k < |outs|
    requires NoFaultThrough(outs, from, k) && outs[k].value.Some?
    ensures Locate(k, outs[k].value.value) in ReportOutcomes(outs, from)
    decreases k - from
  {
    if from < k {
      ReportsEveryFindingBeforeAFault(outs, from + 1, k);
    }
  }

  /** Diagnostics come out in the order of their catch clauses, one per clause at most. */
  lemma {:induction false} ReportsInCatchOrder(outs: seq<Outcome>, from: nat)
    requires from <= |outs|
    ensures forall i :: 0 <= i < |ReportOutcomes(outs, from)| && ReportOutcomes(outs, from)[i].location != TryNode ==>
              from <= CatchIndexOf(ReportOutcomes(outs, from)[i])
    ensures forall i, j :: 0 <= i < j < |ReportOutcomes(outs, from)| && ReportOutcomes(outs, from)[j].location != TryNode ==>
              CatchIndexOf(ReportOutcomes(outs, from)[i]) < CatchIndexOf(ReportOutcomes(outs, from)[j])
    decreases |outs| - from
  {
    if from < |outs| && outs[from].Ok? {
      ReportsInCatchOrder(outs, from + 1);
    }
  }

  /** The outcome of every catch clause, in order. */
  function CatchOutcomes(catches: seq<CatchClause>): (outs: seq<Outcome>)
    ensures |outs| == |catches|
    ensures forall k :: 0 <= k < |catches| ==> outs[k] == AnalyzeCatch(catches[k])
  {
    seq(|catches|, k requires 0 <= k < |catches| => AnalyzeCatch(catches[k]))
  }

  /** `AnalyzeSymbol` for one try statement. The source analyses the catches
      lazily; since each catch's outcome depends on that catch alone, listing
      the outcomes first and stopping the report at the first fault yields
      the same diagnostics. */
  function AnalyzeTry(catches: seq<CatchClause>): (r: seq<Diagnostic>)
    ensures |r| <= |catches| + 1
    ensures forall i :: 0 <= i < |r| && r[i].kind == AnalyzerError ==> i == |r| - 1 && r[i].location == TryNode
    ensures SomeCatchFaults(catches) <==> (|r| > 0 && r[|r| - 1].kind == AnalyzerError)
  {
    var r := ReportOutcomes(CatchOutcomes(catches), 0);
    TryReportShape(catches, r);
    r
  }

  /** The three facts `AnalyzeTry` promises, about its result. */
  lemma TryReportShape(catches: seq<CatchClause>, r: seq<Diagnostic>)
    requires r == ReportOutcomes(CatchOutcomes(catches), 0)
    ensures |r| <= |catches| + 1
    ensures forall i :: 0 <= i < |r| && r[i].kind == AnalyzerError ==> i == |r| - 1 && r[i].location == TryNode
    ensures SomeCatchFaults(catches) <==> (|r| > 0 && r[|r| - 1].kind == AnalyzerError)
  {
    TryReportErrorIsLast(catches);
    TryReportFault(catches);
  }

  lemma TryReportErrorIsLast(catches: seq<CatchClause>)
    ensures var r := ReportOutcomes(CatchOutcomes(catches), 0);
            forall i :: 0 <= i < |r| && r[i].kind == AnalyzerError ==> i == |r| - 1 && r[i].location == TryNode
  {
    CatchOutcomesLintOnly(catches);
    ReportsLintKinds(CatchOutcomes(catches), 0);
  }

  lemma TryReportFault(catches: seq<CatchClause>)
    ensures var r := ReportOutcomes(CatchOutcomes(catches), 0);
            SomeCatchFaults(catches) <==> (|r| > 0 && r[|r| - 1].kind == AnalyzerError)
  {
    CatchOutcomesFault(catches);
    TryReportErrorIsLast(catches);
  }

  /** Some catch clause of the try statement faults. */
  ghost predicate SomeCatchFaults(catches: seq<CatchClause>)
  {
    exists k :: 0 <= k < |catches| && AnalyzeCatch(catches[k]).Failed?
  }

  /** Catch clauses report lint findings only. */
  lemma CatchOutcomesLintOnly(catches: seq<CatchClause>)
    ensures LintOnly(CatchOutcomes(catches))
  {
    var outs := CatchOutcomes(catches);
    forall k | 0 <= k < |outs| && outs[k].Ok? && outs[k].value.Some?
      ensures outs[k].value.value.kind != AnalyzerError
    {
      var vs := ClassifyBlock(CatchVariableName(catches[k]), catches[k].block).value;
      assert outs[k].value == SelectFinding(vs);
    }
  }

  lemma CatchOutcomesFault(catches: seq<CatchClause>)
    ensures FaultFrom(CatchOutcomes(catches), 0) <==> SomeCatchFaults(catches)
  {
    var outs := CatchOutcomes(catches);
    if FaultFrom(outs, 0) {
      var k :| 0 <= k < |outs| && outs[k].Failed?;
      assert AnalyzeCatch(catches[k]).Failed?;
    }
    if SomeCatchFaults(catches) {
      var k :| 0 <= k < |catches| && AnalyzeCatch(catches[k]).Failed?;
      assert outs[k].Failed?;
    }
  }

  /** Findings of catch clauses that come before the first fault are all
      reported, each at its own catch clause and in catch order, and nothing
      else is. */
  lemma AnalyzeTryReportsExactlyTheFindingsBeforeAFault(catches: seq<CatchClause>)
    ensures forall i :: 0 <= i < |AnalyzeTry(catches)| && AnalyzeTry(catches)[i].kind != AnalyzerError ==>
              ReportedFor(CatchOutcomes(catches), 0, CatchIndexOf(AnalyzeTry(catches)[i]), AnalyzeTry(catches)[i])
    ensures forall k :: 0 <= k < |catches| && NoFaultThrough(CatchOutcomes(catches), 0, k)
                        && AnalyzeCatch(catches[k]).value.Some? ==>
              Locate(k, AnalyzeCatch(catches[k]).value.value) in AnalyzeTry(catches)
    ensures forall i, j :: 0 <= i < j < |AnalyzeTry(catches)| && AnalyzeTry(catches)[j].kind != AnalyzerError ==>
              CatchIndexOf(AnalyzeTry(catches)[i]) < CatchIndexOf(AnalyzeTry(catches)[j])
  {
    var outs := CatchOutcomes(catches);
    ReportsOnlyFindingsBeforeAFault(outs, 0);
    ReportsInCatchOrder(outs, 0);
    forall k | 0 <= k < |catches| && NoFaultThrough(outs, 0, k) && AnalyzeCatch(catches[k]).value.Some?
      ensures Locate(k, AnalyzeCatch(catches[k]).value.value) in AnalyzeTry(catches)
    {
      ReportsEveryFindingBeforeAFault(outs, 0, k);
    }
  }

  // ---------------------------------------------------------------------
  // Registration gate
  // ---------------------------------------------------------------------

  /** Severity is declared outside the modelled files; only Ignore matters. */
  datatype Severity = Ignore | NotIgnore

  /** The process-wide settings, passed explicitly. */
  datatype Settings = Settings(isInitialized: bool, exceptionsSeverity: Severity)

  /** `Initialize` registers the try-statement action unless the settings were
      initialised with the exceptions severity set to Ignore. */
  predicate RegistersAnalysis(s: Settings)
  {
    !(s.isInitialized && s.exceptionsSeverity == Ignore)
  }

  /** What the host receives for one try statement under the given settings. */
  function Analyze(settings: Settings, catches: seq<CatchClause>): (r: seq<Diagnostic>)
    ensures settings.isInitialized && settings.exceptionsSeverity == Ignore ==> r == []
    ensures !settings.isInitialized ==> r == AnalyzeTry(catches)
    ensures settings.exceptionsSeverity == NotIgnore ==> r == AnalyzeTry(catches)
  {
    if RegistersAnalysis(settings) then AnalyzeTry(catches) else []
  }
}
