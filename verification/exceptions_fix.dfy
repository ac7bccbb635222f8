/** The code fix for the "rethrow same exception" diagnostic: the offending
    `throw e;` statement is replaced by `throw;`, which keeps the call stack. */
module ExceptionsFix {
  import opened Common
  import opened Syntax
  import opened ExceptionDescriptors
  import opened ExceptionsAnalyzer

  const FixTitle := "Replace with \"throw;\" statement"

  /** The fix is offered for one diagnostic only. */
  const FixableIds: seq<string> := [Id(RethrowSameException)]

  /** Only the rethrow-same diagnostic is fixable. */
  lemma OnlyRethrowSameIsFixable(k: Kind)
    ensures Id(k) in FixableIds <==> k == RethrowSameException
  {
    IdsDistinct(k, RethrowSameException);
  }

  /** The throw statement a diagnostic location points at, as catch and
      statement indices. The source takes the first throw statement among the
      ancestors of the diagnostic's first token; in the modelled fragment
      that is the statement itself, and when there is none `First()` raises,
      which is `None` here. */
  function FixTarget(catches: seq<CatchClause>, loc: Location): (r: Option<(nat, nat)>)
    ensures r.Some? <==>
              && loc.StatementIn?
              && loc.catchIndex < |catches|
              && loc.statementIndex < |catches[loc.catchIndex].block|
              && catches[loc.catchIndex].block[loc.statementIndex].Throw?
    ensures r.Some? ==> r.value == (loc.catchIndex, loc.statementIndex)
  {
    match loc
    case StatementIn(k, i) =>
      if k < |catches| && i < |catches[k].block| && catches[k].block[i].Throw? then Some((k, i)) else None
    case _ => None
  }

  /** Replaces statement `i` of the catch block by `throw;`; nothing else changes. */
  function FixThrow(c: CatchClause, i: nat): (r: CatchClause)
    requires i < |c.block|
    ensures r.declaration == c.declaration && |r.block| == |c.block|
    ensures r.block[i] == Throw(None)
    ensures forall j :: 0 <= j < |c.block| && j != i ==> r.block[j] == c.block[j]
  {
    CatchClause(c.declaration, c.block[i := Throw(None)])
  }

  /** The fix applied to a try statement at a diagnostic location. */
  function FixTry(catches: seq<CatchClause>, loc: Location): (r: Option<seq<CatchClause>>)
    ensures r.Some? <==> FixTarget(catches, loc).Some?
    ensures r.Some? ==>
              var (k, i) := FixTarget(catches, loc).value;
              |r.value| == |catches| && r.value[k] == FixThrow(catches[k], i)
              && forall j :: 0 <= j < |catches| && j != k ==> r.value[j] == catches[j]
  {
    match FixTarget(catches, loc)
    case None => None
    case Some((k, i)) => Some(catches[k := FixThrow(catches[k], i)])
  }

  /** How many statements are `throw e;` rethrows. */
  function CountRethrowSame(vs: seq<Verdict>): (n: nat)
    ensures n <= |vs|
    ensures n == 0 <==> RethrowSame !in vs
  {
    if |vs| == 0 then 0
    else (if vs[0] == RethrowSame then 1 else 0) + CountRethrowSame(vs[1..])
  }

  /** Changing one `throw e;` into something else removes exactly one. */
  lemma {:induction false} CountAfterReplacingOne(vs: seq<Verdict>, i: nat, v: Verdict)
    requires i < |vs| && vs[i] == RethrowSame && v != RethrowSame
    ensures CountRethrowSame(vs[i := v]) == CountRethrowSame(vs) - 1
  {
    if i > 0 {
      assert vs[i := v][1..] == vs[1..][i - 1 := v];
      CountAfterReplacingOne(vs[1..], i - 1, v);
    } else {
      assert vs[i := v][1..] == vs[1..];
    }
  }

  /** The fixed block classifies exactly as before, except that the fixed
      statement is now a correct rethrow. In particular the fix cannot
      introduce a fault. */
  lemma FixThrowClassification(c: CatchClause, i: nat)
    requires i < |c.block|
    requires ClassifyBlock(CatchVariableName(c), c.block).Ok?
    ensures ClassifyBlock(CatchVariableName(FixThrow(c, i)), FixThrow(c, i).block) ==
              Ok(ClassifyBlock(CatchVariableName(c), c.block).value[i := CorrectRethrow])
  {
    var name := CatchVariableName(c);
    var vs := ClassifyBlock(name, c.block).value;
    var fixed := FixThrow(c, i).block;
    var r := ClassifyBlock(name, fixed);
    assert CatchVariableName(FixThrow(c, i)) == name;
    forall j | 0 <= j < |fixed| ensures ClassifyStatement(name, fixed[j]).Ok? {
      if j != i {
        assert fixed[j] == c.block[j];
      }
    }
    forall j | 0 <= j < |fixed| ensures r.value[j] == vs[i := CorrectRethrow][j] {
      if j != i {
        assert fixed[j] == c.block[j];
      }
    }
    assert r.value == vs[i := CorrectRethrow];
  }

  /** The selection after the first `throw e;` at `i` became a correct rethrow. */
  lemma SelectionAfterFix(vs: seq<Verdict>, i: nat)
    requires SelectFinding(vs) == Some(Finding(RethrowSameException, AtStatement(i)))
    ensures i < |vs| && vs[i] == RethrowSame
    ensures CountRethrowSame(vs[i := CorrectRethrow]) == CountRethrowSame(vs) - 1
    ensures var f := SelectFinding(vs[i := CorrectRethrow]);
            && (f.Some? ==> f.value.kind != NoExceptionUsage)
            && (f.Some? && f.value.kind == RethrowSameException ==> f.value.anchor.index > i)
    ensures CountRethrowSame(vs) == 1 && RethrowWithoutInnerException !in vs ==>
              SelectFinding(vs[i := CorrectRethrow]).None?
  {
    var after := vs[i := CorrectRethrow];
    CountAfterReplacingOne(vs, i, CorrectRethrow);
    assert after[i] == CorrectRethrow;
    var f := SelectFinding(after);
    if f.Some? && f.value.kind == RethrowSameException {
      var j := f.value.anchor.index;
      assert j != i;
    }
    if CountRethrowSame(vs) == 1 && RethrowWithoutInnerException !in vs {
      assert RethrowSame !in after;
      assert RethrowWithoutInnerException !in after by {
        forall j | 0 <= j < |after| ensures after[j] != RethrowWithoutInnerException {
          if j != i { assert after[j] == vs[j]; }
        }
      }
    }
  }

  /** Applying the fix where the rethrow-same diagnostic points removes that
      `throw e;`: the catch clause still analyses without a fault, it is never
      reported as swallowing, one rethrow fewer remains, and a remaining
      rethrow-same diagnostic can only point at a later statement. With no
      other defective rethrow in the block the clause is clean. */
  lemma FixRemovesTheRethrow(c: CatchClause, i: nat)
    requires AnalyzeCatch(c) == Ok(Some(Finding(RethrowSameException, AtStatement(i))))
    ensures i < |c.block|
    ensures AnalyzeCatch(FixThrow(c, i)).Ok?
    ensures var vs := ClassifyBlock(CatchVariableName(c), c.block).value;
            var after := ClassifyBlock(CatchVariableName(c), FixThrow(c, i).block).value;
            CountRethrowSame(after) == CountRethrowSame(vs) - 1
    ensures var f := AnalyzeCatch(FixThrow(c, i)).value;
            && (f.Some? ==> f.value.kind != NoExceptionUsage)
            && (f.Some? && f.value.kind == RethrowSameException ==> f.value.anchor.index > i)
    ensures var vs := ClassifyBlock(CatchVariableName(c), c.block).value;
            CountRethrowSame(vs) == 1 && RethrowWithoutInnerException !in vs ==>
              AnalyzeCatch(FixThrow(c, i)) == Ok(None)
  {
    var name := CatchVariableName(c);
    var vs := ClassifyBlock(name, c.block).value;
    FixThrowClassification(c, i);
    SelectionAfterFix(vs, i);
  }

  /** Fixing the same statement twice is the same as fixing it once. */
  lemma FixThrowIdempotent(c: CatchClause, i: nat)
    requires i < |c.block|
    ensures FixThrow(FixThrow(c, i), i) == FixThrow(c, i)
  {
  }

  /** A rethrow-same diagnostic points at the `throw e;` statement its catch
      clause selected. */
  lemma ReportedRethrowSite(catches: seq<CatchClause>, d: Diagnostic)
    requires d in AnalyzeTry(catches) && d.kind == RethrowSameException
    ensures d.location.StatementIn? && d.location.catchIndex < |catches|
    ensures AnalyzeCatch(catches[d.location.catchIndex]) ==
              Ok(Some(Finding(RethrowSameException, AtStatement(d.location.statementIndex))))
  {
    var outs := CatchOutcomes(catches);
    var r := AnalyzeTry(catches);
    AnalyzeTryReportsExactlyTheFindingsBeforeAFault(catches);
    var n :| 0 <= n < |r| && r[n] == d;
    var k := CatchIndexOf(d);
    assert ReportedFor(outs, 0, k, d);
    var f := outs[k].value.value;
    assert f.kind == RethrowSameException && f.anchor.AtStatement?;
  }

  /** A catch clause whose finding lies elsewhere does not produce a given
      diagnostic. */
  lemma NotReportedAt(catches: seq<CatchClause>, k: nat, d: Diagnostic)
    requires d.location.StatementIn? && d.location.catchIndex == k && k < |catches|
    requires AnalyzeCatch(catches[k]).Ok?
    requires AnalyzeCatch(catches[k]).value.Some? ==> Locate(k, AnalyzeCatch(catches[k]).value.value) != d
    ensures d !in AnalyzeTry(catches)
  {
    AnalyzeTryReportsExactlyTheFindingsBeforeAFault(catches);
  }

  /** For every rethrow-same diagnostic of a try statement the fix applies,
      the diagnostic is gone from the report of the fixed try statement, and
      the fixed catch clause still analyses without a fault. */
  lemma FixTryRemovesItsDiagnostic(catches: seq<CatchClause>, d: Diagnostic)
    requires d in AnalyzeTry(catches) && d.kind == RethrowSameException
    ensures FixTry(catches, d.location).Some?
    ensures d !in AnalyzeTry(FixTry(catches, d.location).value)
    ensures AnalyzeCatch(FixTry(catches, d.location).value[d.location.catchIndex]).Ok?
  {
    ReportedRethrowSite(catches, d);
    var k := d.location.catchIndex;
    var i := d.location.statementIndex;
    var c := catches[k];
    FixRemovesTheRethrow(c, i);
    assert c.block[i] == Throw(Some(Identifier(CatchVariableName(c))));
    var fixed := FixTry(catches, d.location).value;
    assert fixed[k] == FixThrow(c, i);
    NotReportedAt(fixed, k, d);
  }
}
