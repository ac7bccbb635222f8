/** The diagnostics of the exception-handling rule family and the ordered
    per-statement result the classifier produces. */
module ExceptionDescriptors {

  /** The Roslyn severities these descriptors use. */
  datatype DiagnosticSeverity = Info | Warning

  /** The four diagnostics the exceptions analyzer can report. */
  datatype Kind =
    | NoExceptionUsage        // the caught exception is swallowed
    | RethrowSameException    // `throw e;` loses the call stack
    | RethrowWithoutInner     // a new exception is thrown without the caught one as inner
    | AnalyzerError           // the analyzer itself failed on this try statement

  datatype Descriptor = Descriptor(
    id: string,
    title: string,
    message: string,
    category: string,
    severity: DiagnosticSeverity,
    enabledByDefault: bool,
    description: string)

  const Title := "Exception analyzer"
  const Category := "Code correctness"

  function Id(k: Kind): string
  {
    match k
    case NoExceptionUsage => "CCN0021"
    case RethrowSameException => "CCN0022"
    case RethrowWithoutInner => "CCN0023"
    case AnalyzerError => "CCN0000"
  }

  function Message(k: Kind): string
  {
    match k
    case NoExceptionUsage => "Swallowing exceptions without handling considered as bad practice"
    case RethrowSameException => "Rethrow same exception leads to lost of call stack"
    case RethrowWithoutInner => "Throw new exception without inner exception leads to lost details"
    case AnalyzerError => "Exception analyzer internal error. Please contact author"
  }

  /** The descriptor registered for each kind. All share the title and the
      category, all are on by default, each describes itself with its own
      message, and only the internal-error descriptor is informational. */
  function DescriptorOf(k: Kind): (d: Descriptor)
    ensures d.id == Id(k) && d.message == Message(k)
    ensures d.description == d.message
    ensures d.enabledByDefault
    ensures d.title == Title && d.category == Category
    ensures d.severity == Info <==> k == AnalyzerError
  {
    var severity := if k == AnalyzerError then Info else Warning;
    Descriptor(Id(k), Title, Message(k), Category, severity, true, Message(k))
  }

  /** The supported diagnostics, in the order the analyzer declares them. */
  const SupportedDiagnostics: seq<Kind> :=
    [NoExceptionUsage, RethrowSameException, RethrowWithoutInner, AnalyzerError]

  /** The four ids are pairwise distinct, so an id names exactly one kind. */
  lemma IdsDistinct(a: Kind, b: Kind)
    ensures Id(a) == Id(b) <==> a == b
  {
  }

  /** Every kind the analyzer can report is declared as supported. */
  lemma SupportedCoversAllKinds(k: Kind)
    ensures k in SupportedDiagnostics
  {
  }

  /** Roslyn's StatementAnalysisResult. */
  datatype Verdict =
    | Undefined                      // a default sentinel, never produced by the classifier
    | RethrowSame                    // `throw e;`
    | RethrowWithoutInnerException   // `throw X;` where X does not mention e
    | NoUsage                        // the statement ignores e
    | Used                           // the statement mentions e
    | CorrectRethrow                 // `throw;` or `throw X;` where X mentions e

  /** The enum's numeric value: worst (defects) first, best last. */
  function Rank(v: Verdict): (n: nat)
    ensures n <= 5
    ensures n == 0 <==> v == Undefined
  {
    match v
    case Undefined => 0
    case RethrowSame => 1
    case RethrowWithoutInnerException => 2
    case NoUsage => 3
    case Used => 4
    case CorrectRethrow => 5
  }

  /** A result below NoUsage: one of the two defective rethrows. */
  predicate IsDefect(v: Verdict)
  {
    0 < Rank(v) < Rank(NoUsage)
  }

  /** A result above NoUsage: the exception was used or correctly rethrown. */
  predicate IsPositive(v: Verdict)
  {
    Rank(v) > Rank(NoUsage)
  }

  /** The numbering is a strict total order over the six values and it puts
      exactly the two rethrow defects below NoUsage and exactly Used and
      CorrectRethrow above it. */
  lemma RankIsStrictOrder(a: Verdict, b: Verdict)
    ensures Rank(a) == Rank(b) <==> a == b
    ensures Rank(RethrowSame) < Rank(RethrowWithoutInnerException) < Rank(NoUsage)
            < Rank(Used) < Rank(CorrectRethrow)
    ensures IsDefect(a) <==> a == RethrowSame || a == RethrowWithoutInnerException
    ensures IsPositive(a) <==> a == Used || a == CorrectRethrow
  {
  }
}
