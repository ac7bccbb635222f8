# CleanCode.NET analyzers in Dafny

A model of three Roslyn analyzers from CleanCode.NET and of their code fixes.
The model works on a small abstract C# syntax tree (`Syntax.Expr`, `Syntax.Stmt`).

- **Exception handling** (CCN0021, CCN0022, CCN0023, internal error CCN0000).
  - Each statement of a catch block is classified by how it treats the caught exception.
  - Each catch clause yields at most one diagnostic.
  - A fault while a try statement is analysed becomes one internal-error diagnostic, reported after the findings of the earlier catch clauses.
  - The settings gate turns the analyzer off when the configured severity is Ignore.
  - The code fix replaces `throw e;` with `throw;`.
- **Constructor null checks** (CCN0011, internal error CCN0010).
  - The reported names are the reference-type parameters, less those passed as identifiers to the `base`/`this` initializer, less those the body already checks.
  - Generic types are looked up by their metadata name `Name`arity`.
  - The code fix offers five variants: plain guards, guards in braces, the same two with coalesce rewriting where possible, and `Contract.Requires`. The coalesce variants are offered only from C# 7.
  - The fix adds the missing `using` and keeps the usings sorted.
- **Named arguments** (CCN0031).
  - A call or object creation with four or more arguments, some of them positional, is reported unless the callee has a `params` parameter.
  - The fix names the positional arguments by zipping them with the parameter names.
  - Both versions of the fix provider are modelled.

Faults the C# code would raise (a null dereference, an unknown statement kind, a duplicate dictionary key) are `Common.Result` values.
I/O, the semantic model and the editor are parameters: the symbol table, the resolved parameter list, the language version and the ancestor chain of a diagnostic's token.

Modules follow the source files:

| file | models |
|---|---|
| `common.dfy` | Result and Option types, `Except` with distinct results, the `", "` join |
| `syntax.dfy` | The syntax tree the rules inspect |
| `exception_descriptors.dfy` | `Descriptors.cs`, `StatementAnalysisResult.cs` |
| `exceptions_analyzer.dfy` | `ExceptionsAnalyzer.cs` |
| `exceptions_fix.dfy` | `ExceptionsAnalyzerCodeFixProvider.cs` |
| `constructor_null_analyzer.dfy` | `ConstructorNullAnalyzer.cs` |
| `string_order.dfy` | The ordering used to sort `using` directives |
| `constructor_null_fix.dfy` | `ConstructorNullAnalyzerCodeFixProvider.cs`: the guard and contract fixes as written, and the coalesce fixes as corrected |
| `constructor_null_fix_as_written.dfy` | The coalesce fixes and the whole fix as the source performs them, the inputs on which they go wrong, and the inputs on which they agree with the corrected ones |
| `named_parameters.dfy` | `NamedParametersAnalyzer.cs` |
| `named_parameters_fix.dfy` | Both `NamedParametersAnalyzerCodeFixProvider.cs` versions |

## Model

| member | source | states |
|---|---|---|
| ExceptionDescriptors.DescriptorOf | Exceptions/ExceptionsAnalyzer/Descriptors.cs:7-53 | Every descriptor shares the title "Exception analyzer" and the category "Code correctness". Each is enabled by default and its description equals its message. Only the internal-error descriptor has severity Info; the other three are Warning. |
| ExceptionDescriptors.IdsDistinct | Exceptions/ExceptionsAnalyzer/Descriptors.cs:11-44 | The four ids CCN0021, CCN0022, CCN0023 and CCN0000 are pairwise distinct. |
| ExceptionDescriptors.SupportedCoversAllKinds | Exceptions/ExceptionsAnalyzer/ExceptionsAnalyzer.cs:15-20 | Every diagnostic kind the analyzer can report is among its supported diagnostics. |
| ExceptionDescriptors.RankIsStrictOrder | Exceptions/ExceptionsAnalyzer/StatementAnalysisResult.cs:3-14 | The enum values are distinct. Same-exception rethrow ranks before rethrow-without-inner, which ranks before no-usage. The defects are exactly the two rethrow kinds. The positive results are exactly Used and CorrectRethrow. |
| ExceptionsAnalyzer.UsedIn | Exceptions/ExceptionsAnalyzer/ExceptionsAnalyzer.cs:125-143 | When the scan succeeds, its answer is true exactly when the variable is the identifier or occurs, recursively, as an argument of an invocation or object creation. The scan cannot fail when every reachable object creation has an argument list. Its only fault is a null reference. |
| ExceptionsAnalyzer.UsedInDeclarators | Exceptions/ExceptionsAnalyzer/ExceptionsAnalyzer.cs:93-98 | When it succeeds, the answer is true exactly when some initializer mentions the variable. A "no" answer implies every declarator has an initializer. With all initializers present and scannable it cannot fail. |
| ExceptionsAnalyzer.ClassifyStatement | Exceptions/ExceptionsAnalyzer/ExceptionsAnalyzer.cs:84-123 | Only expression statements, local declarations and throw statements are classified; any other kind raises "unknown statement". `throw;` is CorrectRethrow. The result is RethrowSame exactly when the statement is `throw <catch variable>;`. Another thrown expression is CorrectRethrow when it uses the variable and RethrowWithoutInner when it does not. |
| ExceptionsAnalyzer.ClassifyBlock | Exceptions/ExceptionsAnalyzer/ExceptionsAnalyzer.cs:58-63 | It fails exactly when some statement fails. Otherwise it yields one verdict per statement, in order. |
| ExceptionsAnalyzer.SelectFinding | Exceptions/ExceptionsAnalyzer/ExceptionsAnalyzer.cs:65-81 | CCN0021 is reported exactly when every statement is NoUsage; this includes an empty block. Otherwise CCN0022 is reported exactly when a RethrowSame statement exists, anchored at the first one. Otherwise CCN0023 is reported exactly when a RethrowWithoutInner statement exists. Otherwise nothing is reported. |
| ExceptionsAnalyzer.WorstDecidesFinding | Exceptions/ExceptionsAnalyzer/ExceptionsAnalyzer.cs:65-81 | The selection agrees with an independent rule: the lowest-ranked verdict of the block decides the diagnostic. |
| ExceptionsAnalyzer.AnalyzeCatch | Exceptions/ExceptionsAnalyzer/ExceptionsAnalyzer.cs:56-82 | A catch fails exactly when classifying one of its statements fails. Otherwise its finding is the selection over its verdicts, using the declared variable name or "" when there is none. |
| ExceptionsAnalyzer.ReportsOnlyFindingsBeforeAFault | Exceptions/ExceptionsAnalyzer/ExceptionsAnalyzer.cs:35-53 | Every diagnostic reported for a catch clause is that clause's finding, and no earlier clause faulted. |
| ExceptionsAnalyzer.ReportsEveryFindingBeforeAFault | Exceptions/ExceptionsAnalyzer/ExceptionsAnalyzer.cs:35-53 | Every finding of a clause that comes before the first fault is reported. |
| ExceptionsAnalyzer.ReportsInCatchOrder | Exceptions/ExceptionsAnalyzer/ExceptionsAnalyzer.cs:37-43 | Findings are reported in catch-clause order. |
| ExceptionsAnalyzer.AnalyzeTry | Exceptions/ExceptionsAnalyzer/ExceptionsAnalyzer.cs:31-54 | At most one diagnostic per catch plus one internal error. The internal error is last and located at the try statement. It appears exactly when some catch clause faults. |
| ExceptionsAnalyzer.AnalyzeTryReportsExactlyTheFindingsBeforeAFault | Exceptions/ExceptionsAnalyzer/ExceptionsAnalyzer.cs:31-54 | The diagnostics of a try statement, other than the internal error, are exactly the findings of the catch clauses before the first faulting one, in clause order. |
| ExceptionsAnalyzer.Analyze | Exceptions/ExceptionsAnalyzer/ExceptionsAnalyzer.cs:22-29 | Initialised settings with exceptions severity Ignore register nothing, so nothing is reported. With uninitialised settings, or a severity other than Ignore, the try statement is analysed. |
| ExceptionsFix.OnlyRethrowSameIsFixable | Exceptions/ExceptionsAnalyzer/ExceptionsAnalyzerCodeFixProvider.cs:20 | A diagnostic kind is fixable exactly when it is CCN0022. |
| ExceptionsFix.FixTarget | Exceptions/ExceptionsAnalyzer/ExceptionsAnalyzerCodeFixProvider.cs:29-34 | A fix target exists exactly when the diagnostic points at a throw statement inside a catch block. The target is the statement the diagnostic names. |
| ExceptionsFix.FixThrow | Exceptions/ExceptionsAnalyzer/ExceptionsAnalyzerCodeFixProvider.cs:44-50 | The targeted statement becomes `throw;`. Every other statement and the declaration are unchanged. |
| ExceptionsFix.SelectionAfterFix | Exceptions/ExceptionsAnalyzer/ExceptionsAnalyzer.cs:65-81 | Replacing one RethrowSame verdict by CorrectRethrow removes exactly one such verdict. When it was the only defect, the catch is no longer reported. |
| ExceptionsFix.FixRemovesTheRethrow | Exceptions/ExceptionsAnalyzer/ExceptionsAnalyzerCodeFixProvider.cs:44-50 | After the fix the catch still analyses without fault and has one fewer same-exception rethrow. When that was its only defect, nothing is reported for it. |
| ExceptionsFix.ReportedRethrowSite | Exceptions/ExceptionsAnalyzer/ExceptionsAnalyzer.cs:70-74 | A CCN0022 diagnostic of a try statement points at a statement of one of its catch clauses, and that clause's own analysis selected exactly that `throw e;`. |
| ExceptionsFix.FixTryRemovesItsDiagnostic | Exceptions/ExceptionsAnalyzer/ExceptionsAnalyzerCodeFixProvider.cs:29-50 | For every CCN0022 diagnostic the analyzer reports, the fix applies, and the fixed try statement no longer reports that diagnostic. |
| Common.ExceptDistinct | ConstructorNullAnalyzer/ConstructorNullAnalyzer/ConstructorNullAnalyzer.cs:71-77 | LINQ `Except`: the result holds the elements of the first list that are not excluded, without duplicates and in their first-occurrence order. |
| ConstructorNullAnalyzer.SymbolTable | ConstructorNullAnalyzer/ConstructorNullAnalyzer/ConstructorNullAnalyzer.cs:208-212 | The immutable dictionary of named types is built exactly when no metadata name is declared both as a reference type and as a value type; otherwise the result is a duplicate-key fault. A repeated key with the same value is accepted. The keys are exactly the declared names, and each maps to how one of its declarations is declared. |
| ConstructorNullAnalyzer.GenericMetadataName | ConstructorNullAnalyzer/ConstructorNullAnalyzer/ConstructorNullAnalyzer.cs:241-246 | The looked-up name is the identifier, a backtick, and then decimal digits that read back as the arity. |
| Common.NatToDecimal | ConstructorNullAnalyzer/ConstructorNullAnalyzer/ConstructorNullAnalyzer.cs:241-243 | The printed arity is a non-empty string of decimal digits without a leading zero, and it reads back as the number printed. Different arities therefore give different metadata names. |
| ConstructorNullAnalyzer.CheckNecessity | ConstructorNullAnalyzer/ConstructorNullAnalyzer/ConstructorNullAnalyzer.cs:222-275 | Predefined types need a check exactly for `object` and `string`. Identifier types need one exactly when the table knows them as reference types. Generic types are looked up under their metadata name. Nullable and other types never need a check. |
| ConstructorNullAnalyzer.GenericLookupIgnoresPlainEntry | ConstructorNullAnalyzer/ConstructorNullAnalyzer/ConstructorNullAnalyzer.cs:241-246 | A table that knows `Name` but not `Name`arity` exempts the generic parameter type and not the plain one. |
| ConstructorNullAnalyzer.ReferenceParameters | ConstructorNullAnalyzer/ConstructorNullAnalyzer/ConstructorNullAnalyzer.cs:204-220 | Exactly the parameters whose declared type needs a check, in declaration order. |
| ConstructorNullAnalyzer.BaseParameters | ConstructorNullAnalyzer/ConstructorNullAnalyzer/ConstructorNullAnalyzer.cs:96-108 | Exactly the names passed as bare identifiers to the constructor initializer. There are none without an initializer. |
| ConstructorNullAnalyzer.NullTestedNames | ConstructorNullAnalyzer/ConstructorNullAnalyzer/ConstructorNullAnalyzer.cs:177-202 | Exactly the identifiers compared with `null`, on either side, by the expected operator, directly or inside a binary expression whose two operands are both binary expressions (whatever its operator). |
| ConstructorNullAnalyzer.CoalescedName | ConstructorNullAnalyzer/ConstructorNullAnalyzer/ConstructorNullAnalyzer.cs:166-175 | Exactly the identifier on the left of a `??`, whatever its right side is; any other expression yields nothing. |
| ConstructorNullAnalyzer.CheckedInStatement | ConstructorNullAnalyzer/ConstructorNullAnalyzer/ConstructorNullAnalyzer.cs:117-164 | A statement checks a name exactly through one of four forms: an `if` whose condition null-tests it with `==`, a `Contract.Requires` argument that null-tests it with `!=`, an assignment whose right side is `p ?? ...`, or a declarator initialised with `p ?? ...`. An `if` with a non-binary condition raises a null reference. |
| ConstructorNullAnalyzer.CheckedIdentifiersMeaning | ConstructorNullAnalyzer/ConstructorNullAnalyzer/ConstructorNullAnalyzer.cs:110-115 | The body fails exactly when one of its statements faults. Otherwise a name counts as checked exactly when some statement checks it and the name is not empty. |
| ConstructorNullAnalyzer.CheckedIdentifiersFaults | ConstructorNullAnalyzer/ConstructorNullAnalyzer/ConstructorNullAnalyzer.cs:110-115 | Scanning a body fails exactly when one of its statements faults. |
| ConstructorNullAnalyzer.CheckedIdentifiersNames | ConstructorNullAnalyzer/ConstructorNullAnalyzer/ConstructorNullAnalyzer.cs:110-115 | When the scan succeeds, a name is in its result exactly when the name is not empty and some statement checks it. |
| ConstructorNullAnalyzer.CheckedIdentifiersAppend | ConstructorNullAnalyzer/ConstructorNullAnalyzer/ConstructorNullAnalyzer.cs:110-115 | The checked names of two concatenated statement lists are the union of those of each part. |
| ConstructorNullAnalyzer.ParameterIndices | ConstructorNullAnalyzer/ConstructorNullAnalyzer/ConstructorNullAnalyzer.cs:84-86 | The additional locations are exactly the parameters whose names are reported, in ascending order. |
| ConstructorNullAnalyzer.AnalyzeConstructor | ConstructorNullAnalyzer/ConstructorNullAnalyzer/ConstructorNullAnalyzer.cs:64-94 | The analysis fails exactly on conflicting symbols, a missing block body or a faulting statement. Otherwise there is a diagnostic exactly when some parameter needs a check, is not passed to the initializer and is not checked. The diagnostic lists exactly those names, without repetition, in declaration order, and joins them with ", " in its message. |
| ConstructorNullAnalyzer.AnalyzeConstructorSafely | ConstructorNullAnalyzer/ConstructorNullAnalyzer/ConstructorNullAnalyzer.cs:47-62 | The wrapper reports one CCN0010 exactly when the analysis faults. Otherwise it reports the analysis' diagnostic or nothing. |
| ConstructorNullFix.OfferedFixes | CleanCode.NET/ConstructorNullAnalyzer/ConstructorNullAnalyzer/ConstructorNullAnalyzerCodeFixProvider.cs:34-95 | Simple if, if with braces and contract are always offered. The two coalesce variants are offered exactly when the language version is known and at least C# 7. No variant appears twice. |
| ConstructorNullFix.RequiredUsing | CleanCode.NET/ConstructorNullAnalyzer/ConstructorNullAnalyzer/ConstructorNullAnalyzerCodeFixProvider.cs:121-132 | The contract fix needs `System.Diagnostics.Contracts`; every other fix needs `System`. |
| ConstructorNullFix.Guard | CleanCode.NET/ConstructorNullAnalyzer/ConstructorNullAnalyzer/ConstructorNullAnalyzerCodeFixProvider.cs:308-366 | The contract guard is `Contract.Requires(p != null)`. The other guards are `if (p == null)` followed by throwing `ArgumentNullException(nameof(p))`, braced for the block variants. |
| ConstructorNullFix.GuardsCheckTheirNames | CleanCode.NET/ConstructorNullAnalyzer/ConstructorNullAnalyzer/ConstructorNullAnalyzerCodeFixProvider.cs:195-210 | The guard statements for a list of names are recognised by the analyzer as checking exactly those names. |
| ConstructorNullFix.FirstSite | CleanCode.NET/ConstructorNullAnalyzer/ConstructorNullAnalyzer/ConstructorNullAnalyzerCodeFixProvider.cs:219-221 | The statement a parameter's coalesce rewrite targets is the first one where it is the initializer or the right side of an assignment. There is none exactly when no statement qualifies. |
| ConstructorNullFix.Rewrite | CleanCode.NET/ConstructorNullAnalyzer/ConstructorNullAnalyzer/ConstructorNullAnalyzerCodeFixProvider.cs:215-288 | Corrected: a declaration rewrite keeps the keywords, modifiers, type and declarator count, and coalesces a declarator that held exactly the parameter. An assignment rewrite keeps the operator and target and coalesces the parameter. |
| ConstructorNullFix.RewriteAddsCheck | CleanCode.NET/ConstructorNullAnalyzer/ConstructorNullAnalyzer/ConstructorNullAnalyzerCodeFixProvider.cs:215-306 | Corrected: the analyzer sees the corrected rewrite of a statement as checking the parameter in addition to what it checked before. |
| ConstructorNullFix.RewriteKeepsMeaning | CleanCode.NET/ConstructorNullAnalyzer/ConstructorNullAnalyzer/ConstructorNullAnalyzerCodeFixProvider.cs:228-245 | Corrected: the corrected rewrite only wraps the parameter's own initializer or right-hand side in `?? throw` and keeps the assignment operator. Removing that wrapper gives back the original statement. |
| ConstructorNullFix.RewriteAllChecks | CleanCode.NET/ConstructorNullAnalyzer/ConstructorNullAnalyzer/ConstructorNullAnalyzerCodeFixProvider.cs:166-181 | Corrected: rewriting every parameter's first site, each on the body as already rewritten, fails only if the body did. The result checks what the body checked plus every parameter it rewrote. |
| ConstructorNullFix.CoalesceBodyChecksAll | CleanCode.NET/ConstructorNullAnalyzer/ConstructorNullAnalyzer/ConstructorNullAnalyzerCodeFixProvider.cs:164-194 | Corrected: after the corrected coalesce fix every requested parameter is checked, by a rewrite where one applied and otherwise by a prepended guard. |
| ConstructorNullFix.CoalesceBodyKeepsMeaning | CleanCode.NET/ConstructorNullAnalyzer/ConstructorNullAnalyzer/ConstructorNullAnalyzerCodeFixProvider.cs:164-194 | Corrected: the corrected coalesce fix output is some guards followed by the original body, up to the added `?? throw` wrappers. |
| ConstructorNullFix.NewBodyStatements | CleanCode.NET/ConstructorNullAnalyzer/ConstructorNullAnalyzer/ConstructorNullAnalyzerCodeFixProvider.cs:157-213 | Without a block body the fix raises. The guard and contract fixes prepend one guard per name to the unchanged body, as the source does. Corrected: the coalesce fixes build the corrected coalesce body. |
| ConstructorNullFix.AddUsing | CleanCode.NET/ConstructorNullAnalyzer/ConstructorNullAnalyzer/ConstructorNullAnalyzerCodeFixProvider.cs:134-155 | A present namespace leaves the usings unchanged. An absent one is added, and the list is sorted and a permutation of the old list plus the new name. |
| ConstructorNullFix.AddUsingIdempotent | CleanCode.NET/ConstructorNullAnalyzer/ConstructorNullAnalyzer/ConstructorNullAnalyzerCodeFixProvider.cs:134-155 | Adding the same using twice is the same as adding it once. |
| ConstructorNullFix.AddUsingToSorted | CleanCode.NET/ConstructorNullAnalyzer/ConstructorNullAnalyzer/ConstructorNullAnalyzerCodeFixProvider.cs:134-155 | On an already sorted list, the new using is inserted in place and nothing else moves. |
| ConstructorNullFix.ApplyFix | CleanCode.NET/ConstructorNullAnalyzer/ConstructorNullAnalyzer/ConstructorNullAnalyzerCodeFixProvider.cs:103-119 | The fix fails exactly when the constructor has no block body. An empty new body leaves the document unchanged. Otherwise the body is replaced, the parameters and initializer are kept, and the required using is added if absent. Corrected: the coalesce fixes use the corrected coalesce body. |
| ConstructorNullFix.ReportedNamesReachTheFix | CleanCode.NET/ConstructorNullAnalyzer/ConstructorNullAnalyzer/ConstructorNullAnalyzerCodeFixProvider.cs:42-43 | Every additional location of a reported diagnostic is a parameter. Every reported name is among the names the fix reads back from them. |
| ConstructorNullFix.FixSilencesAnalyzer | CleanCode.NET/ConstructorNullAnalyzer/ConstructorNullAnalyzer/ConstructorNullAnalyzerCodeFixProvider.cs:103-213 | Corrected: applying any of the five corrected fixes to a reported constructor succeeds, and the analyzer then reports nothing for it. |
| ConstructorNullFix.FixKeepsTheBody | CleanCode.NET/ConstructorNullAnalyzer/ConstructorNullAnalyzer/ConstructorNullAnalyzerCodeFixProvider.cs:157-213 | The guard and contract fixes yield one guard per name followed by the original body. Corrected: the corrected coalesce fixes yield guards followed by the original body, up to the `?? throw` wrappers. |
| ConstructorNullFixAsWritten.DeclarationEntry | CleanCode.NET/ConstructorNullAnalyzer/ConstructorNullAnalyzer/ConstructorNullAnalyzerCodeFixProvider.cs:215-246 | A parameter gets a declaration entry exactly when some local declaration has a declarator initialised to it, and the entry targets the first such statement. The replacement keeps the type and the declarator count, and coalesces the first initialised declarator on the parameter. It has no `using`/`await` keyword and no modifier. |
| ConstructorNullFixAsWritten.AssignmentEntry | CleanCode.NET/ConstructorNullAnalyzer/ConstructorNullAnalyzer/ConstructorNullAnalyzerCodeFixProvider.cs:263-288 | A parameter gets an assignment entry exactly when some expression statement assigns it, and the entry targets the first such statement. The replacement is a simple `=` of the parameter coalesced, to the original target. |
| ConstructorNullFixAsWritten.FixEntries | CleanCode.NET/ConstructorNullAnalyzer/ConstructorNullAnalyzer/ConstructorNullAnalyzerCodeFixProvider.cs:166-172 | Every entry targets a statement of the body on behalf of a listed name. The entries are exactly the declaration and assignment entries of the listed names. |
| ConstructorNullFixAsWritten.CoalesceBodyAsWritten | CleanCode.NET/ConstructorNullAnalyzer/ConstructorNullAnalyzer/ConstructorNullAnalyzerCodeFixProvider.cs:162-193 | The new body is guards of listed names followed by the original statements. Each original statement is kept or replaced by the replacement of some entry for its index. |
| ConstructorNullFixAsWritten.UsingIsDropped | CleanCode.NET/ConstructorNullAnalyzer/ConstructorNullAnalyzer/ConstructorNullAnalyzerCodeFixProvider.cs:242-244 | On `using var r = p;` the source produces `var r = p ?? throw ...;`, which no longer disposes `r`. Read without the guard, it differs from the original. |
| ConstructorNullFixAsWritten.UsingIsKept | CleanCode.NET/ConstructorNullAnalyzer/ConstructorNullAnalyzer/ConstructorNullAnalyzerCodeFixProvider.cs:242-244 | The corrected rewrite of the same declaration keeps `using`: `using var r = p ?? throw ...;`. |
| ConstructorNullFixAsWritten.ApplyEntries | CleanCode.NET/ConstructorNullAnalyzer/ConstructorNullAnalyzer/ConstructorNullAnalyzerCodeFixProvider.cs:173-181 | The replacement loop keeps the body length and leaves every statement no entry targets unchanged. |
| ConstructorNullFixAsWritten.LastEntryWins | CleanCode.NET/ConstructorNullAnalyzer/ConstructorNullAnalyzer/ConstructorNullAnalyzerCodeFixProvider.cs:173-181 | When several entries target the same index, the statement there is the last entry's replacement. |
| ConstructorNullFixAsWritten.WrongDeclaratorIsCoalesced | CleanCode.NET/ConstructorNullAnalyzer/ConstructorNullAnalyzer/ConstructorNullAnalyzerCodeFixProvider.cs:228-241 | On `string a = "x", b = p;` the source rewrites `a`, giving `a = p ?? throw`, and leaves `b = p` unchecked. |
| ConstructorNullFixAsWritten.RightDeclaratorIsCoalesced | CleanCode.NET/ConstructorNullAnalyzer/ConstructorNullAnalyzer/ConstructorNullAnalyzerCodeFixProvider.cs:228-241 | The corrected rewrite of the same declaration wraps `b`'s initializer and leaves `a = "x"`. |
| ConstructorNullFixAsWritten.LaterRewriteOverwritesEarlier | CleanCode.NET/ConstructorNullAnalyzer/ConstructorNullAnalyzer/ConstructorNullAnalyzerCodeFixProvider.cs:168-181 | With `string a = p1, b = p2;`, each entry is built from the original statement, so the second overwrites the first and only `p2` is wrapped. |
| ConstructorNullFixAsWritten.TwoParametersReported | ConstructorNullAnalyzer/ConstructorNullAnalyzer/ConstructorNullAnalyzer.cs:64-94 | The unfixed two-parameter constructor is reported for `p1` and `p2`. |
| ConstructorNullFixAsWritten.OverwrittenRewriteLeavesAParameterUnchecked | CleanCode.NET/ConstructorNullAnalyzer/ConstructorNullAnalyzer/ConstructorNullAnalyzerCodeFixProvider.cs:184-193 | Both parameters count as processed, so no guard is added. The fixed constructor is still reported for `p1`. |
| ConstructorNullFixAsWritten.CompoundAssignmentBecomesSimple | CleanCode.NET/ConstructorNullAnalyzer/ConstructorNullAnalyzer/ConstructorNullAnalyzerCodeFixProvider.cs:283-286 | The source rewrites `f += p;` into `f = p ?? throw ...;`, which changes what the statement computes. |
| ConstructorNullFixAsWritten.CompoundAssignmentKept | CleanCode.NET/ConstructorNullAnalyzer/ConstructorNullAnalyzer/ConstructorNullAnalyzerCodeFixProvider.cs:283-286 | The corrected rewrite keeps the compound operator: `f += p ?? throw ...;`. |
| ConstructorNullFixAsWritten.ProcessedAreSited | CleanCode.NET/ConstructorNullAnalyzer/ConstructorNullAnalyzer/ConstructorNullAnalyzerCodeFixProvider.cs:182-187 | A parameter counts as processed exactly when it is listed and has a first declaration site or a first assignment site, whatever its rewrite did. |
| ConstructorNullFixAsWritten.AsWrittenGuardsTheUnsited | CleanCode.NET/ConstructorNullAnalyzer/ConstructorNullAnalyzer/ConstructorNullAnalyzerCodeFixProvider.cs:182-192 | The as-written coalesce body starts with one guard per listed parameter that has no site, in name order and without repetition, followed by the original body with the entries written in. |
| ConstructorNullFixAsWritten.RewriteAllAtOnce | CleanCode.NET/ConstructorNullAnalyzer/ConstructorNullAnalyzer/ConstructorNullAnalyzerCodeFixProvider.cs:166-181 | For distinct names with distinct first sites, the corrected one-after-the-other rewrite equals rewriting every first site of the original body at once. It rewrites exactly the listed names that have a site. |
| ConstructorNullFixAsWritten.CorrectedRewritesAtOnce | CleanCode.NET/ConstructorNullAnalyzer/ConstructorNullAnalyzer/ConstructorNullAnalyzerCodeFixProvider.cs:164-181 | The corrected declaration and assignment stages together rewrite every first site of either shape at once, and they rewrite exactly the names that have a site. |
| ConstructorNullFixAsWritten.AsWrittenRewritesAtOnce | CleanCode.NET/ConstructorNullAnalyzer/ConstructorNullAnalyzer/ConstructorNullAnalyzerCodeFixProvider.cs:168-181 | Suppose first sites are distinct statements. Suppose also that each first declaration site has no `using`/`await` keyword or modifier and its first initialised declarator holds its own parameter, and that each assignment site uses `=`. Then the entries built from the original body and written in by index rewrite every first site at once. |
| ConstructorNullFixAsWritten.AsWrittenAgreesWithCorrected | CleanCode.NET/ConstructorNullAnalyzer/ConstructorNullAnalyzer/ConstructorNullAnalyzerCodeFixProvider.cs:164-194 | On those inputs, and for distinct parameters, the coalesce body the source builds equals the corrected one. |
| ConstructorNullFixAsWritten.ApplyFixAsWritten | CleanCode.NET/ConstructorNullAnalyzer/ConstructorNullAnalyzer/ConstructorNullAnalyzerCodeFixProvider.cs:103-213 | The source's whole fix. It fails exactly without a block body and keeps the parameters and initializer. For the guard and contract fixes it is `ConstructorNullFix.ApplyFix`. The coalesce fixes replace the body with the as-written coalesce body, whose rebuilt declarations lose their `using`/`await` keywords and modifiers, and add the using. |
| ConstructorNullFixAsWritten.AsWrittenFixAgrees | CleanCode.NET/ConstructorNullAnalyzer/ConstructorNullAnalyzer/ConstructorNullAnalyzerCodeFixProvider.cs:103-213 | The source's fix always equals the corrected fix for the guard and contract variants. For the coalesce variants it equals it whenever none of the four defects can show; one defect is a rewritten declaration that carries `using`, `await` or a modifier. |
| ConstructorNullFixAsWritten.AsWrittenFixSilencesAnalyzer | CleanCode.NET/ConstructorNullAnalyzer/ConstructorNullAnalyzer/ConstructorNullAnalyzerCodeFixProvider.cs:103-213 | The source's fix silences the analyzer for every guard and contract variant. It does so for the coalesce variants when the parameters and their sites meet the agreement conditions. |
| NamedParameters.ArgumentsOf | NamedParametersAnalyzer/NamedParametersAnalyzer/NamedParametersAnalyzer.cs:90-98 | Only invocations and object creations written with an argument list have arguments. |
| NamedParameters.AnalyzeNode | NamedParametersAnalyzer/NamedParametersAnalyzer/NamedParametersAnalyzer.cs:67-88 | A node is reported exactly when it has at least four arguments, one of them positional, and the callee resolves to parameters with no `params` among them. A candidate whose callee does not resolve raises a null reference, because no fault wrapper is registered. A node that is not a candidate is never reported. |
| NamedParameters.OnePositionalOfFourIsReported | NamedParametersAnalyzer/NamedParametersAnalyzer/NamedParametersAnalyzer.cs:67-88 | One positional argument among four named-or-not arguments is enough to be reported, for calls and creations alike. |
| NamedParametersFix.NameArgument | NamedParametersAnalyzer/NamedParametersAnalyzer/NamedParametersAnalyzerCodeFixProvider.cs:115-121 | A named argument is kept as is. A positional one gets the parameter's name and keeps its expression. |
| NamedParametersFix.UpdatedArguments | NamedParametersAnalyzer/NamedParametersAnalyzer/NamedParametersAnalyzerCodeFixProvider.cs:105-113 | The zip yields min(arguments, parameters) arguments, all named, each with its original expression. Already-named arguments are untouched; the i-th positional one gets the i-th parameter name. |
| NamedParametersFix.UpdateIdempotent | NamedParametersAnalyzer/NamedParametersAnalyzer/NamedParametersAnalyzerCodeFixProvider.cs:105-121 | Applying the argument update twice equals applying it once. |
| NamedParametersFix.ZipOrderDoesNotMatter | CleanCode.NET/NamedParametersAnalyzer/NamedParametersAnalyzer/NamedParametersAnalyzerCodeFixProvider.cs:115-132 | The newer provider zips declaration parameters with arguments in the other order; its result equals the older provider's with the declared identifier texts as names. |
| NamedParametersFix.WithArguments | NamedParametersAnalyzer/NamedParametersAnalyzer/NamedParametersAnalyzerCodeFixProvider.cs:75-103 | The updated node is the same invocation, or creation of the same type, carrying exactly the new argument list. |
| NamedParametersFix.FixCall | NamedParametersAnalyzer/NamedParametersAnalyzer/NamedParametersAnalyzerCodeFixProvider.cs:75-103 | The fix fails exactly when the callee does not resolve. Otherwise the node's arguments are replaced by the zip with the resolved parameter names. |
| NamedParametersFix.FixCallFromDeclaration | CleanCode.NET/NamedParametersAnalyzer/NamedParametersAnalyzer/NamedParametersAnalyzerCodeFixProvider.cs:75-113 | The newer provider fails exactly when no declaration is found. Otherwise it zips with the declared parameter names. |
| NamedParametersFix.FixSilencesRule | NamedParametersAnalyzer/NamedParametersAnalyzer/NamedParametersAnalyzerCodeFixProvider.cs:75-121 | Fixing a reported call whose arguments do not outnumber the parameters succeeds. The rule no longer reports the fixed call, and every argument expression is kept in place. |
| NamedParametersFix.FirstOfKind | NamedParametersAnalyzer/NamedParametersAnalyzer/NamedParametersAnalyzerCodeFixProvider.cs:52-56 | The first ancestor of the wanted kind, or none exactly when no ancestor has that kind. |
| NamedParametersFix.FixerTargetAsWritten | NamedParametersAnalyzer/NamedParametersAnalyzer/NamedParametersAnalyzerCodeFixProvider.cs:50-73 | The target is the innermost invocation among the token's ancestors. Only when there is no invocation is it the innermost object creation, and there is none exactly when neither kind occurs. |
| NamedParametersFix.FixerTarget | NamedParametersAnalyzer/NamedParametersAnalyzer/NamedParametersAnalyzerCodeFixProvider.cs:50-73 | Corrected selection: the innermost call or creation whose span is the diagnostic's span. |
| NamedParametersFix.SelectionsAgree | NamedParametersAnalyzer/NamedParametersAnalyzer/NamedParametersAnalyzerCodeFixProvider.cs:50-73 | When the reported node is the innermost call or creation above the token, both selections pick it. |
| NamedParametersFix.ChainedCallFixesTheInnerCall | NamedParametersAnalyzer/NamedParametersAnalyzer/NamedParametersAnalyzerCodeFixProvider.cs:52-61 | For `b.Create().With(1, 2, 3, 4)` the source picks the inner `b.Create()`, while the reported node is the outer call. |
| NamedParametersFix.CreationInsideCallFixesTheCall | NamedParametersAnalyzer/NamedParametersAnalyzer/NamedParametersAnalyzerCodeFixProvider.cs:52-72 | For a reported `new T(1, 2, 3, 4)` nested inside an argument of `M(...)`, the source picks the call `M`, not the creation. |
| StringOrder.InsertSorted | CleanCode.NET/ConstructorNullAnalyzer/ConstructorNullAnalyzer/ConstructorNullAnalyzerCodeFixProvider.cs:146-147 | Inserting one name into an ordered list keeps it ordered; the insertion step of the sort. |
| StringOrder.SortStrings | CleanCode.NET/ConstructorNullAnalyzer/ConstructorNullAnalyzer/ConstructorNullAnalyzerCodeFixProvider.cs:146-147 | The sorted usings are ordered and are a permutation of the input. |
| StringOrder.SortSorted | CleanCode.NET/ConstructorNullAnalyzer/ConstructorNullAnalyzer/ConstructorNullAnalyzerCodeFixProvider.cs:146-147 | Sorting an already sorted list returns it unchanged. |

## Left out

- The exceptions analyzer behaves as follows in four places where a reader might expect otherwise:
  - nested `if`, block and `return` statements are not searched; they raise "unknown statement", which becomes CCN0000;
  - `e.Message` and other member accesses are not usages;
  - a catch without a variable is analysed like one whose variable is `""`;
  - the settings gate switches the whole analyzer off; it does not act per diagnostic kind.
- A unit test of the exceptions analyzer expects CCN0023 with severity Info, while the descriptor declares Warning. The model follows the descriptor.
- Identifier `Text` and `ValueText` are not distinguished: a verbatim identifier such as `@p` is modelled by its text.
- StringOrder.SortStrings, ConstructorNullFix.AddUsing: `using` directives are sorted by ordinal character order. The source's culture-aware comparer is a foreign call.
- The settings singleton is an explicit parameter. Its `Severity` enum is not part of this model; it is reduced to Ignore or not Ignore.
- The text of CCN0010, CCN0030 and CCN0000 messages embeds `Exception.ToString()`, which is not modelled.
- The named-parameters `SafeAnalyze` wrapper is never registered, so a fault in the rule is a fault of the host and is modelled as a failed result without a CCN0030 diagnostic.
- The semantic model, symbol lookup and the editor are inputs. `ParametersHelper.cs` is represented by the `resolved` parameter list; how it is computed is not part of this model.
- Roslyn trivia, formatting, locations as text spans and the batch "fix all" provider are not modelled.
- The language version is a number with `None` for an unknown version; the enum's special values are not modelled.
- The LINQ `Union` of the fix entries is modelled as concatenation. Union only drops an entry equal to an earlier one, and dropping it changes neither the rewritten statements nor the set of processed names.
- ConstructorNullFix.FixSilencesAnalyzer, ConstructorNullFixAsWritten.AsWrittenFixSilencesAnalyzer: assume that no reported parameter name is empty, because the analyzer's checked-name set drops empty strings.
- ConstructorNullFix.Rewrite: is the corrected rewrite of one statement. The source's is `ConstructorNullFixAsWritten.DeclarationEntry` and `ConstructorNullFixAsWritten.AssignmentEntry`, which pick the first initialised declarator, drop a declaration's keywords and modifiers, and always assign with `=`.
- ConstructorNullFix.RewriteAddsCheck: states the corrected rewrite, which coalesces the declarator that holds the parameter. The source coalesces the first initialised declarator; `ConstructorNullFixAsWritten.WrongDeclaratorIsCoalesced` shows the difference.
- ConstructorNullFix.RewriteKeepsMeaning: holds for the corrected rewrite only. The source's rewrite can change another declarator, drops `using`/`await` and modifiers (`ConstructorNullFixAsWritten.UsingIsDropped`), and turns `+=` into `=` (`ConstructorNullFixAsWritten.CompoundAssignmentBecomesSimple`).
- ConstructorNullFix.RewriteAllChecks: states the corrected sequential rewrite. The source builds every rewrite from the original statement, so a later one overwrites an earlier one (`ConstructorNullFixAsWritten.LaterRewriteOverwritesEarlier`).
- ConstructorNullFix.CoalesceBodyChecksAll: holds for the corrected coalesce body. The source's body agrees with it under `ConstructorNullFixAsWritten.RewritesAgree` (`ConstructorNullFixAsWritten.AsWrittenAgreesWithCorrected`) and not in general.
- ConstructorNullFix.CoalesceBodyKeepsMeaning: holds for the corrected coalesce body. The source's body agrees with it only under `ConstructorNullFixAsWritten.RewritesAgree`.
- ConstructorNullFix.NewBodyStatements: its coalesce branch is the corrected coalesce body. The source's branch is `ConstructorNullFixAsWritten.CoalesceBodyAsWritten`.
- ConstructorNullFix.ApplyFix: its coalesce variants use the corrected coalesce body. The source's fix is `ConstructorNullFixAsWritten.ApplyFixAsWritten`, which is equal to it for the guard and contract variants and, under `ConstructorNullFixAsWritten.RewritesAgree`, for the coalesce variants.
- ConstructorNullFix.FixSilencesAnalyzer: is about the corrected fix. The source's coalesce variants leave `p1` reported for `string a = p1, b = p2;` (`ConstructorNullFixAsWritten.OverwrittenRewriteLeavesAParameterUnchecked`). `ConstructorNullFixAsWritten.AsWrittenFixSilencesAnalyzer` states what holds of the source's fix.
- ConstructorNullFix.FixKeepsTheBody: its coalesce half is about the corrected coalesce body. The source's rewrite can change a declarator that does not hold the parameter, can drop a declaration's keywords and modifiers, and can change an operator.
- ConstructorNullFixAsWritten.AsWrittenAgreesWithCorrected: also requires the parameter names to be distinct, as parameter names of compilable code are. With a repeated name the corrected rewrite would look for a second site.
- NamedParametersFix.FixSilencesRule: requires the arguments not to outnumber the parameters, because the zip drops the extra arguments and the source promises nothing about them.
- ControllerAnalyzer, SwitchAnalyzer, OptionPageGrid and the VSIX packaging are not part of this model.

## Findings

| source | as written | input that shows it | evidently intended | confidence | as-written member | corrected member |
|---|---|---|---|---|---|---|
| CleanCode.NET/ConstructorNullAnalyzer/ConstructorNullAnalyzer/ConstructorNullAnalyzerCodeFixProvider.cs:232-241 | The coalesce fix rewrites the first declarator that has an initializer. | `string a = "x", b = p;` becomes `string a = p ?? throw ..., b = p;` | Rewrite the declarator whose initializer is `p`. | not executed | ConstructorNullFixAsWritten.WrongDeclaratorIsCoalesced | ConstructorNullFixAsWritten.RightDeclaratorIsCoalesced |
| CleanCode.NET/ConstructorNullAnalyzer/ConstructorNullAnalyzer/ConstructorNullAnalyzerCodeFixProvider.cs:168-193 | Each rewrite is built from the original statement and later ones overwrite earlier ones, yet all parameters count as processed. | `string a = p1, b = p2;` ends with only `p2` checked, and the analyzer still reports `p1`. | Apply rewrites to the already updated statement, so every parameter ends up checked. | not executed | ConstructorNullFixAsWritten.OverwrittenRewriteLeavesAParameterUnchecked | ConstructorNullFix.FixSilencesAnalyzer |
| CleanCode.NET/ConstructorNullAnalyzer/ConstructorNullAnalyzer/ConstructorNullAnalyzerCodeFixProvider.cs:242-244 | The declaration rewrite rebuilds the statement from its type and declarators only, dropping `using`, `await` and modifiers. | `using var r = p;` becomes `var r = p ?? throw ...;`, so `r` is no longer disposed. | Rebuild the statement with the original statement's keywords and modifiers. | not executed | ConstructorNullFixAsWritten.UsingIsDropped | ConstructorNullFixAsWritten.UsingIsKept |
| CleanCode.NET/ConstructorNullAnalyzer/ConstructorNullAnalyzer/ConstructorNullAnalyzerCodeFixProvider.cs:283-286 | The assignment rewrite always emits a simple assignment. | `f += p;` becomes `f = p ?? throw ...;` | Keep the original assignment operator. | not executed | ConstructorNullFixAsWritten.CompoundAssignmentBecomesSimple | ConstructorNullFixAsWritten.CompoundAssignmentKept |
| NamedParametersAnalyzer/NamedParametersAnalyzer/NamedParametersAnalyzerCodeFixProvider.cs:52-72 | The fixer picks the innermost invocation among the token's ancestors, and only then an object creation. | `b.Create().With(1, 2, 3, 4)` fixes `b.Create()`. A reported `new T(1, 2, 3, 4)` inside `M(...)` fixes `M`. | Fix the node the diagnostic was reported on. | not executed | NamedParametersFix.FixerTargetAsWritten | NamedParametersFix.FixerTarget |
