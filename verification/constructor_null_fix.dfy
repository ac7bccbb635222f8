/** The code fixes for the constructor null diagnostic. Every fix puts a guard
    in front of the body for each reported parameter: an `if (p == null)
    throw ...` (with or without braces) or a `Contract.Requires(p != null)`.
    The coalesce variants first turn `var s = p;` and `f = p;` into
    `p ?? throw ...` forms in place and guard only the parameters that had no
    such statement. The namespace of the generated code is imported if
    missing, and the `using` list is then reordered by name. */
module ConstructorNullFix {
  import opened Common
  import opened Syntax
  import opened ConstructorNullAnalyzer
  import opened StringOrder

  datatype FixType = SimpleIf | IfWithBlock | SimpleIfPlusCoalesce | IfWithBlockPlusCoalesce | ContractRequires

  function Title(ft: FixType): string
  {
    match ft
    case SimpleIf => "Add null reference check"
    case IfWithBlock => "Add null reference check (with braces)"
    case SimpleIfPlusCoalesce => "Add null reference check with coalesce where possible"
    case IfWithBlockPlusCoalesce => "Add null reference check (with braces) and coalesce where possible"
    case ContractRequires => "Add contract check"
  }

  /** Numeric value of the C# 7 language version. */
  const CSharp7: nat := 7

  /** `languageVersion` is None when the project's parse options are not C#
      parse options. Throw expressions need C# 7. */
  predicate CoalesceSupported(languageVersion: Option<nat>)
  {
    languageVersion.Some? && languageVersion.value >= CSharp7
  }

  predicate UsesCoalesce(ft: FixType)
  {
    ft == SimpleIfPlusCoalesce || ft == IfWithBlockPlusCoalesce
  }

  /** The fixes offered for a diagnostic, in registration order. */
  function OfferedFixes(languageVersion: Option<nat>): (r: seq<FixType>)
    ensures SimpleIf in r && IfWithBlock in r && ContractRequires in r
    ensures SimpleIfPlusCoalesce in r <==> CoalesceSupported(languageVersion)
    ensures IfWithBlockPlusCoalesce in r <==> CoalesceSupported(languageVersion)
    ensures NoDuplicates(r)
    ensures |r| > 0 && r[0] == SimpleIf && r[|r| - 1] == ContractRequires
  {
    if CoalesceSupported(languageVersion) then
      [SimpleIf, IfWithBlock, SimpleIfPlusCoalesce, IfWithBlockPlusCoalesce, ContractRequires]
    else
      [SimpleIf, IfWithBlock, ContractRequires]
  }

  /** The namespace the generated code needs. */
  function RequiredUsing(ft: FixType): (r: string)
    ensures r == "System.Diagnostics.Contracts" <==> ft == ContractRequires
    ensures r == "System" <==> ft != ContractRequires
  {
    if ft == ContractRequires then "System.Diagnostics.Contracts" else "System"
  }

  // ---------------------------------------------------------------------
  // Generated statements
  // ---------------------------------------------------------------------

  /** `throw new ArgumentNullException(nameof(p))` as a statement. */
  function ThrowArgumentNull(p: string): Stmt
  {
    Throw(Some(ArgumentNullException(p)))
  }

  /** The guard statement for one parameter. */
  function Guard(p: string, ft: FixType): (r: Stmt)
    ensures ft == ContractRequires ==>
              r == ExpressionStmt(Invocation(MemberAccess(Identifier("Contract"), "Requires"),
                                             [Argument(None, Binary(NotEquals, Identifier(p), NullLiteral))]))
    ensures ft != ContractRequires ==> r.If? && r.cond == Binary(EqualsEquals, Identifier(p), NullLiteral) && r.elseBranch.None?
    ensures (ft == IfWithBlock || ft == IfWithBlockPlusCoalesce) ==> r.thenBranch == Block([ThrowArgumentNull(p)])
    ensures (ft == SimpleIf || ft == SimpleIfPlusCoalesce) ==> r.thenBranch == ThrowArgumentNull(p)
  {
    match ft
    case ContractRequires =>
      ExpressionStmt(Invocation(MemberAccess(Identifier("Contract"), "Requires"),
                                [Argument(None, Binary(NotEquals, Identifier(p), NullLiteral))]))
    case SimpleIf => If(Binary(EqualsEquals, Identifier(p), NullLiteral), ThrowArgumentNull(p), None)
    case SimpleIfPlusCoalesce => If(Binary(EqualsEquals, Identifier(p), NullLiteral), ThrowArgumentNull(p), None)
    case IfWithBlock => If(Binary(EqualsEquals, Identifier(p), NullLiteral), Block([ThrowArgumentNull(p)]), None)
    case IfWithBlockPlusCoalesce => If(Binary(EqualsEquals, Identifier(p), NullLiteral), Block([ThrowArgumentNull(p)]), None)
  }

  /** One guard per name, in order. */
  function Guards(names: seq<string>, ft: FixType): (r: seq<Stmt>)
    ensures |r| == |names| && forall i :: 0 <= i < |names| ==> r[i] == Guard(names[i], ft)
  {
    seq(|names|, i requires 0 <= i < |names| => Guard(names[i], ft))
  }

  /** Every guard is recognised by the analyzer as a check of its parameter,
      and of nothing else. */
  lemma GuardIsACheck(p: string, ft: FixType)
    ensures CheckedInStatement(Guard(p, ft)) == Ok({p})
  {
    var g := Guard(p, ft);
    if ft == ContractRequires {
      var args := [Argument(None, Binary(NotEquals, Identifier(p), NullLiteral))];
      assert args[..0] == [];
      assert RequiredNonNull(args) == {p};
    } else {
      assert NullTestedNames(g.cond, EqualsEquals) == {p};
    }
  }

  /** The guards check exactly their (non-empty) names and never fault. */
  lemma {:induction false} GuardsCheckTheirNames(names: seq<string>, ft: FixType)
    ensures CheckedIdentifiers(Guards(names, ft)) == Ok(set p | p in names && p != "")
    decreases |names|
  {
    if |names| == 0 {
      assert Guards(names, ft) == [];
      assert (set p | p in names && p != "") == {};
    } else {
      var init := names[..|names| - 1];
      var last := names[|names| - 1];
      var g := Guards(names, ft);
      GuardsCheckTheirNames(init, ft);
      assert g[..|g| - 1] == Guards(init, ft);
      assert g[|g| - 1] == Guard(last, ft);
      GuardIsACheck(last, ft);
      assert names == init + [last];
      NonEmptyNamesAppend(init, last);
    }
  }

  lemma NonEmptyNamesAppend(init: seq<string>, last: string)
    ensures (set p | p in init + [last] && p != "") == (set p | p in init && p != "") + ({last} - {""})
  {
  }

  /** `p ?? throw new ArgumentNullException(nameof(p))` */
  function CoalesceGuarded(p: string): Expr
  {
    Binary(Coalesce, Identifier(p), ThrowExpression(ArgumentNullException(p)))
  }

  // ---------------------------------------------------------------------
  // Coalesce rewrites
  // ---------------------------------------------------------------------

  /** The two statement shapes a coalesce rewrite applies to. */
  datatype Site = DeclarationSite | AssignmentSite

  /** `s` is a local declaration with a declarator initialised to exactly `p`,
      or an expression statement assigning exactly `p`. */
  predicate Rewritable(s: Stmt, p: string, site: Site)
  {
    match site
    case DeclarationSite =>
      s.LocalDecl? && exists j :: 0 <= j < |s.declarators| && s.declarators[j].init == Some(Identifier(p))
    case AssignmentSite =>
      s.ExpressionStmt? && s.expr.Assignment? && s.expr.value == Identifier(p)
  }

  /** Index of the first statement of the given shape for `p`. */
  function FirstSite(body: seq<Stmt>, p: string, site: Site): (r: Option<nat>)
    ensures r.None? <==> forall k :: 0 <= k < |body| ==> !Rewritable(body[k], p, site)
    ensures r.Some? ==> r.value < |body| && Rewritable(body[r.value], p, site)
    ensures r.Some? ==> forall k :: 0 <= k < r.value ==> !Rewritable(body[k], p, site)
  {
    if |body| == 0 then None
    else if Rewritable(body[0], p, site) then Some(0)
    else
      match FirstSite(body[1..], p, site)
      case None => None
      case Some(k) => Some(k + 1)
  }

  /** Index of the first declarator satisfying the filter: initialised at
      all (`onlyFrom` None) or initialised to exactly the given parameter. */
  function FirstDeclarator(ds: seq<Declarator>, onlyFrom: Option<string>): (j: nat)
    requires exists j :: 0 <= j < |ds| && ds[j].init.Some? && (onlyFrom.Some? ==> ds[j].init == Some(Identifier(onlyFrom.value)))
    ensures j < |ds| && ds[j].init.Some?
    ensures onlyFrom.Some? ==> ds[j].init == Some(Identifier(onlyFrom.value))
    ensures forall k :: 0 <= k < j ==> !(ds[k].init.Some? && (onlyFrom.Some? ==> ds[k].init == Some(Identifier(onlyFrom.value))))
  {
    if ds[0].init.Some? && (onlyFrom.Some? ==> ds[0].init == Some(Identifier(onlyFrom.value))) then 0
    else
      assert forall j :: 1 <= j < |ds| ==> ds[1..][j - 1] == ds[j];
      FirstDeclarator(ds[1..], onlyFrom) + 1
  }

  /** The coalesce rewrite of one statement, as intended: the declarator that
      holds `p` gets `p ?? throw ...`, and an assignment keeps its operator. */
  function Rewrite(s: Stmt, p: string, site: Site): (r: Stmt)
    requires Rewritable(s, p, site)
    ensures site == AssignmentSite ==>
              r == ExpressionStmt(Assignment(s.expr.assignOp, s.expr.target, CoalesceGuarded(p)))
    ensures site == DeclarationSite ==>
              r.LocalDecl? && r.keywords == s.keywords && r.typeText == s.typeText && |r.declarators| == |s.declarators|
              && exists j :: 0 <= j < |s.declarators| && s.declarators[j].init == Some(Identifier(p))
                             && r.declarators == s.declarators[j := Declarator(s.declarators[j].name, Some(CoalesceGuarded(p)))]
  {
    match site
    case DeclarationSite =>
      var j := FirstDeclarator(s.declarators, Some(p));
      LocalDecl(s.keywords, s.typeText, s.declarators[j := Declarator(s.declarators[j].name, Some(CoalesceGuarded(p)))])
    case AssignmentSite =>
      ExpressionStmt(Assignment(s.expr.assignOp, s.expr.target, CoalesceGuarded(p)))
  }

  /** Coalescing the initializer of declarator `j`, which was exactly `p`,
      adds `p` to the declarators' coalesced names and keeps the others. */
  lemma CoalescedAfterRewrite(ds: seq<Declarator>, j: nat, p: string)
    requires j < |ds| && ds[j].init == Some(Identifier(p))
    ensures CoalescedInDeclarators(ds[j := Declarator(ds[j].name, Some(CoalesceGuarded(p)))]) ==
              CoalescedInDeclarators(ds) + {p}
  {
    var ds' := ds[j := Declarator(ds[j].name, Some(CoalesceGuarded(p)))];
    var before := CoalescedInDeclarators(ds);
    var after := CoalescedInDeclarators(ds');
    forall x ensures x in after <==> x in before || x == p {
      if x in before {
        var i :| 0 <= i < |ds| && ds[i].init.Some? && IsCoalesceOf(ds[i].init.value, x);
        assert ds'[i] == ds[i];
      }
      if x in after {
        var i :| 0 <= i < |ds'| && ds'[i].init.Some? && IsCoalesceOf(ds'[i].init.value, x);
        if i != j {
          assert ds'[i] == ds[i];
        }
      }
      if x == p {
        assert ds'[j].init == Some(CoalesceGuarded(p));
      }
    }
  }

  /** The rewrite adds `p` to what the statement checks and keeps the rest. */
  lemma RewriteAddsCheck(s: Stmt, p: string, site: Site)
    requires Rewritable(s, p, site)
    ensures !FaultsInStatement(Rewrite(s, p, site)) && !FaultsInStatement(s)
    ensures CheckedInStatement(Rewrite(s, p, site)) == Ok(CheckedInStatement(s).value + {p})
  {
    if site == DeclarationSite {
      var j := FirstDeclarator(s.declarators, Some(p));
      CoalescedAfterRewrite(s.declarators, j, p);
    } else {
      assert CoalescedName(s.expr.value) == {};
      assert CoalescedName(CoalesceGuarded(p)) == {p};
    }
  }

  /** The checks of a one-statement body. */
  lemma CheckedSingleton(s: Stmt)
    ensures CheckedIdentifiers([s]).Failed? <==> FaultsInStatement(s)
    ensures !FaultsInStatement(s) ==> CheckedIdentifiers([s]) == Ok(CheckedInStatement(s).value - {""})
  {
    assert [s][..|[s]| - 1] == [];
    if !FaultsInStatement(s) {
      var b := CheckedInStatement(s).value;
      assert {} + (b - {""}) == b - {""};
    }
  }

  /** The checks of a body split around statement `x`. */
  lemma CheckedAround(front: seq<Stmt>, x: Stmt, back: seq<Stmt>)
    requires !FaultsInStatement(x)
    ensures CheckedIdentifiers(front + [x] + back).Failed? <==>
              CheckedIdentifiers(front).Failed? || CheckedIdentifiers(back).Failed?
    ensures CheckedIdentifiers(front + [x] + back).Ok? ==>
              CheckedIdentifiers(front + [x] + back).value ==
                CheckedIdentifiers(front).value + (CheckedInStatement(x).value - {""}) + CheckedIdentifiers(back).value
  {
    CheckedSingleton(x);
    CheckedIdentifiersAppend(front, [x]);
    CheckedIdentifiersAppend(front + [x], back);
  }

  /** Replacing statement `k` by one that checks what it checked plus `extra`
      adds exactly `extra` (minus the empty name) to the body's checks. */
  lemma CheckedAfterReplace(body: seq<Stmt>, k: nat, s: Stmt, extra: set<string>)
    requires k < |body|
    requires !FaultsInStatement(body[k]) && !FaultsInStatement(s)
    requires CheckedInStatement(s) == Ok(CheckedInStatement(body[k]).value + extra)
    ensures CheckedIdentifiers(body[k := s]).Failed? <==> CheckedIdentifiers(body).Failed?
    ensures CheckedIdentifiers(body).Ok? ==>
              CheckedIdentifiers(body[k := s]) == Ok(CheckedIdentifiers(body).value + (extra - {""}))
  {
    var front := body[..k];
    var back := body[k + 1..];
    SplitAt(body, k, s);
    CheckedAround(front, body[k], back);
    CheckedAround(front, s, back);
    if CheckedIdentifiers(body).Ok? {
      var f := CheckedIdentifiers(front).value;
      var b := CheckedIdentifiers(back).value;
      var x := CheckedInStatement(body[k]).value;
      assert CheckedIdentifiers(body).value == f + (x - {""}) + b;
      assert CheckedIdentifiers(body[k := s]).value == f + ((x + extra) - {""}) + b;
      UnionWithoutEmpty(f, x, b, extra);
    }
  }

  lemma SplitAt(body: seq<Stmt>, k: nat, s: Stmt)
    requires k < |body|
    ensures body == body[..k] + [body[k]] + body[k + 1..]
    ensures body[k := s] == body[..k] + [s] + body[k + 1..]
  {
  }

  lemma UnionWithoutEmpty(f: set<string>, x: set<string>, b: set<string>, extra: set<string>)
    ensures f + ((x + extra) - {""}) + b == f + (x - {""}) + b + (extra - {""})
  {
  }

  /** What a statement means once every `x ?? throw new
      ArgumentNullException(nameof(x))` guard in it is read as plain `x`. */
  function Unguard(e: Expr): (r: Expr)
    ensures r == e || (r.Identifier? && e == CoalesceGuarded(r.name))
  {
    if e.Binary? && e.op == Coalesce && e.left.Identifier? && e == CoalesceGuarded(e.left.name) then e.left else e
  }

  function UnguardDeclarator(d: Declarator): Declarator
  {
    Declarator(d.name, if d.init.Some? then Some(Unguard(d.init.value)) else None)
  }

  function UnguardStmt(s: Stmt): (r: Stmt)
    ensures s.LocalDecl? ==> r.LocalDecl? && r.keywords == s.keywords && r.typeText == s.typeText && |r.declarators| == |s.declarators|
  {
    match s
    case LocalDecl(kw, t, ds) => LocalDecl(kw, t, seq(|ds|, i requires 0 <= i < |ds| => UnguardDeclarator(ds[i])))
    case ExpressionStmt(e) =>
      if e.Assignment? then ExpressionStmt(Assignment(e.assignOp, e.target, Unguard(e.value))) else s
    case _ => s
  }

  function UnguardBody(body: seq<Stmt>): (r: seq<Stmt>)
    ensures |r| == |body| && forall i :: 0 <= i < |body| ==> r[i] == UnguardStmt(body[i])
  {
    seq(|body|, i requires 0 <= i < |body| => UnguardStmt(body[i]))
  }

  /** The rewrite only adds the null check: read without guards, the
      statement is unchanged. */
  lemma RewriteKeepsMeaning(s: Stmt, p: string, site: Site)
    requires Rewritable(s, p, site)
    ensures UnguardStmt(Rewrite(s, p, site)) == UnguardStmt(s)
  {
    var r := Rewrite(s, p, site);
    if site == DeclarationSite {
      var j :| 0 <= j < |s.declarators| && s.declarators[j].init == Some(Identifier(p))
               && r.declarators == s.declarators[j := Declarator(s.declarators[j].name, Some(CoalesceGuarded(p)))];
      assert UnguardDeclarator(r.declarators[j]) == UnguardDeclarator(s.declarators[j]);
      assert UnguardStmt(r).declarators == UnguardStmt(s).declarators;
    }
  }

  /** The rewrite of the first statement of the given shape for `p`, if
      there is one; the flag says whether there was. */
  function RewriteFirst(body: seq<Stmt>, p: string, site: Site): (r: (seq<Stmt>, bool))
    ensures |r.0| == |body|
    ensures r.1 <==> exists k :: 0 <= k < |body| && Rewritable(body[k], p, site)
    ensures !r.1 ==> r.0 == body
  {
    match FirstSite(body, p, site)
    case None => (body, false)
    case Some(k) => (body[k := Rewrite(body[k], p, site)], true)
  }

  /** One rewrite step keeps the meaning of the body. */
  lemma RewriteFirstKeepsMeaning(body: seq<Stmt>, p: string, site: Site)
    ensures UnguardBody(RewriteFirst(body, p, site).0) == UnguardBody(body)
  {
    match FirstSite(body, p, site)
    case None =>
    case Some(k) =>
      RewriteKeepsMeaning(body[k], p, site);
      var b := body[k := Rewrite(body[k], p, site)];
      assert forall i :: 0 <= i < |body| ==> UnguardBody(b)[i] == UnguardBody(body)[i];
  }

  /** One rewrite step adds exactly `p` to the body's checks when it applies,
      and neither introduces nor removes a fault. */
  lemma RewriteFirstChecks(body: seq<Stmt>, p: string, site: Site)
    ensures CheckedIdentifiers(RewriteFirst(body, p, site).0).Failed? <==> CheckedIdentifiers(body).Failed?
    ensures CheckedIdentifiers(body).Ok? ==>
              CheckedIdentifiers(RewriteFirst(body, p, site).0) ==
                Ok(CheckedIdentifiers(body).value + (if RewriteFirst(body, p, site).1 then {p} - {""} else {}))
  {
    match FirstSite(body, p, site)
    case None =>
      assert CheckedIdentifiers(body).Ok? ==> CheckedIdentifiers(body).value + {} == CheckedIdentifiers(body).value;
    case Some(k) =>
      RewriteAddsCheck(body[k], p, site);
      CheckedAfterReplace(body, k, Rewrite(body[k], p, site), {p});
  }

  /** The coalesce rewrites of one shape, one parameter after the other, each
      applied to the body as rewritten so far; also returns the parameters
      that got a rewrite. */
  function RewriteAll(body: seq<Stmt>, names: seq<string>, site: Site): (r: (seq<Stmt>, set<string>))
    ensures |r.0| == |body|
    ensures forall p :: p in r.1 ==> p in names
    decreases |names|
  {
    if |names| == 0 then (body, {})
    else
      var (b, done) := RewriteAll(body, names[..|names| - 1], site);
      var p := names[|names| - 1];
      var (b', rewritten) := RewriteFirst(b, p, site);
      (b', if rewritten then done + {p} else done)
  }

  /** Read without guards, the rewritten body is the original one. */
  lemma {:induction false} RewriteAllKeepsMeaning(body: seq<Stmt>, names: seq<string>, site: Site)
    ensures UnguardBody(RewriteAll(body, names, site).0) == UnguardBody(body)
    decreases |names|
  {
    if |names| > 0 {
      var init := names[..|names| - 1];
      RewriteAllKeepsMeaning(body, init, site);
      RewriteFirstKeepsMeaning(RewriteAll(body, init, site).0, names[|names| - 1], site);
    }
  }

  /** The rewritten body checks what the original did plus every parameter
      that got a rewrite, and faults exactly when the original does. */
  lemma {:induction false} RewriteAllChecks(body: seq<Stmt>, names: seq<string>, site: Site)
    ensures CheckedIdentifiers(RewriteAll(body, names, site).0).Failed? <==> CheckedIdentifiers(body).Failed?
    ensures CheckedIdentifiers(body).Ok? ==>
              CheckedIdentifiers(RewriteAll(body, names, site).0) ==
                Ok(CheckedIdentifiers(body).value + (RewriteAll(body, names, site).1 - {""}))
    decreases |names|
  {
    if |names| == 0 {
      assert CheckedIdentifiers(body).Ok? ==>
        CheckedIdentifiers(body).value + ({} - {""}) == CheckedIdentifiers(body).value;
    } else {
      var init := names[..|names| - 1];
      var p := names[|names| - 1];
      RewriteAllChecks(body, init, site);
      var (b, done) := RewriteAll(body, init, site);
      RewriteFirstChecks(b, p, site);
      if CheckedIdentifiers(body).Ok? {
        var old0 := CheckedIdentifiers(body).value;
        AddRewritten(old0, done, p);
      }
    }
  }

  lemma AddRewritten(old0: set<string>, done: set<string>, p: string)
    ensures old0 + (done - {""}) + ({p} - {""}) == old0 + ((done + {p}) - {""})
  {
  }

  /** New body of the coalesce fixes: declarations first, then assignments,
      then a guard in front for every parameter without a rewrite. */
  function CoalesceBody(body: seq<Stmt>, names: seq<string>, ft: FixType): (r: seq<Stmt>)
  {
    var (afterDeclarations, declared) := RewriteAll(body, names, DeclarationSite);
    var (afterAssignments, assignedNames) := RewriteAll(afterDeclarations, names, AssignmentSite);
    Guards(ExceptDistinct(names, declared + assignedNames), ft) + afterAssignments
  }

  /** The coalesce body ends with the original statements, unchanged once
      the added null checks are read away. */
  lemma CoalesceBodyKeepsMeaning(body: seq<Stmt>, names: seq<string>, ft: FixType)
    ensures var r := CoalesceBody(body, names, ft);
            && |r| >= |body|
            && UnguardBody(r[|r| - |body|..]) == UnguardBody(body)
  {
    var (b1, d1) := RewriteAll(body, names, DeclarationSite);
    var (b2, d2) := RewriteAll(b1, names, AssignmentSite);
    RewriteAllKeepsMeaning(body, names, DeclarationSite);
    RewriteAllKeepsMeaning(b1, names, AssignmentSite);
    var r := Guards(ExceptDistinct(names, d1 + d2), ft) + b2;
    assert r[|r| - |body|..] == b2;
  }

  /** The coalesce body never introduces a fault, keeps every check of the
      original body and checks every listed (non-empty) parameter. */
  lemma CoalesceBodyChecksAll(body: seq<Stmt>, names: seq<string>, ft: FixType)
    requires CheckedIdentifiers(body).Ok?
    ensures var r := CoalesceBody(body, names, ft);
            && CheckedIdentifiers(r).Ok?
            && CheckedIdentifiers(body).value <= CheckedIdentifiers(r).value
            && forall p :: p in names && p != "" ==> p in CheckedIdentifiers(r).value
  {
    var r1 := RewriteAll(body, names, DeclarationSite);
    var r2 := RewriteAll(r1.0, names, AssignmentSite);
    var rest := ExceptDistinct(names, r1.1 + r2.1);
    assert CoalesceBody(body, names, ft) == Guards(rest, ft) + r2.0;
    RewriteAllChecks(body, names, DeclarationSite);
    RewriteAllChecks(r1.0, names, AssignmentSite);
    GuardsCheckTheirNames(rest, ft);
    CheckedIdentifiersAppend(Guards(rest, ft), r2.0);
    GuardedOrRewritten(names, r1.1 + r2.1, CheckedIdentifiers(body).value);
  }

  /** Every non-empty name is either guarded or among the rewritten ones. */
  lemma GuardedOrRewritten(names: seq<string>, rewritten: set<string>, checks: set<string>)
    ensures forall p :: p in names && p != "" ==>
              p in (set q | q in ExceptDistinct(names, rewritten) && q != "") + (checks + (rewritten - {""}))
  {
  }

  // ---------------------------------------------------------------------
  // The fix of one constructor
  // ---------------------------------------------------------------------

  /** The new statement list: guards in front (for the guard and contract
      fixes), or the coalesce rewrites plus guards for the remaining names.
      A constructor without a block body raises. */
  function NewBodyStatements(c: Constructor, names: seq<string>, ft: FixType): (r: Result<seq<Stmt>>)
    ensures r.Failed? <==> c.body.None?
    ensures r.Ok? && !UsesCoalesce(ft) ==> r.value == Guards(names, ft) + c.body.value
    ensures r.Ok? && UsesCoalesce(ft) ==> r.value == CoalesceBody(c.body.value, names, ft)
  {
    if c.body.None? then Failed(NullReference)
    else if UsesCoalesce(ft) then Ok(CoalesceBody(c.body.value, names, ft))
    else Ok(Guards(names, ft) + c.body.value)
  }

  /** The compilation unit's `using` directives and the constructor being fixed. */
  datatype Document = Document(usings: seq<string>, ctor: Constructor)

  /** Adds the namespace when no directive names it, then orders by name;
      a document that already imports it keeps its directives as they are. */
  function AddUsing(usings: seq<string>, ns: string): (r: seq<string>)
    ensures ns in usings ==> r == usings
    ensures ns !in usings ==> Sorted(r) && multiset(r) == multiset(usings) + multiset{ns}
    ensures ns in r
  {
    if ns in usings then usings
    else
      var r := SortStrings(usings + [ns]);
      assert ns in multiset(r);
      r
  }

  /** Adding the same namespace twice adds it once. */
  lemma AddUsingIdempotent(usings: seq<string>, ns: string)
    ensures AddUsing(AddUsing(usings, ns), ns) == AddUsing(usings, ns)
  {
  }

  /** Adding a missing namespace to sorted directives inserts it in place. */
  lemma AddUsingToSorted(usings: seq<string>, ns: string)
    requires Sorted(usings) && ns !in usings
    ensures AddUsing(usings, ns) == Insert(ns, usings)
  {
    SortSorted(usings);
    assert usings + [ns] == (usings + [ns])[..|usings|] + [ns];
    assert (usings + [ns])[..|usings|] == usings;
  }

  /** The names of the parameters a diagnostic's additional locations point at. */
  function FixParameterNames(c: Constructor, d: NullDiagnostic): (r: seq<string>)
    requires forall i :: 0 <= i < |d.parameterIndices| ==> d.parameterIndices[i] < |c.parameters|
    ensures |r| == |d.parameterIndices|
    ensures forall i :: 0 <= i < |r| ==> r[i] == c.parameters[d.parameterIndices[i]].name
  {
    seq(|d.parameterIndices|, i requires 0 <= i < |d.parameterIndices| => c.parameters[d.parameterIndices[i]].name)
  }

  /** `AddNullCheck`: the fixed document. An empty new statement list leaves
      the document unchanged; otherwise the body is replaced and the
      required namespace imported. */
  function ApplyFix(doc: Document, d: NullDiagnostic, ft: FixType): (r: Result<Document>)
    requires forall i :: 0 <= i < |d.parameterIndices| ==> d.parameterIndices[i] < |doc.ctor.parameters|
    ensures r.Failed? <==> doc.ctor.body.None?
    ensures r.Ok? ==> r.value.ctor.parameters == doc.ctor.parameters
                      && r.value.ctor.initializerArgs == doc.ctor.initializerArgs
                      && r.value.ctor.identifier == doc.ctor.identifier
    ensures r.Ok? && |NewBodyStatements(doc.ctor, FixParameterNames(doc.ctor, d), ft).value| == 0 ==> r.value == doc
    ensures r.Ok? && |NewBodyStatements(doc.ctor, FixParameterNames(doc.ctor, d), ft).value| > 0 ==>
              r.value.ctor.body == Some(NewBodyStatements(doc.ctor, FixParameterNames(doc.ctor, d), ft).value)
              && r.value.usings == AddUsing(doc.usings, RequiredUsing(ft))
  {
    match NewBodyStatements(doc.ctor, FixParameterNames(doc.ctor, d), ft)
    case Failed(f) => Failed(f)
    case Ok(stmts) =>
      if |stmts| == 0 then Ok(doc)
      else Ok(Document(AddUsing(doc.usings, RequiredUsing(ft)), doc.ctor.(body := Some(stmts))))
  }

  /** Every name the diagnostic reports is among the names the fix receives. */
  lemma ReportedNamesReachTheFix(c: Constructor, symbols: seq<Symbol>, d: NullDiagnostic)
    requires AnalyzeConstructor(c, symbols) == Ok(Some(d))
    ensures forall i :: 0 <= i < |d.parameterIndices| ==> d.parameterIndices[i] < |c.parameters|
    ensures forall x :: x in d.names ==> x in FixParameterNames(c, d)
  {
    var names := FixParameterNames(c, d);
    forall x | x in d.names ensures x in names {
      var table := SymbolTable(symbols).value;
      assert NeedsCheck(c.parameters, table, x);
      var k :| 0 <= k < |c.parameters| && c.parameters[k].name == x && CheckNecessity(c.parameters[k].typ, table);
      assert k in d.parameterIndices;
      var i :| 0 <= i < |d.parameterIndices| && d.parameterIndices[i] == k;
      assert names[i] == x;
    }
  }

  /** The new statement list never faults, checks everything the old body
      checked, and checks every listed (non-empty) name. */
  lemma NewBodyChecks(c: Constructor, names: seq<string>, ft: FixType)
    requires c.body.Some? && CheckedIdentifiers(c.body.value).Ok?
    ensures NewBodyStatements(c, names, ft).Ok?
    ensures var stmts := NewBodyStatements(c, names, ft).value;
            && CheckedIdentifiers(stmts).Ok?
            && CheckedIdentifiers(c.body.value).value <= CheckedIdentifiers(stmts).value
            && forall p :: p in names && p != "" ==> p in CheckedIdentifiers(stmts).value
  {
    if UsesCoalesce(ft) {
      CoalesceBodyChecksAll(c.body.value, names, ft);
    } else {
      GuardsCheckTheirNames(names, ft);
      CheckedIdentifiersAppend(Guards(names, ft), c.body.value);
    }
  }

  /** A constructor with the same parameters and initializer whose body
      checks all the old body checked and every reported name is reported
      for nothing. */
  lemma SilentWhenReportedAreChecked(c: Constructor, c': Constructor, symbols: seq<Symbol>, d: NullDiagnostic)
    requires AnalyzeConstructor(c, symbols) == Ok(Some(d))
    requires c'.parameters == c.parameters && c'.initializerArgs == c.initializerArgs
    requires c'.body.Some? && CheckedIdentifiers(c'.body.value).Ok?
    requires CheckedIdentifiers(c.body.value).value <= CheckedIdentifiers(c'.body.value).value
    requires forall x :: x in d.names ==> x in CheckedIdentifiers(c'.body.value).value
    ensures AnalyzeConstructor(c', symbols) == Ok(None)
  {
    var table := SymbolTable(symbols).value;
    CheckedIdentifiersMeaning(c.body.value);
    CheckedIdentifiersMeaning(c'.body.value);
    forall x ensures !Unchecked(c', table, x) {
      if NeedsCheck(c.parameters, table, x) && !PassedToInitializer(c, x) {
        if NullChecked(c.body.value, x) {
          assert x in CheckedIdentifiers(c.body.value).value;
        } else {
          assert x in d.names;
        }
      }
    }
  }

  /** Every offered fix silences the analyzer: analysed again with the same
      symbols, the fixed constructor is reported for nothing. Parameters are
      assumed to have non-empty names, as every parameter of compilable code
      has. */
  lemma FixSilencesAnalyzer(doc: Document, symbols: seq<Symbol>, d: NullDiagnostic, ft: FixType)
    requires AnalyzeConstructor(doc.ctor, symbols) == Ok(Some(d))
    requires forall i :: 0 <= i < |doc.ctor.parameters| ==> doc.ctor.parameters[i].name != ""
    ensures forall i :: 0 <= i < |d.parameterIndices| ==> d.parameterIndices[i] < |doc.ctor.parameters|
    ensures ApplyFix(doc, d, ft).Ok?
    ensures AnalyzeConstructor(ApplyFix(doc, d, ft).value.ctor, symbols) == Ok(None)
  {
    var c := doc.ctor;
    ReportedNamesReachTheFix(c, symbols, d);
    var names := FixParameterNames(c, d);
    var table := SymbolTable(symbols).value;
    CheckedIdentifiersMeaning(c.body.value);
    NewBodyChecks(c, names, ft);
    var stmts := NewBodyStatements(c, names, ft).value;
    var after := CheckedIdentifiers(stmts).value;
    forall x | x in d.names ensures x in after {
      assert Unchecked(c, table, x);
      assert x != "";
    }
    assert d.names[0] in after;
    assert |stmts| > 0;
    SilentWhenReportedAreChecked(c, ApplyFix(doc, d, ft).value.ctor, symbols, d);
  }

  /** The guard and contract fixes only add statements in front of the body,
      one per listed name; the coalesce fixes keep the meaning of every
      original statement once the added null checks are read away. */
  lemma FixKeepsTheBody(c: Constructor, names: seq<string>, ft: FixType)
    requires c.body.Some? && CheckedIdentifiers(c.body.value).Ok?
    ensures var r := NewBodyStatements(c, names, ft).value;
            && |r| >= |c.body.value|
            && (!UsesCoalesce(ft) ==> r[|r| - |c.body.value|..] == c.body.value && |r| == |names| + |c.body.value|)
            && (UsesCoalesce(ft) ==> UnguardBody(r[|r| - |c.body.value|..]) == UnguardBody(c.body.value))
  {
    if UsesCoalesce(ft) {
      CoalesceBodyKeepsMeaning(c.body.value, names, ft);
    } else {
      var r := NewBodyStatements(c, names, ft).value;
      assert r[|r| - |c.body.value|..] == c.body.value;
    }
  }
}
