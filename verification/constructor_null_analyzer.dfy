/** The constructor null analyzer: a constructor must null-check every
    parameter of a reference type it does not hand on to its `base(...)` or
    `this(...)` initializer. A check is an `if (p == null)` condition, a
    `p ?? ...` coalesce in a declaration or assignment, or a
    `Contract.Requires(p != null)` call, each as a top-level statement of the
    body. A fault while analysing becomes one internal-error diagnostic. */
module ConstructorNullAnalyzer {
  import opened Common
  import opened Syntax

  const DiagnosticId := "CCN0011"
  const AnalyzerErrorId := "CCN0010"
  const Category := "Correctness"
  const Title := "Not checked reference parameter in constructor"
  const MessagePrefix := "Constructor should check that parameter(s) "
  const MessageSuffix := " are not null"

  // ---------------------------------------------------------------------
  // Declarations and the semantic model
  // ---------------------------------------------------------------------

  /** The syntax of a parameter type, as far as the analyzer distinguishes it. */
  datatype TypeSyntax =
    | PredefinedType(keyword: string)            // `string`, `int`, `object`, ...
    | GenericName(identifier: string, arity: nat) // `List<string>`
    | IdentifierType(identifier: string)         // `String`, `MyClass`
    | NullableType(underlying: TypeSyntax)       // `int?`
    | OtherType(text: string)                    // arrays, qualified names, tuples, ...

  datatype Parameter = Parameter(name: string, typ: TypeSyntax)

  /** A constructor declaration. `initializerArgs` are the arguments of a
      `: base(...)` or `: this(...)` initializer; `body` is None for an
      expression-bodied constructor. */
  datatype Constructor = Constructor(
    identifier: string,
    parameters: seq<Parameter>,
    initializerArgs: Option<seq<Argument>>,
    body: Option<seq<Stmt>>)

  datatype SymbolKind = NamedType | OtherSymbolKind

  /** A symbol visible at the parameter list, as the semantic model lists it. */
  datatype Symbol = Symbol(kind: SymbolKind, metadataName: string, isReferenceType: bool)

  /** Some visible named type has metadata name `n`. */
  ghost predicate Declares(symbols: seq<Symbol>, n: string)
  {
    exists i :: 0 <= i < |symbols| && symbols[i].kind == NamedType && symbols[i].metadataName == n
  }

  /** Some visible named type has metadata name `n` and is (or is not,
      following `isReference`) a reference type. */
  ghost predicate DeclaresAs(symbols: seq<Symbol>, n: string, isReference: bool)
  {
    exists i :: 0 <= i < |symbols| && symbols[i].kind == NamedType && symbols[i].metadataName == n
      && symbols[i].isReferenceType == isReference
  }

  /** Two visible named types share a metadata name but disagree on being a
      reference type, so no dictionary can hold both. */
  ghost predicate HasConflict(symbols: seq<Symbol>)
  {
    exists n :: DeclaresAs(symbols, n, true) && DeclaresAs(symbols, n, false)
  }

  lemma DeclaresSplitLast(symbols: seq<Symbol>, n: string)
    requires |symbols| > 0
    ensures Declares(symbols, n) <==>
              Declares(symbols[..|symbols| - 1], n)
              || (symbols[|symbols| - 1].kind == NamedType && symbols[|symbols| - 1].metadataName == n)
  {
    var init := symbols[..|symbols| - 1];
    if Declares(symbols, n) {
      var i :| 0 <= i < |symbols| && symbols[i].kind == NamedType && symbols[i].metadataName == n;
      if i < |init| { assert init[i] == symbols[i]; }
    }
    if Declares(init, n) {
      var i :| 0 <= i < |init| && init[i].kind == NamedType && init[i].metadataName == n;
      assert symbols[i] == init[i];
    }
  }

  lemma DeclaresAsSplitLast(symbols: seq<Symbol>, n: string, b: bool)
    requires |symbols| > 0
    ensures DeclaresAs(symbols, n, b) <==>
              DeclaresAs(symbols[..|symbols| - 1], n, b)
              || (symbols[|symbols| - 1].kind == NamedType && symbols[|symbols| - 1].metadataName == n
                  && symbols[|symbols| - 1].isReferenceType == b)
  {
    var init := symbols[..|symbols| - 1];
    if DeclaresAs(symbols, n, b) {
      var i :| 0 <= i < |symbols| && symbols[i].kind == NamedType && symbols[i].metadataName == n
        && symbols[i].isReferenceType == b;
      if i < |init| { assert init[i] == symbols[i]; }
    }
    if DeclaresAs(init, n, b) {
      var i :| 0 <= i < |init| && init[i].kind == NamedType && init[i].metadataName == n
        && init[i].isReferenceType == b;
      assert symbols[i] == init[i];
    }
  }

  lemma ConflictSplitLast(symbols: seq<Symbol>)
    requires |symbols| > 0
    ensures var init := symbols[..|symbols| - 1];
            var last := symbols[|symbols| - 1];
            HasConflict(symbols) <==>
              HasConflict(init) || (last.kind == NamedType && DeclaresAs(init, last.metadataName, !last.isReferenceType))
  {
    var init := symbols[..|symbols| - 1];
    var last := symbols[|symbols| - 1];
    if HasConflict(symbols) {
      var n :| DeclaresAs(symbols, n, true) && DeclaresAs(symbols, n, false);
      DeclaresAsSplitLast(symbols, n, true);
      DeclaresAsSplitLast(symbols, n, false);
    }
    if HasConflict(init) {
      var n :| DeclaresAs(init, n, true) && DeclaresAs(init, n, false);
      DeclaresAsSplitLast(symbols, n, true);
      DeclaresAsSplitLast(symbols, n, false);
    }
    if last.kind == NamedType && DeclaresAs(init, last.metadataName, !last.isReferenceType) {
      DeclaresAsSplitLast(symbols, last.metadataName, true);
      DeclaresAsSplitLast(symbols, last.metadataName, false);
    }
  }

  /** How the three predicates above extend by one symbol. */
  lemma SymbolsSplitLast(symbols: seq<Symbol>)
    requires |symbols| > 0
    ensures var init := symbols[..|symbols| - 1];
            var last := symbols[|symbols| - 1];
            && (forall n :: Declares(symbols, n) <==>
                  Declares(init, n) || (last.kind == NamedType && last.metadataName == n))
            && (forall n, b :: DeclaresAs(symbols, n, b) <==>
                  DeclaresAs(init, n, b) || (last.kind == NamedType && last.metadataName == n && last.isReferenceType == b))
            && (HasConflict(symbols) <==>
                  HasConflict(init) || (last.kind == NamedType && DeclaresAs(init, last.metadataName, !last.isReferenceType)))
  {
    forall n { DeclaresSplitLast(symbols, n); }
    forall n, b { DeclaresAsSplitLast(symbols, n, b); }
    ConflictSplitLast(symbols);
  }

  /** A name declared both ways is a conflict; a name declared some way is
      declared. */
  lemma DeclaresFacts(symbols: seq<Symbol>, n: string, b: bool)
    ensures DeclaresAs(symbols, n, b) && DeclaresAs(symbols, n, !b) ==> HasConflict(symbols)
    ensures DeclaresAs(symbols, n, b) ==> Declares(symbols, n)
    ensures DeclaresAs(symbols, n, !b) ==> Declares(symbols, n)
  {
  }

  /** The metadata name → is-reference-type dictionary of the named types in
      scope. Building the immutable dictionary accepts a repeated key with the
      same value and raises for a repeated key with a different value. */
  function SymbolTable(symbols: seq<Symbol>): (r: Result<map<string, bool>>)
    ensures r.Ok? <==> !HasConflict(symbols)
    ensures r.Failed? ==> r.fault == DuplicateKey
    ensures r.Ok? ==> forall n :: n in r.value <==> Declares(symbols, n)
    ensures r.Ok? ==> forall n :: n in r.value ==> DeclaresAs(symbols, n, r.value[n])
    decreases |symbols|
  {
    if |symbols| == 0 then Ok(map[])
    else
      var init := symbols[..|symbols| - 1];
      var last := symbols[|symbols| - 1];
      match SymbolTable(init)
      case Failed(f) =>
        SymbolsSplitLast(symbols);
        Failed(f)
      case Ok(m) =>
        SymbolsSplitLast(symbols);
        if last.kind != NamedType then Ok(m)
        else
          DeclaresFacts(init, last.metadataName, last.isReferenceType);
          if last.metadataName in m && m[last.metadataName] != last.isReferenceType then
            Failed(DuplicateKey)
          else Ok(m[last.metadataName := last.isReferenceType])
  }

  /** Metadata name of a generic type: its name, a backtick and its arity. */
  function GenericMetadataName(name: string, arity: nat): (r: string)
    ensures |r| > |name| + 1 && r[..|name|] == name && r[|name|] == '`'
    ensures IsDigits(r[|name| + 1..]) && DecimalValue(r[|name| + 1..]) == arity
  {
    var r := name + "`" + NatToDecimal(arity);
    assert r[|name| + 1..] == NatToDecimal(arity);
    r
  }

  /** `List`1` and `List`2` are different keys: the arity is part of the
      looked-up name. */
  lemma GenericNamesDifferByArity(name: string, a: nat, b: nat)
    requires a != b
    ensures GenericMetadataName(name, a) != GenericMetadataName(name, b)
  {
  }

  /** A named type is checked when it is in scope and is a reference type;
      a type that cannot be found is not checked. */
  predicate IsKnownReferenceType(typeName: string, table: map<string, bool>)
  {
    typeName in table && table[typeName]
  }

  /** Whether a parameter of this type must be null-checked. Of the keyword
      types only `object` and `string` are; nullable value types and every
      other kind of type syntax are not. */
  function CheckNecessity(t: TypeSyntax, table: map<string, bool>): (r: bool)
    ensures t.PredefinedType? ==> (r <==> t.keyword == "object" || t.keyword == "string")
    ensures t.GenericName? ==> (r <==> IsKnownReferenceType(GenericMetadataName(t.identifier, t.arity), table))
    ensures t.IdentifierType? ==> (r <==> IsKnownReferenceType(t.identifier, table))
    ensures t.NullableType? || t.OtherType? ==> !r
  {
    match t
    case PredefinedType(k) => k == "object" || k == "string"
    case GenericName(n, a) => IsKnownReferenceType(GenericMetadataName(n, a), table)
    case IdentifierType(n) => IsKnownReferenceType(n, table)
    case NullableType(_) => false
    case OtherType(_) => false
  }

  /** A generic type is never found under the entry of a non-generic type of
      the same name: `List<T>` is looked up as "List`1", not as "List". */
  lemma GenericLookupIgnoresPlainEntry(name: string, arity: nat, table: map<string, bool>)
    requires name in table && table[name]
    requires GenericMetadataName(name, arity) !in table
    ensures !CheckNecessity(GenericName(name, arity), table)
    ensures CheckNecessity(IdentifierType(name), table)
  {
  }

  // ---------------------------------------------------------------------
  // The three name collections
  // ---------------------------------------------------------------------

  /** Parameter `x` has a type that needs a null check. */
  ghost predicate NeedsCheck(ps: seq<Parameter>, table: map<string, bool>, x: string)
  {
    exists i :: 0 <= i < |ps| && ps[i].name == x && CheckNecessity(ps[i].typ, table)
  }

  lemma NeedsCheckSplitLast(ps: seq<Parameter>, table: map<string, bool>)
    requires |ps| > 0
    ensures forall x :: NeedsCheck(ps, table, x) <==>
              NeedsCheck(ps[..|ps| - 1], table, x) || (ps[|ps| - 1].name == x && CheckNecessity(ps[|ps| - 1].typ, table))
  {
    var init := ps[..|ps| - 1];
    forall x ensures NeedsCheck(ps, table, x) <==>
                       NeedsCheck(init, table, x) || (ps[|ps| - 1].name == x && CheckNecessity(ps[|ps| - 1].typ, table)) {
      if NeedsCheck(ps, table, x) {
        var i :| 0 <= i < |ps| && ps[i].name == x && CheckNecessity(ps[i].typ, table);
        if i < |init| { assert init[i] == ps[i]; }
      }
      if NeedsCheck(init, table, x) {
        var i :| 0 <= i < |init| && init[i].name == x && CheckNecessity(init[i].typ, table);
        assert ps[i] == init[i];
      }
    }
  }

  lemma ParameterNamesSplitLast(ps: seq<Parameter>)
    requires |ps| > 0
    ensures ParameterNames(ps) == ParameterNames(ps[..|ps| - 1]) + [ps[|ps| - 1].name]
  {
  }

  /** Names of the parameters that need a check, in declaration order. */
  function ReferenceParameters(ps: seq<Parameter>, table: map<string, bool>): (r: seq<string>)
    ensures forall x :: x in r <==> NeedsCheck(ps, table, x)
    ensures IsSubsequence(r, ParameterNames(ps))
    decreases |ps|
  {
    if |ps| == 0 then []
    else
      var init := ps[..|ps| - 1];
      var last := ps[|ps| - 1];
      var prefix := ReferenceParameters(init, table);
      NeedsCheckSplitLast(ps, table);
      ParameterNamesSplitLast(ps);
      SubsequenceExtend(prefix, ParameterNames(init), last.name);
      if CheckNecessity(last.typ, table) then prefix + [last.name] else prefix
  }

  /** The parameter names in declaration order. */
  function ParameterNames(ps: seq<Parameter>): (r: seq<string>)
    ensures |r| == |ps| && forall i :: 0 <= i < |ps| ==> r[i] == ps[i].name
  {
    seq(|ps|, i requires 0 <= i < |ps| => ps[i].name)
  }

  /** `x` is passed as a bare identifier argument to the constructor initializer. */
  ghost predicate PassedToInitializer(c: Constructor, x: string)
  {
    c.initializerArgs.Some? &&
    exists i :: 0 <= i < |c.initializerArgs.value| && c.initializerArgs.value[i].expr == Identifier(x)
  }

  /** Names passed as bare identifiers, in argument order. */
  function IdentifierArguments(args: seq<Argument>): (r: seq<string>)
    ensures forall x :: x in r <==> exists i :: 0 <= i < |args| && args[i].expr == Identifier(x)
    decreases |args|
  {
    if |args| == 0 then []
    else
      var init := args[..|args| - 1];
      var last := args[|args| - 1];
      assert forall i :: 0 <= i < |init| ==> init[i] == args[i];
      IdentifierArguments(init) + (if last.expr.Identifier? then [last.expr.name] else [])
  }

  /** The initializer's bare identifier arguments; none without an initializer. */
  function BaseParameters(c: Constructor): (r: set<string>)
    ensures forall x :: x in r <==> PassedToInitializer(c, x)
  {
    match c.initializerArgs
    case None => {}
    case Some(args) => set x | x in IdentifierArguments(args)
  }

  // ---------------------------------------------------------------------
  // Checked names, per statement
  // ---------------------------------------------------------------------

  /** `e` compares `x` with null using `op`, directly (either side), or inside
      a binary expression both of whose operands are binary expressions. */
  ghost predicate NullTests(e: Expr, op: BinaryOp, x: string)
    decreases e
  {
    || e == Binary(op, Identifier(x), NullLiteral)
    || e == Binary(op, NullLiteral, Identifier(x))
    || (e.Binary? && e.left.Binary? && e.right.Binary?
        && (NullTests(e.left, op, x) || NullTests(e.right, op, x)))
  }

  /** Names a binary expression compares with null using `op`. */
  function NullTestedNames(e: Expr, op: BinaryOp): (r: set<string>)
    requires e.Binary?
    ensures forall x :: x in r <==> NullTests(e, op, x)
    decreases e
  {
    if e.left.Identifier? && e.right.NullLiteral? && e.op == op then {e.left.name}
    else if e.left.NullLiteral? && e.right.Identifier? && e.op == op then {e.right.name}
    else if e.left.Binary? && e.right.Binary? then NullTestedNames(e.left, op) + NullTestedNames(e.right, op)
    else {}
  }

  /** `e` is `x ?? ...`. */
  predicate IsCoalesceOf(e: Expr, x: string)
  {
    e.Binary? && e.op == Coalesce && e == Binary(Coalesce, Identifier(x), e.right)
  }

  /** The left identifier of a coalesce expression, if that is what `e` is. */
  function CoalescedName(e: Expr): (r: set<string>)
    ensures forall x :: x in r <==> IsCoalesceOf(e, x)
    ensures |r| <= 1
  {
    if e.Binary? && e.op == Coalesce && e.left.Identifier? then {e.left.name} else {}
  }

  /** `Contract.Requires(...)` */
  predicate IsContractRequires(callee: Expr)
  {
    callee == MemberAccess(Identifier("Contract"), "Requires")
  }

  /** Statement `s` null-checks `x`, in one of the recognised shapes. */
  ghost predicate ChecksInStatement(s: Stmt, x: string)
  {
    match s
    case If(c, _, _) => NullTests(c, EqualsEquals, x)
    case LocalDecl(_, _, ds) => CoalescedDeclarator(ds, x)
    case ExpressionStmt(e) =>
      if e.Assignment? then IsCoalesceOf(e.value, x)
      else e.Invocation? && IsContractRequires(e.callee)
           && RequiresNonNull(e.args, x)
    case _ => false
  }

  /** The `if` condition is read as a binary expression; any other condition
      is a null reference. */
  predicate FaultsInStatement(s: Stmt)
  {
    s.If? && !s.cond.Binary?
  }

  /** Some declarator is initialised with `x ?? ...`. */
  ghost predicate CoalescedDeclarator(ds: seq<Declarator>, x: string)
  {
    exists i :: 0 <= i < |ds| && ds[i].init.Some? && IsCoalesceOf(ds[i].init.value, x)
  }

  lemma CoalescedDeclaratorSplitLast(ds: seq<Declarator>)
    requires |ds| > 0
    ensures forall x :: CoalescedDeclarator(ds, x) <==>
              CoalescedDeclarator(ds[..|ds| - 1], x) || (ds[|ds| - 1].init.Some? && IsCoalesceOf(ds[|ds| - 1].init.value, x))
  {
    var init := ds[..|ds| - 1];
    var last := ds[|ds| - 1];
    forall x ensures CoalescedDeclarator(ds, x) <==>
                       CoalescedDeclarator(init, x) || (last.init.Some? && IsCoalesceOf(last.init.value, x)) {
      if CoalescedDeclarator(ds, x) {
        var i :| 0 <= i < |ds| && ds[i].init.Some? && IsCoalesceOf(ds[i].init.value, x);
        if i < |init| { assert init[i] == ds[i]; }
      }
      if CoalescedDeclarator(init, x) {
        var i :| 0 <= i < |init| && init[i].init.Some? && IsCoalesceOf(init[i].init.value, x);
        assert ds[i] == init[i];
      }
    }
  }

  /** Coalesced names of the declarators' initializers. */
  function CoalescedInDeclarators(ds: seq<Declarator>): (r: set<string>)
    ensures forall x :: x in r <==> CoalescedDeclarator(ds, x)
    decreases |ds|
  {
    if |ds| == 0 then {}
    else
      var init := ds[..|ds| - 1];
      var last := ds[|ds| - 1];
      CoalescedDeclaratorSplitLast(ds);
      CoalescedInDeclarators(init) + (if last.init.Some? then CoalescedName(last.init.value) else {})
  }

  /** Some argument tests `x != null`. */
  ghost predicate RequiresNonNull(args: seq<Argument>, x: string)
  {
    exists i :: 0 <= i < |args| && NullTests(args[i].expr, NotEquals, x)
  }

  lemma RequiresNonNullSplitLast(args: seq<Argument>)
    requires |args| > 0
    ensures forall x :: RequiresNonNull(args, x) <==>
              RequiresNonNull(args[..|args| - 1], x) || NullTests(args[|args| - 1].expr, NotEquals, x)
  {
    var init := args[..|args| - 1];
    forall x ensures RequiresNonNull(args, x) <==>
                       RequiresNonNull(init, x) || NullTests(args[|args| - 1].expr, NotEquals, x) {
      if RequiresNonNull(args, x) {
        var i :| 0 <= i < |args| && NullTests(args[i].expr, NotEquals, x);
        if i < |init| { assert init[i] == args[i]; }
      }
      if RequiresNonNull(init, x) {
        var i :| 0 <= i < |init| && NullTests(init[i].expr, NotEquals, x);
        assert args[i] == init[i];
      }
    }
  }

  /** Names the binary arguments of a `Contract.Requires` call test for non-null. */
  function RequiredNonNull(args: seq<Argument>): (r: set<string>)
    ensures forall x :: x in r <==> RequiresNonNull(args, x)
    decreases |args|
  {
    if |args| == 0 then {}
    else
      var init := args[..|args| - 1];
      var last := args[|args| - 1];
      RequiresNonNullSplitLast(args);
      RequiredNonNull(init) + (if last.expr.Binary? then NullTestedNames(last.expr, NotEquals) else {})
  }

  /** The names one statement checks. */
  function CheckedInStatement(s: Stmt): (r: Result<set<string>>)
    ensures r.Failed? <==> FaultsInStatement(s)
    ensures r.Failed? ==> r.fault == NullReference
    ensures r.Ok? ==> forall x :: x in r.value <==> ChecksInStatement(s, x)
  {
    match s
    case If(c, _, _) => if c.Binary? then Ok(NullTestedNames(c, EqualsEquals)) else Failed(NullReference)
    case LocalDecl(_, _, ds) => Ok(CoalescedInDeclarators(ds))
    case ExpressionStmt(e) =>
      if e.Assignment? then Ok(CoalescedName(e.value))
      else if e.Invocation? && IsContractRequires(e.callee) then Ok(RequiredNonNull(e.args))
      else Ok({})
    case _ => Ok({})
  }

  /** `x` is checked by some statement of the body (an empty name never counts). */
  ghost predicate NullChecked(body: seq<Stmt>, x: string)
  {
    x != "" && exists i :: 0 <= i < |body| && ChecksInStatement(body[i], x)
  }

  /** All non-empty names the body's statements check; the first statement
      that faults aborts the scan. What it computes is stated by
      `CheckedIdentifiersMeaning`. */
  function CheckedIdentifiers(body: seq<Stmt>): (r: Result<set<string>>)
    ensures r.Failed? ==> r.fault == NullReference
    decreases |body|
  {
    if |body| == 0 then Ok({})
    else
      match CheckedIdentifiers(body[..|body| - 1])
      case Failed(f) => Failed(f)
      case Ok(a) =>
        match CheckedInStatement(body[|body| - 1])
        case Failed(f) => Failed(f)
        case Ok(b) => Ok(a + (b - {""}))
  }

  /** Some statement of the body faults. */
  ghost predicate AnyFault(body: seq<Stmt>)
  {
    exists i :: 0 <= i < |body| && FaultsInStatement(body[i])
  }

  /** Some statement of a non-empty body faults exactly when one of all but
      the last does, or the last does. */
  lemma FaultsSplitLast(body: seq<Stmt>)
    requires |body| > 0
    ensures AnyFault(body) <==> AnyFault(body[..|body| - 1]) || FaultsInStatement(body[|body| - 1])
  {
    var init := body[..|body| - 1];
    if AnyFault(body) {
      var i :| 0 <= i < |body| && FaultsInStatement(body[i]);
      if i < |init| { assert init[i] == body[i]; }
    }
    if AnyFault(init) {
      var i :| 0 <= i < |init| && FaultsInStatement(init[i]);
      assert body[i] == init[i];
    }
  }

  /** The scan faults exactly when some statement faults. */
  lemma {:induction false} CheckedIdentifiersFaults(body: seq<Stmt>)
    ensures CheckedIdentifiers(body).Failed? <==> AnyFault(body)
    decreases |body|
  {
    if |body| > 0 {
      CheckedIdentifiersFaults(body[..|body| - 1]);
      FaultsSplitLast(body);
    }
  }

  /** A name is checked by a non-empty body exactly when all but the last
      statement check it, or the last one does and the name is not empty. */
  lemma NullCheckedSplitLast(body: seq<Stmt>, x: string)
    requires |body| > 0
    ensures NullChecked(body, x) <==>
              NullChecked(body[..|body| - 1], x) || (x != "" && ChecksInStatement(body[|body| - 1], x))
  {
    var init := body[..|body| - 1];
    if NullChecked(body, x) {
      var i :| 0 <= i < |body| && ChecksInStatement(body[i], x);
      if i < |init| { assert init[i] == body[i]; }
    }
    if NullChecked(init, x) {
      var i :| 0 <= i < |init| && ChecksInStatement(init[i], x);
      assert body[i] == init[i];
    }
  }

  /** When the scan succeeds it yields exactly the non-empty names some
      statement checks. */
  lemma {:induction false} CheckedIdentifiersNames(body: seq<Stmt>)
    ensures CheckedIdentifiers(body).Ok? ==> forall x :: x in CheckedIdentifiers(body).value <==> NullChecked(body, x)
    decreases |body|
  {
    if |body| > 0 && CheckedIdentifiers(body).Ok? {
      var init := body[..|body| - 1];
      CheckedIdentifiersNames(init);
      forall x ensures x in CheckedIdentifiers(body).value <==> NullChecked(body, x) {
        NullCheckedSplitLast(body, x);
      }
    }
  }

  /** The scan faults exactly when some statement faults, and otherwise
      yields exactly the non-empty names some statement checks. */
  lemma CheckedIdentifiersMeaning(body: seq<Stmt>)
    ensures CheckedIdentifiers(body).Failed? <==> AnyFault(body)
    ensures CheckedIdentifiers(body).Ok? ==> forall x :: x in CheckedIdentifiers(body).value <==> NullChecked(body, x)
  {
    CheckedIdentifiersFaults(body);
    CheckedIdentifiersNames(body);
  }

  /** The checked names of a concatenation are the union of both parts. */
  lemma {:induction false} CheckedIdentifiersAppend(a: seq<Stmt>, b: seq<Stmt>)
    ensures CheckedIdentifiers(a + b).Failed? <==> CheckedIdentifiers(a).Failed? || CheckedIdentifiers(b).Failed?
    ensures CheckedIdentifiers(a + b).Ok? ==>
              CheckedIdentifiers(a + b).value == CheckedIdentifiers(a).value + CheckedIdentifiers(b).value
    decreases |b|
  {
    if |b| == 0 {
      assert a + b == a;
    } else {
      var b' := b[..|b| - 1];
      assert (a + b)[..|a + b| - 1] == a + b';
      assert (a + b)[|a + b| - 1] == b[|b| - 1];
      CheckedIdentifiersAppend(a, b');
    }
  }

  // ---------------------------------------------------------------------
  // The analysis of one constructor
  // ---------------------------------------------------------------------

  /** The reported diagnostic: the unchecked parameter names, the message that
      lists them, and the positions of the parameters they name (the
      additional locations). */
  datatype NullDiagnostic = NullDiagnostic(names: seq<string>, message: string, parameterIndices: seq<nat>)

  /** Parameter `x` must be reported: it needs a check, it is not handed to
      the initializer, and the body does not check it. */
  ghost predicate Unchecked(c: Constructor, table: map<string, bool>, x: string)
    requires c.body.Some?
  {
    NeedsCheck(c.parameters, table, x) && !PassedToInitializer(c, x) && !NullChecked(c.body.value, x)
  }

  /** The analysis raises: conflicting symbols, no block body, or an `if`
      statement whose condition is not a binary expression. */
  ghost predicate AnalysisFaults(c: Constructor, symbols: seq<Symbol>)
  {
    || HasConflict(symbols)
    || c.body.None?
    || AnyFault(c.body.value)
  }

  /** The positions of the parameters whose names are listed, ascending. */
  function ParameterIndices(ps: seq<Parameter>, names: seq<string>): (r: seq<nat>)
    ensures forall i :: 0 <= i < |r| ==> r[i] < |ps| && ps[r[i]].name in names
    ensures forall k :: 0 <= k < |ps| && ps[k].name in names ==> k in r
    ensures forall i, j :: 0 <= i < j < |r| ==> r[i] < r[j]
    decreases |ps|
  {
    if |ps| == 0 then []
    else
      var init := ps[..|ps| - 1];
      var prefix := ParameterIndices(init, names);
      if ps[|ps| - 1].name in names then prefix + [|ps| - 1] else prefix
  }

  /** `AnalyzeConstructor`: at most one diagnostic naming, in declaration
      order and without repetition, exactly the unchecked parameters. */
  function AnalyzeConstructor(c: Constructor, symbols: seq<Symbol>): (r: Result<Option<NullDiagnostic>>)
    ensures r.Failed? <==> AnalysisFaults(c, symbols)
    ensures r.Ok? ==> c.body.Some? && SymbolTable(symbols).Ok?
    ensures r.Ok? ==>
              (r.value.None? <==> forall x :: !Unchecked(c, SymbolTable(symbols).value, x))
    ensures r.Ok? && r.value.Some? ==>
              var d := r.value.value;
              && (forall x :: x in d.names <==> Unchecked(c, SymbolTable(symbols).value, x))
              && |d.names| > 0
              && NoDuplicates(d.names)
              && IsSubsequence(d.names, ParameterNames(c.parameters))
              && d.message == MessagePrefix + JoinComma(d.names) + MessageSuffix
              && d.parameterIndices == ParameterIndices(c.parameters, d.names)
  {
    match SymbolTable(symbols)
    case Failed(f) => Failed(f)
    case Ok(table) =>
      var references := ReferenceParameters(c.parameters, table);
      var baseParameters := BaseParameters(c);
      if c.body.None? then Failed(NullReference)
      else
        CheckedIdentifiersMeaning(c.body.value);
        match CheckedIdentifiers(c.body.value)
        case Failed(f) => Failed(f)
        case Ok(checkedNames) =>
          var names := ExceptDistinct(references, baseParameters + checkedNames);
          SubsequenceTrans(names, references, ParameterNames(c.parameters));
          if |names| == 0 then
            Ok(None)
          else
            assert Unchecked(c, table, names[0]);
            Ok(Some(NullDiagnostic(names, MessagePrefix + JoinComma(names) + MessageSuffix,
                                   ParameterIndices(c.parameters, names))))
  }

  /** What the host receives for one constructor: the lint diagnostic, or the
      internal-error diagnostic when the analysis raised. */
  datatype Report = NotCheckedReport(diagnostic: NullDiagnostic) | AnalyzerErrorReport

  function AnalyzeConstructorSafely(c: Constructor, symbols: seq<Symbol>): (r: seq<Report>)
    ensures |r| <= 1
    ensures r == [AnalyzerErrorReport] <==> AnalysisFaults(c, symbols)
    ensures r == [] <==> AnalyzeConstructor(c, symbols) == Ok(None)
    ensures forall d :: NotCheckedReport(d) in r <==> AnalyzeConstructor(c, symbols) == Ok(Some(d))
  {
    match AnalyzeConstructor(c, symbols)
    case Failed(_) => [AnalyzerErrorReport]
    case Ok(None) => []
    case Ok(Some(d)) => [NotCheckedReport(d)]
  }
}
