/** The coalesce fixes as the fix provider builds them. Every rewrite is
    computed against the ORIGINAL body and the rewrites are then written into
    it one after the other, so that two rewrites of the same statement keep
    only the later one; a declaration rewrite coalesces the first declarator
    that has an initializer, whichever parameter that initializer names; an
    assignment rewrite always produces a simple `=`. The concrete lemmas below
    exhibit what each of these does to a constructor, against the corrected
    `ConstructorNullFix.CoalesceBody` that the rest of the model uses. */
module ConstructorNullFixAsWritten {
  import opened Common
  import opened Syntax
  import opened ConstructorNullAnalyzer
  import opened ConstructorNullFix

  /** A planned replacement: the statement at `index` of the original body
      becomes `replacement`, on behalf of parameter `param`. */
  datatype FixEntry = FixEntry(index: nat, replacement: Stmt, param: string)

  /** The declaration entry for `p`: the first local declaration that has a
      declarator initialised to exactly `p`, with its first initialised
      declarator coalesced on `p`. The statement is rebuilt from its type and
      declarators alone, so its `using`/`await` keywords and modifiers are
      dropped. */
  function DeclarationEntry(body: seq<Stmt>, p: string): (r: Option<FixEntry>)
    ensures r.None? <==> FirstSite(body, p, DeclarationSite).None?
    ensures r.Some? ==> r.value.index == FirstSite(body, p, DeclarationSite).value && r.value.param == p
    ensures r.Some? ==> var s := body[r.value.index];
                        && r.value.replacement.LocalDecl?
                        && r.value.replacement.keywords == []
                        && r.value.replacement.typeText == s.typeText
                        && |r.value.replacement.declarators| == |s.declarators|
                        && exists j :: 0 <= j < |s.declarators| && s.declarators[j].init.Some?
                                       && (forall i :: 0 <= i < j ==> s.declarators[i].init.None?)
                                       && r.value.replacement.declarators ==
                                            s.declarators[j := Declarator(s.declarators[j].name, Some(CoalesceGuarded(p)))]
  {
    match FirstSite(body, p, DeclarationSite)
    case None => None
    case Some(k) =>
      var s := body[k];
      var j := FirstDeclarator(s.declarators, None);
      Some(FixEntry(k, LocalDecl([], s.typeText, s.declarators[j := Declarator(s.declarators[j].name, Some(CoalesceGuarded(p)))]), p))
  }

  /** The assignment entry for `p`: the first expression statement assigning
      exactly `p`, turned into a simple assignment of `p ?? throw ...`. */
  function AssignmentEntry(body: seq<Stmt>, p: string): (r: Option<FixEntry>)
    ensures r.None? <==> FirstSite(body, p, AssignmentSite).None?
    ensures r.Some? ==> r.value.index == FirstSite(body, p, AssignmentSite).value && r.value.param == p
    ensures r.Some? ==>
              r.value.replacement == ExpressionStmt(Assignment(SimpleAssign, body[r.value.index].expr.target, CoalesceGuarded(p)))
  {
    match FirstSite(body, p, AssignmentSite)
    case None => None
    case Some(k) => Some(FixEntry(k, ExpressionStmt(Assignment(SimpleAssign, body[k].expr.target, CoalesceGuarded(p))), p))
  }

  /** The entries that exist, in the order of the names. */
  function Present(es: seq<Option<FixEntry>>): (r: seq<FixEntry>)
    ensures forall e :: e in r <==> Some(e) in es
    ensures |r| <= |es|
  {
    if |es| == 0 then []
    else
      var rest := Present(es[1..]);
      assert forall o :: o in es <==> o == es[0] || o in es[1..];
      if es[0].Some? then [es[0].value] + rest else rest
  }

  /** The entry of every name for one statement shape, in the order of the names. */
  function Entries(body: seq<Stmt>, names: seq<string>, site: Site): (r: seq<Option<FixEntry>>)
    ensures |r| == |names|
    ensures forall i :: 0 <= i < |names| ==>
              r[i] == (if site == DeclarationSite then DeclarationEntry(body, names[i]) else AssignmentEntry(body, names[i]))
  {
    seq(|names|, i requires 0 <= i < |names| =>
      if site == DeclarationSite then DeclarationEntry(body, names[i]) else AssignmentEntry(body, names[i]))
  }

  /** Declaration entries first, then assignment entries, all computed on the
      original body. The `Union` of the two lists only drops duplicates of
      absent entries, which are filtered out anyway. */
  function FixEntries(body: seq<Stmt>, names: seq<string>): (r: seq<FixEntry>)
    ensures forall e :: e in r ==> e.index < |body| && e.param in names
    ensures forall e :: e in r <==> exists i :: 0 <= i < |names| && (DeclarationEntry(body, names[i]) == Some(e) || AssignmentEntry(body, names[i]) == Some(e))
  {
    var decl := Entries(body, names, DeclarationSite);
    var assign := Entries(body, names, AssignmentSite);
    assert forall e :: Some(e) in decl <==> exists i :: 0 <= i < |names| && decl[i] == Some(e);
    assert forall e :: Some(e) in assign <==> exists i :: 0 <= i < |names| && assign[i] == Some(e);
    Present(decl) + Present(assign)
  }

  /** Statement by statement, `stmts` is `body` with some entries written in. */
  ghost predicate EachOriginalOrEntry(stmts: seq<Stmt>, body: seq<Stmt>, entries: seq<FixEntry>)
  {
    |stmts| == |body| && forall k :: 0 <= k < |body| ==> OriginalOrEntry(stmts[k], body, entries, k)
  }

  /** No entry targets index `k`. */
  ghost predicate Untouched(entries: seq<FixEntry>, k: nat)
  {
    forall e :: e in entries ==> e.index != k
  }

  /** `s`, at index `k`, is the original statement there or the replacement
      of an entry for `k`. */
  ghost predicate OriginalOrEntry(s: Stmt, body: seq<Stmt>, entries: seq<FixEntry>, k: nat)
    requires k < |body|
  {
    s == body[k] || exists e :: e in entries && e.index == k && s == e.replacement
  }

  /** Writes every entry into the body in order; a later entry for the same
      index replaces an earlier one. */
  function ApplyEntries(body: seq<Stmt>, entries: seq<FixEntry>): (r: seq<Stmt>)
    requires forall e :: e in entries ==> e.index < |body|
    ensures |r| == |body|
    ensures forall k :: 0 <= k < |body| && Untouched(entries, k) ==> r[k] == body[k]
    ensures forall k :: 0 <= k < |body| ==> OriginalOrEntry(r[k], body, entries, k)
    decreases |entries|
  {
    if |entries| == 0 then body
    else
      var init := entries[..|entries| - 1];
      var last := entries[|entries| - 1];
      assert forall e :: e in init ==> e in entries;
      var prev := ApplyEntries(body, init);
      assert OriginalOrEntry(last.replacement, body, entries, last.index) by { assert last in entries; }
      assert forall k :: 0 <= k < |body| && OriginalOrEntry(prev[k], body, init, k) ==> OriginalOrEntry(prev[k], body, entries, k);
      prev[last.index := last.replacement]
  }

  /** The statement at an entry's index is that entry's replacement when no
      later entry targets the same index: the last entry for an index wins. */
  lemma {:induction false} LastEntryWins(body: seq<Stmt>, entries: seq<FixEntry>, n: nat)
    requires forall e :: e in entries ==> e.index < |body|
    requires n < |entries|
    requires forall m :: n < m < |entries| ==> entries[m].index != entries[n].index
    ensures ApplyEntries(body, entries)[entries[n].index] == entries[n].replacement
    decreases |entries|
  {
    var init := entries[..|entries| - 1];
    assert forall e :: e in init ==> e in entries;
    if n < |entries| - 1 {
      LastEntryWins(body, init, n);
    }
  }

  /** The parameters some entry stands for. */
  function Processed(entries: seq<FixEntry>): (r: set<string>)
    ensures forall p :: p in r <==> exists e :: e in entries && e.param == p
  {
    set e | e in entries :: e.param
  }

  /** The coalesce fixes' new statement list as the provider builds it. */
  function CoalesceBodyAsWritten(body: seq<Stmt>, names: seq<string>, ft: FixType): (r: seq<Stmt>)
    ensures |r| >= |body|
    ensures forall i :: 0 <= i < |r| - |body| ==> GuardOfListed(r[i], names, ft)
    ensures EachOriginalOrEntry(r[|r| - |body|..], body, FixEntries(body, names))
  {
    var entries := FixEntries(body, names);
    var g := ExceptDistinct(names, Processed(entries));
    var applied := ApplyEntries(body, entries);
    var r := Guards(g, ft) + applied;
    GuardsOfListed(g, names, ft, applied);
    assert r[|r| - |body|..] == applied;
    r
  }

  /** `s` is the guard of one of the listed names. */
  ghost predicate GuardOfListed(s: Stmt, names: seq<string>, ft: FixType)
  {
    exists p :: p in names && s == Guard(p, ft)
  }

  /** Guards for some of the listed names, followed by anything: every
      statement before `rest` guards a listed name. */
  lemma GuardsOfListed(g: seq<string>, names: seq<string>, ft: FixType, rest: seq<Stmt>)
    requires forall x :: x in g ==> x in names
    ensures forall i :: 0 <= i < |g| ==> GuardOfListed((Guards(g, ft) + rest)[i], names, ft)
  {
    forall i | 0 <= i < |g| ensures GuardOfListed((Guards(g, ft) + rest)[i], names, ft) {
      assert g[i] in g && (Guards(g, ft) + rest)[i] == Guard(g[i], ft);
    }
  }

  // ---------------------------------------------------------------------
  // Where the two agree
  // ---------------------------------------------------------------------

  /** Statement `k` is no listed name's first site of the given shape. */
  ghost predicate Untargeted(body: seq<Stmt>, names: seq<string>, site: Site, k: nat)
  {
    forall i :: 0 <= i < |names| ==> FirstSite(body, names[i], site) != Some(k)
  }

  /** `b` is `body` with the first site of the given shape of every listed
      name rewritten for that name, all at once. This is the reference both
      the sequential corrected rewrite and the as-written one are compared
      with. */
  ghost predicate RewrittenAtOnce(body: seq<Stmt>, names: seq<string>, site: Site, b: seq<Stmt>)
  {
    && |b| == |body|
    && (forall i :: 0 <= i < |names| && FirstSite(body, names[i], site).Some? ==>
          b[FirstSite(body, names[i], site).value] == Rewrite(body[FirstSite(body, names[i], site).value], names[i], site))
    && (forall k :: 0 <= k < |body| && Untargeted(body, names, site, k) ==> b[k] == body[k])
  }

  /** Two listed names with the same first site of the given shape are the
      same name. */
  ghost predicate DistinctSites(body: seq<Stmt>, names: seq<string>, site: Site)
  {
    forall i, j ::
      (0 <= i < |names| && 0 <= j < |names| && FirstSite(body, names[i], site).Some?
       && FirstSite(body, names[i], site) == FirstSite(body, names[j], site)) ==> names[i] == names[j]
  }

  /** In the first declaration site of every listed name, the first
      initialised declarator is the one initialised to that name. */
  ghost predicate OwnDeclaratorFirst(body: seq<Stmt>, names: seq<string>)
  {
    forall i :: 0 <= i < |names| && FirstSite(body, names[i], DeclarationSite).Some? ==>
      var ds := body[FirstSite(body, names[i], DeclarationSite).value].declarators;
      ds[FirstDeclarator(ds, None)].init == Some(Identifier(names[i]))
  }

  /** The first declaration site of every listed name has no `using` or
      `await` keyword and no modifier. */
  ghost predicate PlainDeclarationSites(body: seq<Stmt>, names: seq<string>)
  {
    forall i :: 0 <= i < |names| && FirstSite(body, names[i], DeclarationSite).Some? ==>
      body[FirstSite(body, names[i], DeclarationSite).value].keywords == []
  }

  /** The first assignment site of every listed name is a simple `=`. */
  ghost predicate SimpleAssignmentSites(body: seq<Stmt>, names: seq<string>)
  {
    forall i :: 0 <= i < |names| && FirstSite(body, names[i], AssignmentSite).Some? ==>
      body[FirstSite(body, names[i], AssignmentSite).value].expr.assignOp == SimpleAssign
  }

  /** The inputs on which none of the four defects of the as-written
      coalesce fix shows: distinct parameters whose first sites are
      distinct statements, declarations whose first initialised declarator
      holds the parameter and that carry no keyword or modifier, and plain
      assignments. */
  ghost predicate RewritesAgree(body: seq<Stmt>, names: seq<string>)
  {
    && NoDuplicates(names)
    && DistinctSites(body, names, DeclarationSite)
    && DistinctSites(body, names, AssignmentSite)
    && OwnDeclaratorFirst(body, names)
    && PlainDeclarationSites(body, names)
    && SimpleAssignmentSites(body, names)
  }

  /** The listed names that have a first site of either shape. */
  ghost function SitedNames(body: seq<Stmt>, names: seq<string>): set<string>
  {
    set p | p in names && (FirstSite(body, p, DeclarationSite).Some? || FirstSite(body, p, AssignmentSite).Some?)
  }

  /** A parameter counts as processed exactly when it is listed and has a
      first site of either shape. */
  lemma ProcessedAreSited(body: seq<Stmt>, names: seq<string>)
    ensures Processed(FixEntries(body, names)) == SitedNames(body, names)
  {
    forall p ensures p in Processed(FixEntries(body, names)) <==> p in SitedNames(body, names) {
      if p in Processed(FixEntries(body, names)) {
        ProcessedIsSited(body, names, p);
      }
      if p in SitedNames(body, names) {
        SitedIsProcessed(body, names, p);
      }
    }
  }

  lemma ProcessedIsSited(body: seq<Stmt>, names: seq<string>, p: string)
    requires p in Processed(FixEntries(body, names))
    ensures p in SitedNames(body, names)
  {
    var e :| e in FixEntries(body, names) && e.param == p;
    var i, site := EntryOrigin(body, names, e);
    assert names[i] == p;
  }

  lemma SitedIsProcessed(body: seq<Stmt>, names: seq<string>, p: string)
    requires p in SitedNames(body, names)
    ensures p in Processed(FixEntries(body, names))
  {
    var i :| 0 <= i < |names| && names[i] == p;
    if FirstSite(body, p, DeclarationSite).Some? {
      var e := DeclarationEntry(body, p).value;
      assert Entries(body, names, DeclarationSite)[i] == Some(e);
      assert e in FixEntries(body, names);
    } else {
      var e := AssignmentEntry(body, p).value;
      assert Entries(body, names, AssignmentSite)[i] == Some(e);
      assert e in FixEntries(body, names);
    }
  }

  /** The guards the as-written fix prepends are one per listed name that
      has no site, in the order of the names and without repetition. */
  lemma AsWrittenGuardsTheUnsited(body: seq<Stmt>, names: seq<string>, ft: FixType)
    ensures var r := CoalesceBodyAsWritten(body, names, ft);
            var g := ExceptDistinct(names, SitedNames(body, names));
            && |r| == |g| + |body|
            && r[..|g|] == Guards(g, ft)
            && r[|g|..] == ApplyEntries(body, FixEntries(body, names))
            && NoDuplicates(g)
            && forall p :: p in g <==> p in names && FirstSite(body, p, DeclarationSite).None?
                                                  && FirstSite(body, p, AssignmentSite).None?
  {
    ProcessedAreSited(body, names);
  }

  /** Two statement lists that agree on whether `p` can be rewritten at each
      index have the same first site for `p`. */
  lemma {:induction false} SameFirstSite(b: seq<Stmt>, body: seq<Stmt>, p: string, site: Site)
    requires |b| == |body|
    requires forall k :: 0 <= k < |body| ==> (Rewritable(b[k], p, site) <==> Rewritable(body[k], p, site))
    ensures FirstSite(b, p, site) == FirstSite(body, p, site)
    decreases |body|
  {
    if |body| > 0 && !Rewritable(body[0], p, site) {
      assert forall k :: 0 <= k < |body| - 1 ==> b[1..][k] == b[k + 1] && body[1..][k] == body[k + 1];
      SameFirstSite(b[1..], body[1..], p, site);
    }
  }

  /** Rewriting a statement for one name leaves it rewritable, or not, for
      any other name. */
  lemma RewritableAfterOtherRewrite(s: Stmt, q: string, p: string, site: Site)
    requires Rewritable(s, q, site) && q != p
    ensures Rewritable(Rewrite(s, q, site), p, site) <==> Rewritable(s, p, site)
  {
    if site == DeclarationSite {
      var ds := s.declarators;
      var j := FirstDeclarator(ds, Some(q));
      var ds' := Rewrite(s, q, site).declarators;
      assert ds' == ds[j := Declarator(ds[j].name, Some(CoalesceGuarded(q)))];
      if Rewritable(s, p, site) {
        var m :| 0 <= m < |ds| && ds[m].init == Some(Identifier(p));
        assert ds'[m] == ds[m];
      }
      if Rewritable(Rewrite(s, q, site), p, site) {
        var m :| 0 <= m < |ds'| && ds'[m].init == Some(Identifier(p));
        assert m != j;
        assert ds'[m] == ds[m];
      }
    }
  }

  /** The corrected rewrites of one shape, applied one name after the other,
      end where rewriting every first site at once does, when the names are
      distinct and have distinct sites; the rewritten names are exactly the
      listed ones with a site. */
  lemma {:induction false} RewriteAllAtOnce(body: seq<Stmt>, names: seq<string>, site: Site)
    requires NoDuplicates(names) && DistinctSites(body, names, site)
    ensures RewrittenAtOnce(body, names, site, RewriteAll(body, names, site).0)
    ensures forall p :: p in RewriteAll(body, names, site).1 <==> p in names && FirstSite(body, p, site).Some?
    decreases |names|
  {
    if |names| > 0 {
      var init := names[..|names| - 1];
      var p := names[|names| - 1];
      DropLastName(body, names, site);
      RewriteAllAtOnce(body, init, site);
      var b := RewriteAll(body, init, site).0;
      FirstSiteKept(body, init, p, site, b);
      RewriteAllLastStep(body, init, p, site, b, RewriteAll(body, init, site).1);
    }
  }

  /** Without its last name the list keeps its conditions, and the last name
      is not among the others. */
  lemma DropLastName(body: seq<Stmt>, names: seq<string>, site: Site)
    requires |names| > 0 && NoDuplicates(names) && DistinctSites(body, names, site)
    ensures var init := names[..|names| - 1];
            && names == init + [names[|names| - 1]]
            && NoDuplicates(init) && DistinctSites(body, init, site) && names[|names| - 1] !in init
  {
    var init := names[..|names| - 1];
    assert forall i :: 0 <= i < |init| ==> init[i] == names[i];
  }

  /** Rewriting the first sites of other names keeps a name's first site. */
  lemma FirstSiteKept(body: seq<Stmt>, init: seq<string>, p: string, site: Site, b: seq<Stmt>)
    requires p !in init && RewrittenAtOnce(body, init, site, b)
    ensures FirstSite(b, p, site) == FirstSite(body, p, site)
  {
    forall k | 0 <= k < |body| ensures Rewritable(b[k], p, site) <==> Rewritable(body[k], p, site) {
      if !Untargeted(body, init, site, k) {
        var i :| 0 <= i < |init| && FirstSite(body, init[i], site) == Some(k);
        RewritableAfterOtherRewrite(body[k], init[i], p, site);
      }
    }
    SameFirstSite(b, body, p, site);
  }

  /** The step of `RewriteAllAtOnce` for the last name. */
  lemma RewriteAllLastStep(body: seq<Stmt>, init: seq<string>, p: string, site: Site, b: seq<Stmt>, done: set<string>)
    requires p !in init && DistinctSites(body, init + [p], site)
    requires RewrittenAtOnce(body, init, site, b)
    requires forall q :: q in done <==> q in init && FirstSite(body, q, site).Some?
    requires FirstSite(b, p, site) == FirstSite(body, p, site)
    ensures RewrittenAtOnce(body, init + [p], site, RewriteFirst(b, p, site).0)
    ensures forall q :: q in (if RewriteFirst(b, p, site).1 then done + {p} else done) <==>
                          q in init + [p] && FirstSite(body, q, site).Some?
  {
    UntargetedSnoc(body, init, p, site);
    match FirstSite(body, p, site)
    case None =>
      LastStepWithoutSite(body, init, p, site, b);
    case Some(k0) =>
      LastSiteIsFree(body, init, p, site);
      LastStepWithSite(body, init, p, site, b, k0);
  }

  /** A statement is untargeted by the names plus `p` exactly when it is
      untargeted by the names and is not `p`'s first site. */
  lemma UntargetedSnoc(body: seq<Stmt>, init: seq<string>, p: string, site: Site)
    ensures forall k: nat :: Untargeted(body, init + [p], site, k) <==>
                          Untargeted(body, init, site, k) && FirstSite(body, p, site) != Some(k)
  {
    var names := init + [p];
    assert forall i :: 0 <= i < |init| ==> names[i] == init[i];
    assert names[|init|] == p;
  }

  /** The first site of a new name is no site of the earlier ones. */
  lemma LastSiteIsFree(body: seq<Stmt>, init: seq<string>, p: string, site: Site)
    requires p !in init && DistinctSites(body, init + [p], site)
    requires FirstSite(body, p, site).Some?
    ensures Untargeted(body, init, site, FirstSite(body, p, site).value)
  {
    var names := init + [p];
    forall i | 0 <= i < |init| ensures FirstSite(body, init[i], site) != FirstSite(body, p, site) {
      assert names[i] == init[i] && names[|init|] == p;
    }
  }

  lemma LastStepWithoutSite(body: seq<Stmt>, init: seq<string>, p: string, site: Site, b: seq<Stmt>)
    requires RewrittenAtOnce(body, init, site, b)
    requires FirstSite(body, p, site).None?
    requires forall k: nat :: Untargeted(body, init + [p], site, k) <==> Untargeted(body, init, site, k)
    ensures RewrittenAtOnce(body, init + [p], site, b)
  {
    var names := init + [p];
    assert forall i :: 0 <= i < |init| ==> names[i] == init[i];
  }

  lemma LastStepWithSite(body: seq<Stmt>, init: seq<string>, p: string, site: Site, b: seq<Stmt>, k0: nat)
    requires RewrittenAtOnce(body, init, site, b)
    requires FirstSite(body, p, site) == Some(k0)
    requires Untargeted(body, init, site, k0)
    requires forall k: nat :: Untargeted(body, init + [p], site, k) <==> Untargeted(body, init, site, k) && k != k0
    ensures b[k0] == body[k0]
    ensures RewrittenAtOnce(body, init + [p], site, b[k0 := Rewrite(body[k0], p, site)])
  {
    LastStepSites(body, init, p, site, b, k0);
    LastStepUntouched(body, init, p, site, b, k0);
  }

  lemma LastStepSites(body: seq<Stmt>, init: seq<string>, p: string, site: Site, b: seq<Stmt>, k0: nat)
    requires RewrittenAtOnce(body, init, site, b)
    requires FirstSite(body, p, site) == Some(k0)
    requires Untargeted(body, init, site, k0)
    ensures var names := init + [p];
            var b' := b[k0 := Rewrite(body[k0], p, site)];
            forall i :: 0 <= i < |names| && FirstSite(body, names[i], site).Some? ==>
              b'[FirstSite(body, names[i], site).value] == Rewrite(body[FirstSite(body, names[i], site).value], names[i], site)
  {
    var names := init + [p];
    var b' := b[k0 := Rewrite(body[k0], p, site)];
    forall i | 0 <= i < |names| && FirstSite(body, names[i], site).Some?
      ensures b'[FirstSite(body, names[i], site).value] ==
                Rewrite(body[FirstSite(body, names[i], site).value], names[i], site)
    {
      if i < |init| {
        assert names[i] == init[i];
        var x := FirstSite(body, init[i], site).value;
        assert x != k0;
        assert b'[x] == b[x];
      } else {
        assert names[i] == p;
      }
    }
  }

  lemma LastStepUntouched(body: seq<Stmt>, init: seq<string>, p: string, site: Site, b: seq<Stmt>, k0: nat)
    requires RewrittenAtOnce(body, init, site, b)
    requires FirstSite(body, p, site) == Some(k0)
    requires Untargeted(body, init, site, k0)
    requires forall k: nat :: Untargeted(body, init + [p], site, k) <==> Untargeted(body, init, site, k) && k != k0
    ensures b[k0] == body[k0]
    ensures var b' := b[k0 := Rewrite(body[k0], p, site)];
            forall k :: 0 <= k < |body| && Untargeted(body, init + [p], site, k) ==> b'[k] == body[k]
  {
    var b' := b[k0 := Rewrite(body[k0], p, site)];
    forall k | 0 <= k < |body| && Untargeted(body, init + [p], site, k) ensures b'[k] == body[k] {
      assert k != k0 && Untargeted(body, init, site, k);
      assert b'[k] == b[k];
    }
  }

  /** `b` is `body` with every listed name's first declaration site and
      first assignment site rewritten for that name, all at once. */
  ghost predicate BothRewrittenAtOnce(body: seq<Stmt>, names: seq<string>, b: seq<Stmt>)
  {
    && |b| == |body|
    && (forall i :: 0 <= i < |names| && FirstSite(body, names[i], DeclarationSite).Some? ==>
          b[FirstSite(body, names[i], DeclarationSite).value] ==
            Rewrite(body[FirstSite(body, names[i], DeclarationSite).value], names[i], DeclarationSite))
    && (forall i :: 0 <= i < |names| && FirstSite(body, names[i], AssignmentSite).Some? ==>
          b[FirstSite(body, names[i], AssignmentSite).value] ==
            Rewrite(body[FirstSite(body, names[i], AssignmentSite).value], names[i], AssignmentSite))
    && (forall k ::
          (0 <= k < |body| && Untargeted(body, names, DeclarationSite, k) && Untargeted(body, names, AssignmentSite, k))
          ==> b[k] == body[k])
  }

  /** The reference determines the rewritten body. */
  lemma BothRewrittenAtOnceUnique(body: seq<Stmt>, names: seq<string>, b: seq<Stmt>, b': seq<Stmt>)
    requires BothRewrittenAtOnce(body, names, b) && BothRewrittenAtOnce(body, names, b')
    ensures b == b'
  {
    forall k | 0 <= k < |body| ensures b[k] == b'[k] {
      if !Untargeted(body, names, DeclarationSite, k) {
        var i :| 0 <= i < |names| && FirstSite(body, names[i], DeclarationSite) == Some(k);
      } else if !Untargeted(body, names, AssignmentSite, k) {
        var i :| 0 <= i < |names| && FirstSite(body, names[i], AssignmentSite) == Some(k);
      }
    }
  }

  /** A declaration site is never an assignment site. */
  lemma SitesDiffer(s: Stmt, p: string, q: string)
    ensures !(Rewritable(s, p, DeclarationSite) && Rewritable(s, q, AssignmentSite))
  {
  }

  /** The corrected coalesce rewrites, declarations then assignments, are
      the rewrite of every first site at once, and rewrite exactly the
      listed names that have a site. */
  lemma CorrectedRewritesAtOnce(body: seq<Stmt>, names: seq<string>)
    requires NoDuplicates(names)
    requires DistinctSites(body, names, DeclarationSite) && DistinctSites(body, names, AssignmentSite)
    ensures var first := RewriteAll(body, names, DeclarationSite);
            var second := RewriteAll(first.0, names, AssignmentSite);
            && BothRewrittenAtOnce(body, names, second.0)
            && first.1 + second.1 == SitedNames(body, names)
  {
    var first := RewriteAll(body, names, DeclarationSite);
    RewriteAllAtOnce(body, names, DeclarationSite);
    forall p ensures FirstSite(first.0, p, AssignmentSite) == FirstSite(body, p, AssignmentSite) {
      AssignmentSiteSurvives(body, names, first.0, p);
    }
    assert DistinctSites(first.0, names, AssignmentSite);
    var second := RewriteAll(first.0, names, AssignmentSite);
    RewriteAllAtOnce(first.0, names, AssignmentSite);
    ComposeStages(body, names, first.0, second.0);
  }

  /** Rewriting declarations moves no first assignment site. */
  lemma AssignmentSiteSurvives(body: seq<Stmt>, names: seq<string>, b1: seq<Stmt>, p: string)
    requires RewrittenAtOnce(body, names, DeclarationSite, b1)
    ensures FirstSite(b1, p, AssignmentSite) == FirstSite(body, p, AssignmentSite)
  {
    forall k | 0 <= k < |body|
      ensures Rewritable(b1[k], p, AssignmentSite) <==> Rewritable(body[k], p, AssignmentSite)
    {
      if !Untargeted(body, names, DeclarationSite, k) {
        var i :| 0 <= i < |names| && FirstSite(body, names[i], DeclarationSite) == Some(k);
        SitesDiffer(body[k], names[i], p);
      }
    }
    SameFirstSite(b1, body, p, AssignmentSite);
  }

  /** The two stages together rewrite both kinds of first site at once. */
  lemma ComposeStages(body: seq<Stmt>, names: seq<string>, b1: seq<Stmt>, b2: seq<Stmt>)
    requires RewrittenAtOnce(body, names, DeclarationSite, b1)
    requires RewrittenAtOnce(b1, names, AssignmentSite, b2)
    requires forall p :: FirstSite(b1, p, AssignmentSite) == FirstSite(body, p, AssignmentSite)
    ensures BothRewrittenAtOnce(body, names, b2)
  {
    forall k | 0 <= k < |body| && !Untargeted(body, names, DeclarationSite, k)
      ensures Untargeted(b1, names, AssignmentSite, k)
    {
      var i :| 0 <= i < |names| && FirstSite(body, names[i], DeclarationSite) == Some(k);
      forall j | 0 <= j < |names| ensures FirstSite(b1, names[j], AssignmentSite) != Some(k) {
        SitesDiffer(body[k], names[i], names[j]);
      }
    }
    forall k | 0 <= k < |body| && !Untargeted(body, names, AssignmentSite, k)
      ensures Untargeted(body, names, DeclarationSite, k)
    {
      var i :| 0 <= i < |names| && FirstSite(body, names[i], AssignmentSite) == Some(k);
      forall j | 0 <= j < |names| ensures FirstSite(body, names[j], DeclarationSite) != Some(k) {
        SitesDiffer(body[k], names[j], names[i]);
      }
    }
  }

  /** When the first initialised declarator holds `p`, it is also the first
      declarator holding `p`. */
  lemma OwnDeclaratorIsFirst(ds: seq<Declarator>, p: string)
    requires exists j :: 0 <= j < |ds| && ds[j].init == Some(Identifier(p))
    requires ds[FirstDeclarator(ds, None)].init == Some(Identifier(p))
    ensures FirstDeclarator(ds, Some(p)) == FirstDeclarator(ds, None)
  {
  }

  /** Where an entry comes from: the declaration or the assignment entry of
      one listed name. */
  lemma EntryOrigin(body: seq<Stmt>, names: seq<string>, e: FixEntry) returns (i: nat, site: Site)
    requires e in FixEntries(body, names)
    ensures i < |names|
    ensures site == DeclarationSite ==> DeclarationEntry(body, names[i]) == Some(e)
    ensures site == AssignmentSite ==> AssignmentEntry(body, names[i]) == Some(e)
  {
    var decl := Entries(body, names, DeclarationSite);
    var assign := Entries(body, names, AssignmentSite);
    if e in Present(decl) {
      i :| 0 <= i < |decl| && decl[i] == Some(e);
      site := DeclarationSite;
    } else {
      i :| 0 <= i < |assign| && assign[i] == Some(e);
      site := AssignmentSite;
    }
  }

  /** Writing in entries no two of which share an index puts each entry's
      replacement at its index. */
  lemma {:induction false} ApplyConsistent(body: seq<Stmt>, entries: seq<FixEntry>, e: FixEntry)
    requires forall x :: x in entries ==> x.index < |body|
    requires forall x, y :: x in entries && y in entries && x.index == y.index ==> x == y
    requires e in entries
    ensures ApplyEntries(body, entries)[e.index] == e.replacement
    decreases |entries|
  {
    var init := entries[..|entries| - 1];
    var last := entries[|entries| - 1];
    assert entries == init + [last];
    if last.index != e.index {
      assert e in init;
      ApplyConsistent(body, init, e);
    }
  }

  /** Under the conditions on declarators and assignments, the as-written
      entries written into the original body rewrite every first site at
      once: with distinct sites no entry overwrites another. */
  lemma AsWrittenRewritesAtOnce(body: seq<Stmt>, names: seq<string>)
    requires DistinctSites(body, names, DeclarationSite) && DistinctSites(body, names, AssignmentSite)
    requires OwnDeclaratorFirst(body, names) && PlainDeclarationSites(body, names) && SimpleAssignmentSites(body, names)
    ensures BothRewrittenAtOnce(body, names, ApplyEntries(body, FixEntries(body, names)))
  {
    EntriesDoNotCollide(body, names);
    AsWrittenDeclarationSites(body, names);
    AsWrittenAssignmentSites(body, names);
    AsWrittenUntargeted(body, names);
  }

  /** With distinct sites, two entries for the same statement are the same
      entry. */
  lemma EntriesDoNotCollide(body: seq<Stmt>, names: seq<string>)
    requires DistinctSites(body, names, DeclarationSite) && DistinctSites(body, names, AssignmentSite)
    ensures forall x, y :: x in FixEntries(body, names) && y in FixEntries(body, names) && x.index == y.index ==> x == y
  {
    var entries := FixEntries(body, names);
    forall x, y | x in entries && y in entries && x.index == y.index ensures x == y {
      EntryPairDoesNotCollide(body, names, x, y);
    }
  }

  lemma EntryPairDoesNotCollide(body: seq<Stmt>, names: seq<string>, x: FixEntry, y: FixEntry)
    requires DistinctSites(body, names, DeclarationSite) && DistinctSites(body, names, AssignmentSite)
    requires x in FixEntries(body, names) && y in FixEntries(body, names) && x.index == y.index
    ensures x == y
  {
    var i, s1 := EntryOrigin(body, names, x);
    var j, s2 := EntryOrigin(body, names, y);
    SitesDiffer(body[x.index], names[i], names[j]);
    SitesDiffer(body[x.index], names[j], names[i]);
  }

  lemma AsWrittenDeclarationSites(body: seq<Stmt>, names: seq<string>)
    requires forall x, y :: x in FixEntries(body, names) && y in FixEntries(body, names) && x.index == y.index ==> x == y
    requires OwnDeclaratorFirst(body, names) && PlainDeclarationSites(body, names)
    ensures forall i :: 0 <= i < |names| && FirstSite(body, names[i], DeclarationSite).Some? ==>
              ApplyEntries(body, FixEntries(body, names))[FirstSite(body, names[i], DeclarationSite).value] ==
                Rewrite(body[FirstSite(body, names[i], DeclarationSite).value], names[i], DeclarationSite)
  {
    forall i | 0 <= i < |names| && FirstSite(body, names[i], DeclarationSite).Some?
      ensures ApplyEntries(body, FixEntries(body, names))[FirstSite(body, names[i], DeclarationSite).value] ==
                Rewrite(body[FirstSite(body, names[i], DeclarationSite).value], names[i], DeclarationSite)
    {
      var k := FirstSite(body, names[i], DeclarationSite).value;
      var e := DeclarationEntry(body, names[i]).value;
      assert Entries(body, names, DeclarationSite)[i] == Some(e);
      OwnDeclaratorIsFirst(body[k].declarators, names[i]);
      ApplyConsistent(body, FixEntries(body, names), e);
    }
  }

  lemma AsWrittenAssignmentSites(body: seq<Stmt>, names: seq<string>)
    requires forall x, y :: x in FixEntries(body, names) && y in FixEntries(body, names) && x.index == y.index ==> x == y
    requires SimpleAssignmentSites(body, names)
    ensures forall i :: 0 <= i < |names| && FirstSite(body, names[i], AssignmentSite).Some? ==>
              ApplyEntries(body, FixEntries(body, names))[FirstSite(body, names[i], AssignmentSite).value] ==
                Rewrite(body[FirstSite(body, names[i], AssignmentSite).value], names[i], AssignmentSite)
  {
    forall i | 0 <= i < |names| && FirstSite(body, names[i], AssignmentSite).Some?
      ensures ApplyEntries(body, FixEntries(body, names))[FirstSite(body, names[i], AssignmentSite).value] ==
                Rewrite(body[FirstSite(body, names[i], AssignmentSite).value], names[i], AssignmentSite)
    {
      var e := AssignmentEntry(body, names[i]).value;
      assert Entries(body, names, AssignmentSite)[i] == Some(e);
      ApplyConsistent(body, FixEntries(body, names), e);
    }
  }

  lemma AsWrittenUntargeted(body: seq<Stmt>, names: seq<string>)
    ensures forall k ::
              (0 <= k < |body| && Untargeted(body, names, DeclarationSite, k) && Untargeted(body, names, AssignmentSite, k))
              ==> ApplyEntries(body, FixEntries(body, names))[k] == body[k]
  {
    forall k | 0 <= k < |body| && Untargeted(body, names, DeclarationSite, k) && Untargeted(body, names, AssignmentSite, k)
      ensures ApplyEntries(body, FixEntries(body, names))[k] == body[k]
    {
      forall e | e in FixEntries(body, names) ensures e.index != k {
        var i, site := EntryOrigin(body, names, e);
      }
    }
  }

  /** Wherever none of the four defects can show, the coalesce fix as the
      program performs it builds exactly the corrected body. */
  lemma AsWrittenAgreesWithCorrected(body: seq<Stmt>, names: seq<string>, ft: FixType)
    requires RewritesAgree(body, names)
    ensures CoalesceBodyAsWritten(body, names, ft) == CoalesceBody(body, names, ft)
  {
    var (b1, declared) := RewriteAll(body, names, DeclarationSite);
    var (b2, assignedNames) := RewriteAll(b1, names, AssignmentSite);
    CorrectedRewritesAtOnce(body, names);
    AsWrittenRewritesAtOnce(body, names);
    BothRewrittenAtOnceUnique(body, names, ApplyEntries(body, FixEntries(body, names)), b2);
    ProcessedAreSited(body, names);
  }

  // ---------------------------------------------------------------------
  // The fix of one constructor, as written
  // ---------------------------------------------------------------------

  /** `AddNullCheck` as the program performs it: the guard and contract
      fixes are those of `ConstructorNullFix.ApplyFix`; the coalesce fixes
      build their statements with the as-written rewrite. */
  function ApplyFixAsWritten(doc: Document, d: NullDiagnostic, ft: FixType): (r: Result<Document>)
    requires forall i :: 0 <= i < |d.parameterIndices| ==> d.parameterIndices[i] < |doc.ctor.parameters|
    ensures r.Failed? <==> doc.ctor.body.None?
    ensures r.Ok? ==> r.value.ctor.parameters == doc.ctor.parameters
                      && r.value.ctor.initializerArgs == doc.ctor.initializerArgs
                      && r.value.ctor.identifier == doc.ctor.identifier
    ensures !UsesCoalesce(ft) ==> r == ApplyFix(doc, d, ft)
    ensures r.Ok? && UsesCoalesce(ft) ==>
              var stmts := CoalesceBodyAsWritten(doc.ctor.body.value, FixParameterNames(doc.ctor, d), ft);
              (|stmts| == 0 ==> r.value == doc)
              && (|stmts| > 0 ==> r.value.ctor.body == Some(stmts) && r.value.usings == AddUsing(doc.usings, RequiredUsing(ft)))
  {
    if doc.ctor.body.None? || !UsesCoalesce(ft) then ApplyFix(doc, d, ft)
    else
      var stmts := CoalesceBodyAsWritten(doc.ctor.body.value, FixParameterNames(doc.ctor, d), ft);
      if |stmts| == 0 then Ok(doc)
      else Ok(Document(AddUsing(doc.usings, RequiredUsing(ft)), doc.ctor.(body := Some(stmts))))
  }

  /** The program's fix is the corrected one for the guard and contract
      fixes always, and for the coalesce fixes wherever none of the four
      defects can show. */
  lemma AsWrittenFixAgrees(doc: Document, d: NullDiagnostic, ft: FixType)
    requires forall i :: 0 <= i < |d.parameterIndices| ==> d.parameterIndices[i] < |doc.ctor.parameters|
    requires doc.ctor.body.Some? && UsesCoalesce(ft) ==> RewritesAgree(doc.ctor.body.value, FixParameterNames(doc.ctor, d))
    ensures ApplyFixAsWritten(doc, d, ft) == ApplyFix(doc, d, ft)
  {
    if doc.ctor.body.Some? && UsesCoalesce(ft) {
      AsWrittenAgreesWithCorrected(doc.ctor.body.value, FixParameterNames(doc.ctor, d), ft);
    }
  }

  /** The program's fix silences the analyzer: always for the guard and
      contract fixes, and for the coalesce fixes on the inputs where none of
      the four defects can show (`OverwrittenRewriteLeavesAParameterUnchecked`
      is an input where one does). */
  lemma AsWrittenFixSilencesAnalyzer(doc: Document, symbols: seq<Symbol>, d: NullDiagnostic, ft: FixType)
    requires AnalyzeConstructor(doc.ctor, symbols) == Ok(Some(d))
    requires forall i :: 0 <= i < |doc.ctor.parameters| ==> doc.ctor.parameters[i].name != ""
    requires UsesCoalesce(ft) ==> RewritesAgree(doc.ctor.body.value, FixParameterNames(doc.ctor, d))
    ensures ApplyFixAsWritten(doc, d, ft).Ok?
    ensures AnalyzeConstructor(ApplyFixAsWritten(doc, d, ft).value.ctor, symbols) == Ok(None)
  {
    FixSilencesAnalyzer(doc, symbols, d, ft);
    AsWrittenFixAgrees(doc, d, ft);
  }

  // ---------------------------------------------------------------------
  // Where the two disagree
  // ---------------------------------------------------------------------

  const StringType := "string"

  /** `string a = "x", b = p;` in a constructor taking `string p`. */
  function LaterDeclarator(): seq<Stmt>
  {
    [LocalDecl([], StringType, [Declarator("a", Some(OtherExpr("\"x\""))), Declarator("b", Some(Identifier("p")))])]
  }

  /** The as-written new body when the entries are known and every name has one. */
  lemma AsWrittenWithEntries(body: seq<Stmt>, names: seq<string>, ft: FixType, entries: seq<FixEntry>)
    requires FixEntries(body, names) == entries
    requires ExceptDistinct(names, Processed(entries)) == []
    ensures forall e :: e in entries ==> e.index < |body|
    ensures CoalesceBodyAsWritten(body, names, ft) == ApplyEntries(body, entries)
  {
  }

  lemma PresentOne(o: Option<FixEntry>)
    ensures Present([o]) == if o.Some? then [o.value] else []
  {
    assert [o][1..] == [];
  }

  lemma PresentTwo(o1: Option<FixEntry>, o2: Option<FixEntry>)
    ensures Present([o1, o2]) == Present([o1]) + Present([o2])
  {
    assert [o1, o2][1..] == [o2];
    PresentOne(o1);
  }

  lemma ProcessedOne(e: FixEntry)
    ensures Processed([e]) == {e.param}
  {
  }

  lemma ProcessedTwo(e1: FixEntry, e2: FixEntry)
    ensures Processed([e1, e2]) == {e1.param, e2.param}
  {
  }

  /** An entry for the only statement of a body replaces it. */
  lemma ApplyOne(body: seq<Stmt>, e: FixEntry)
    requires |body| == 1 && e.index == 0
    ensures ApplyEntries(body, [e]) == [e.replacement]
  {
    assert [e][..0] == [];
    assert body[0 := e.replacement] == [e.replacement];
  }

  /** Of two entries for the only statement of a body, the later wins. */
  lemma ApplyTwo(body: seq<Stmt>, e1: FixEntry, e2: FixEntry)
    requires |body| == 1 && e1.index == 0 && e2.index == 0
    ensures ApplyEntries(body, [e1, e2]) == [e2.replacement]
  {
    assert [e1, e2][..1] == [e1];
    ApplyOne(body, e1);
    assert [e1.replacement][0 := e2.replacement] == [e2.replacement];
  }

  /** The entries for a single name. */
  lemma SingleNameEntries(body: seq<Stmt>, p: string)
    ensures var d := DeclarationEntry(body, p);
            var a := AssignmentEntry(body, p);
            FixEntries(body, [p]) == (if d.Some? then [d.value] else []) + (if a.Some? then [a.value] else [])
  {
    assert Entries(body, [p], DeclarationSite) == [DeclarationEntry(body, p)];
    assert Entries(body, [p], AssignmentSite) == [AssignmentEntry(body, p)];
    PresentOne(DeclarationEntry(body, p));
    PresentOne(AssignmentEntry(body, p));
  }

  /** With one name and one entry for it, the as-written body is the
      original with that entry written in and no guard. */
  lemma AsWrittenSingle(body: seq<Stmt>, p: string, ft: FixType, e: FixEntry)
    requires |body| == 1 && e.index == 0
    requires FixEntries(body, [p]) == [e] && e.param == p
    ensures CoalesceBodyAsWritten(body, [p], ft) == [e.replacement]
  {
    ProcessedOne(e);
    ExceptDistinctOne(p, {p});
    AsWrittenWithEntries(body, [p], ft, [e]);
    ApplyOne(body, e);
  }

  /** Two entries for the only statement of a body, every name processed:
      the later replacement is the whole new body. */
  lemma AsWrittenSameStatement(body: seq<Stmt>, names: seq<string>, ft: FixType, e1: FixEntry, e2: FixEntry)
    requires |body| == 1 && e1.index == 0 && e2.index == 0
    requires FixEntries(body, names) == [e1, e2]
    requires ExceptDistinct(names, Processed([e1, e2])) == []
    ensures CoalesceBodyAsWritten(body, names, ft) == [e2.replacement]
  {
    AsWrittenWithEntries(body, names, ft, [e1, e2]);
    ApplyTwo(body, e1, e2);
  }

  /** The analysis of a constructor whose symbols, body checks and
      reference parameters are known. */
  lemma AnalyzedNames(c: Constructor, symbols: seq<Symbol>, table: map<string, bool>, checked: set<string>)
    requires SymbolTable(symbols) == Ok(table)
    requires c.body.Some? && CheckedIdentifiers(c.body.value) == Ok(checked)
    ensures var names := ExceptDistinct(ReferenceParameters(c.parameters, table), BaseParameters(c) + checked);
            var r := AnalyzeConstructor(c, symbols);
            && r.Ok? && (r.value.None? <==> |names| == 0)
            && (|names| > 0 ==> r.value.value.names == names)
  {
  }

  /** The declaration `string a = p ?? throw ..., b = p;`: the as-written
      rewrite of `LaterDeclarator`. */
  function WrongRewrite(): Stmt
  {
    LocalDecl([], StringType, [Declarator("a", Some(CoalesceGuarded("p"))), Declarator("b", Some(Identifier("p")))])
  }

  /** `p` has one entry, for the declaration, with the wrong declarator
      coalesced. */
  lemma LaterDeclaratorEntries()
    ensures FixEntries(LaterDeclarator(), ["p"]) == [FixEntry(0, WrongRewrite(), "p")]
  {
    var body := LaterDeclarator();
    var s := body[0];
    assert s.declarators[1].init == Some(Identifier("p"));
    assert FirstSite(body, "p", DeclarationSite) == Some(0);
    assert FirstDeclarator(s.declarators, None) == 0;
    assert FirstSite(body, "p", AssignmentSite) == None;
    assert s.declarators[0 := Declarator("a", Some(CoalesceGuarded("p")))] == WrongRewrite().declarators;
    SingleNameEntries(body, "p");
  }

  /** The first initialised declarator is coalesced although it does not hold
      the parameter: `a` is now initialised from `p`, so the fixed body means
      something else than the original. */
  lemma WrongDeclaratorIsCoalesced()
    ensures var r := CoalesceBodyAsWritten(LaterDeclarator(), ["p"], SimpleIfPlusCoalesce);
            && r == [WrongRewrite()]
            && UnguardBody(r) != UnguardBody(LaterDeclarator())
  {
    LaterDeclaratorEntries();
    AsWrittenSingle(LaterDeclarator(), "p", SimpleIfPlusCoalesce, FixEntry(0, WrongRewrite(), "p"));
    WrongRewriteChangesMeaning();
  }

  /** Read without its guard, the wrong rewrite initialises `a` from `p`. */
  lemma WrongRewriteChangesMeaning()
    ensures UnguardBody([WrongRewrite()]) != UnguardBody(LaterDeclarator())
  {
    assert UnguardBody([WrongRewrite()])[0].declarators[0] == Declarator("a", Some(Identifier("p")));
    assert UnguardBody(LaterDeclarator())[0].declarators[0] == Declarator("a", Some(OtherExpr("\"x\"")));
  }

  /** The rewrites for a single parameter are its one rewrite step. */
  lemma RewriteAllSingle(body: seq<Stmt>, p: string, site: Site)
    ensures var (b, rewritten) := RewriteFirst(body, p, site);
            RewriteAll(body, [p], site) == (b, if rewritten then {p} else {})
  {
    assert [p][..0] == [];
    assert RewriteAll(body, [], site) == (body, {});
    var none: set<string> := {};
    assert none + {p} == {p};
  }

  /** The corrected rewrite coalesces the declarator that holds `p`. */
  lemma RightDeclaratorIsCoalesced()
    ensures CoalesceBody(LaterDeclarator(), ["p"], SimpleIfPlusCoalesce) ==
              [LocalDecl([], StringType, [Declarator("a", Some(OtherExpr("\"x\""))), Declarator("b", Some(CoalesceGuarded("p")))])]
  {
    var body := LaterDeclarator();
    var s := body[0];
    assert s.declarators[1].init == Some(Identifier("p"));
    assert FirstSite(body, "p", DeclarationSite) == Some(0);
    assert FirstDeclarator(s.declarators, Some("p")) == 1 by {
      assert FirstDeclarator(s.declarators[1..], Some("p")) == 0;
    }
    var b1 := [LocalDecl([], StringType, [Declarator("a", Some(OtherExpr("\"x\""))), Declarator("b", Some(CoalesceGuarded("p")))])];
    assert s.declarators[1 := Declarator("b", Some(CoalesceGuarded("p")))] == b1[0].declarators;
    RewriteAllSingle(body, "p", DeclarationSite);
    RewriteAllSingle(b1, "p", AssignmentSite);
    assert Rewrite(s, "p", DeclarationSite) == b1[0];
    assert body[0 := b1[0]] == b1;
    assert RewriteFirst(body, "p", DeclarationSite) == (b1, true);
    assert RewriteAll(body, ["p"], DeclarationSite) == (b1, {"p"});
    assert FirstSite(b1, "p", AssignmentSite) == None;
    assert RewriteAll(b1, ["p"], AssignmentSite) == (b1, {});
    assert ExceptDistinct(["p"], {"p"}) == [];
  }

  /** `string a = p1, b = p2;` in a constructor taking `string p1, string p2`. */
  function TwoParameters(): Constructor
  {
    Constructor("C", [Parameter("p1", PredefinedType("string")), Parameter("p2", PredefinedType("string"))], None,
                Some([LocalDecl([], StringType, [Declarator("a", Some(Identifier("p1"))), Declarator("b", Some(Identifier("p2")))])]))
  }

  /** The declaration `string a = p2 ?? throw ..., b = p2;`: what survives of
      the two rewrites. */
  function Overwritten(): Stmt
  {
    LocalDecl([], StringType, [Declarator("a", Some(CoalesceGuarded("p2"))), Declarator("b", Some(Identifier("p2")))])
  }

  /** The declaration `string a = p1 ?? throw ..., b = p2;`: the rewrite
      planned for `p1`. */
  function FirstRewrite(): Stmt
  {
    LocalDecl([], StringType, [Declarator("a", Some(CoalesceGuarded("p1"))), Declarator("b", Some(Identifier("p2")))])
  }

  /** Both parameters get a declaration entry for the same statement, and
      neither gets an assignment entry. */
  lemma TwoParametersEntries()
    ensures Entries(TwoParameters().body.value, ["p1", "p2"], DeclarationSite) ==
              [Some(FixEntry(0, FirstRewrite(), "p1")), Some(FixEntry(0, Overwritten(), "p2"))]
    ensures Entries(TwoParameters().body.value, ["p1", "p2"], AssignmentSite) == [None, None]
  {
    var body := TwoParameters().body.value;
    var s := body[0];
    assert s.declarators[0].init == Some(Identifier("p1"));
    assert s.declarators[1].init == Some(Identifier("p2"));
    assert FirstSite(body, "p1", DeclarationSite) == Some(0);
    assert FirstSite(body, "p2", DeclarationSite) == Some(0);
    assert FirstSite(body, "p1", AssignmentSite) == None;
    assert FirstSite(body, "p2", AssignmentSite) == None;
    assert FirstDeclarator(s.declarators, None) == 0;
    assert s.declarators[0 := Declarator("a", Some(CoalesceGuarded("p1")))] == FirstRewrite().declarators;
    assert s.declarators[0 := Declarator("a", Some(CoalesceGuarded("p2")))] == Overwritten().declarators;
  }

  /** The entry list of the two-parameter constructor. */
  lemma TwoParametersFixEntries()
    ensures FixEntries(TwoParameters().body.value, ["p1", "p2"]) ==
              [FixEntry(0, FirstRewrite(), "p1"), FixEntry(0, Overwritten(), "p2")]
  {
    var e1 := FixEntry(0, FirstRewrite(), "p1");
    var e2 := FixEntry(0, Overwritten(), "p2");
    var none: Option<FixEntry> := None;
    TwoParametersEntries();
    PresentTwo(Some(e1), Some(e2));
    PresentOne(Some(e2));
    PresentTwo(none, none);
  }

  /** Both names have an entry, so no guard is planned. */
  lemma TwoParametersAllProcessed()
    ensures ExceptDistinct(["p1", "p2"], Processed(FixEntries(TwoParameters().body.value, ["p1", "p2"]))) == []
  {
    TwoParametersFixEntries();
    ProcessedTwo(FixEntry(0, FirstRewrite(), "p1"), FixEntry(0, Overwritten(), "p2"));
    ExceptDistinctTwo("p1", "p2", {"p1", "p2"});
  }

  /** Both parameters' rewrites target the same statement and only the later
      one survives; both count as processed, so no guard is added either. */
  lemma LaterRewriteOverwritesEarlier()
    ensures CoalesceBodyAsWritten(TwoParameters().body.value, ["p1", "p2"], SimpleIfPlusCoalesce) == [Overwritten()]
  {
    TwoParametersFixEntries();
    TwoParametersAllProcessed();
    AsWrittenSameStatement(TwoParameters().body.value, ["p1", "p2"], SimpleIfPlusCoalesce,
                           FixEntry(0, FirstRewrite(), "p1"), FixEntry(0, Overwritten(), "p2"));
  }

  /** Both parameters of the two-parameter constructor need a check. */
  lemma TwoParametersNeedChecks()
    ensures ReferenceParameters(TwoParameters().parameters, map[]) == ["p1", "p2"]
  {
    var ps := TwoParameters().parameters;
    assert ps[..1] == [ps[0]];
    assert ps[..1][..0] == [];
    assert CheckNecessity(ps[0].typ, map[]) && CheckNecessity(ps[1].typ, map[]);
    assert ReferenceParameters(ps[..1], map[]) == ["p1"];
  }

  /** The surviving declaration checks `p2` only. */
  lemma OverwrittenChecksOnlyTheLater()
    ensures CheckedIdentifiers([Overwritten()]) == Ok({"p2"})
  {
    var s := Overwritten();
    CheckedSingleton(s);
    assert CoalescedInDeclarators(s.declarators) == {"p2"} by {
      assert IsCoalesceOf(s.declarators[0].init.value, "p2");
      assert forall x :: IsCoalesceOf(s.declarators[0].init.value, x) ==> x == "p2";
      assert forall x :: !IsCoalesceOf(s.declarators[1].init.value, x);
    }
    assert CheckedInStatement(s) == Ok({"p2"});
    assert {"p2"} - {""} == {"p2"};
  }

  /** The original declaration checks nothing. */
  lemma TwoParametersCheckNothing()
    ensures CheckedIdentifiers(TwoParameters().body.value) == Ok({})
  {
    var s := TwoParameters().body.value[0];
    CheckedSingleton(s);
    assert CoalescedInDeclarators(s.declarators) == {} by {
      assert forall x :: !IsCoalesceOf(s.declarators[0].init.value, x);
      assert forall x :: !IsCoalesceOf(s.declarators[1].init.value, x);
    }
    assert CheckedInStatement(s) == Ok({});
  }

  /** Nothing removed keeps both names. */
  lemma NoneRemoved()
    ensures ExceptDistinct(["p1", "p2"], {} + {}) == ["p1", "p2"]
  {
    var none: set<string> := {};
    assert none + none == none;
    ExceptDistinctTwo("p1", "p2", none);
  }

  /** Before the fix both parameters are reported. */
  lemma TwoParametersReported()
    ensures var r := AnalyzeConstructor(TwoParameters(), []);
            r.Ok? && r.value.Some? && r.value.value.names == ["p1", "p2"]
  {
    assert SymbolTable([]) == Ok(map[]);
    TwoParametersNeedChecks();
    TwoParametersCheckNothing();
    assert BaseParameters(TwoParameters()) == {};
    AnalyzedNames(TwoParameters(), [], map[], {});
    NoneRemoved();
  }

  /** `TwoParameters` with the body the as-written fix gives it
      (`LaterRewriteOverwritesEarlier`). */
  function TwoParametersAsFixed(): Constructor
  {
    TwoParameters().(body := Some([Overwritten()]))
  }

  /** Of the two parameters only `p1` is left unchecked. */
  lemma OnlyP1Left()
    ensures ExceptDistinct(["p1", "p2"], {} + {"p2"}) == ["p1"]
  {
    var none: set<string> := {};
    assert none + {"p2"} == {"p2"};
    ExceptDistinctTwo("p1", "p2", {"p2"});
  }

  /** Analysed again, the as-written fix of `TwoParameters` is still reported,
      for `p1`; the corrected fix silences the analyzer for every constructor
      (`ConstructorNullFix.FixSilencesAnalyzer`). */
  lemma OverwrittenRewriteLeavesAParameterUnchecked()
    ensures var r := AnalyzeConstructor(TwoParametersAsFixed(), []);
            r.Ok? && r.value.Some? && r.value.value.names == ["p1"]
  {
    var fixed := TwoParametersAsFixed();
    assert SymbolTable([]) == Ok(map[]);
    TwoParametersNeedChecks();
    OverwrittenChecksOnlyTheLater();
    assert BaseParameters(fixed) == {};
    AnalyzedNames(fixed, [], map[], {"p2"});
    OnlyP1Left();
  }

  /** `f += p;` in a constructor taking `p`. */
  function CompoundAssignment(): seq<Stmt>
  {
    [ExpressionStmt(Assignment(CompoundAssign, Identifier("f"), Identifier("p")))]
  }

  /** `f = p ?? throw ...;`: the as-written rewrite of `CompoundAssignment`. */
  function SimpleRewrite(): Stmt
  {
    ExpressionStmt(Assignment(SimpleAssign, Identifier("f"), CoalesceGuarded("p")))
  }

  /** `p` has one entry, for the assignment, which becomes a simple one. */
  lemma CompoundAssignmentEntries()
    ensures FixEntries(CompoundAssignment(), ["p"]) == [FixEntry(0, SimpleRewrite(), "p")]
  {
    var body := CompoundAssignment();
    assert FirstSite(body, "p", AssignmentSite) == Some(0);
    assert FirstSite(body, "p", DeclarationSite) == None;
    SingleNameEntries(body, "p");
  }

  /** A compound assignment is turned into a simple one: `f += p` becomes
      `f = p ?? throw ...`, which no longer adds to `f`. */
  lemma CompoundAssignmentBecomesSimple()
    ensures var r := CoalesceBodyAsWritten(CompoundAssignment(), ["p"], SimpleIfPlusCoalesce);
            && r == [SimpleRewrite()]
            && UnguardBody(r) != UnguardBody(CompoundAssignment())
  {
    CompoundAssignmentEntries();
    AsWrittenSingle(CompoundAssignment(), "p", SimpleIfPlusCoalesce, FixEntry(0, SimpleRewrite(), "p"));
    SimpleRewriteChangesMeaning();
  }

  /** Read without its guard, the rewrite assigns with `=` where the
      original added with `+=`. */
  lemma SimpleRewriteChangesMeaning()
    ensures UnguardBody([SimpleRewrite()]) != UnguardBody(CompoundAssignment())
  {
    assert UnguardBody([SimpleRewrite()])[0].expr.assignOp == SimpleAssign;
  }

  /** The corrected rewrite keeps the compound operator. */
  lemma CompoundAssignmentKept()
    ensures CoalesceBody(CompoundAssignment(), ["p"], SimpleIfPlusCoalesce) ==
              [ExpressionStmt(Assignment(CompoundAssign, Identifier("f"), CoalesceGuarded("p")))]
  {
    var body := CompoundAssignment();
    assert FirstSite(body, "p", AssignmentSite) == Some(0);
    assert FirstSite(body, "p", DeclarationSite) == None;
    RewriteAllSingle(body, "p", DeclarationSite);
    var b2 := [ExpressionStmt(Assignment(CompoundAssign, Identifier("f"), CoalesceGuarded("p")))];
    RewriteAllSingle(body, "p", AssignmentSite);
    assert Rewrite(body[0], "p", AssignmentSite) == b2[0];
    assert body[0 := b2[0]] == b2;
    assert RewriteFirst(body, "p", AssignmentSite) == (b2, true);
    assert RewriteAll(body, ["p"], AssignmentSite) == (b2, {"p"});
    assert ExceptDistinct(["p"], {"p"}) == [];
  }

  /** `using var r = p;` in a constructor taking `Stream p`. */
  function UsingDeclaration(): seq<Stmt>
  {
    [LocalDecl(["using"], "var", [Declarator("r", Some(Identifier("p")))])]
  }

  /** `var r = p ?? throw ...;`: the as-written rewrite of `UsingDeclaration`. */
  function UsingDropped(): Stmt
  {
    LocalDecl([], "var", [Declarator("r", Some(CoalesceGuarded("p")))])
  }

  /** `p` has one entry, for the declaration, rebuilt without `using`. */
  lemma UsingDeclarationEntries()
    ensures FixEntries(UsingDeclaration(), ["p"]) == [FixEntry(0, UsingDropped(), "p")]
  {
    var body := UsingDeclaration();
    var s := body[0];
    assert s.declarators[0].init == Some(Identifier("p"));
    assert FirstSite(body, "p", DeclarationSite) == Some(0);
    assert FirstDeclarator(s.declarators, None) == 0;
    assert FirstSite(body, "p", AssignmentSite) == None;
    assert s.declarators[0 := Declarator("r", Some(CoalesceGuarded("p")))] == UsingDropped().declarators;
    SingleNameEntries(body, "p");
  }

  /** A `using` declaration loses its `using`: `r` is no longer disposed,
      so the fixed body means something else than the original. */
  lemma UsingIsDropped()
    ensures var r := CoalesceBodyAsWritten(UsingDeclaration(), ["p"], SimpleIfPlusCoalesce);
            && r == [UsingDropped()]
            && UnguardBody(r) != UnguardBody(UsingDeclaration())
  {
    UsingDeclarationEntries();
    AsWrittenSingle(UsingDeclaration(), "p", SimpleIfPlusCoalesce, FixEntry(0, UsingDropped(), "p"));
    assert UnguardBody([UsingDropped()])[0].keywords == [];
    assert UnguardBody(UsingDeclaration())[0].keywords == ["using"];
  }

  /** The corrected rewrite keeps the `using` keyword. */
  lemma UsingIsKept()
    ensures CoalesceBody(UsingDeclaration(), ["p"], SimpleIfPlusCoalesce) ==
              [LocalDecl(["using"], "var", [Declarator("r", Some(CoalesceGuarded("p")))])]
  {
    var body := UsingDeclaration();
    var s := body[0];
    assert s.declarators[0].init == Some(Identifier("p"));
    assert FirstSite(body, "p", DeclarationSite) == Some(0);
    assert FirstDeclarator(s.declarators, Some("p")) == 0;
    var b1 := [LocalDecl(["using"], "var", [Declarator("r", Some(CoalesceGuarded("p")))])];
    assert s.declarators[0 := Declarator("r", Some(CoalesceGuarded("p")))] == b1[0].declarators;
    RewriteAllSingle(body, "p", DeclarationSite);
    RewriteAllSingle(b1, "p", AssignmentSite);
    assert Rewrite(s, "p", DeclarationSite) == b1[0];
    assert body[0 := b1[0]] == b1;
    assert RewriteFirst(body, "p", DeclarationSite) == (b1, true);
    assert RewriteAll(body, ["p"], DeclarationSite) == (b1, {"p"});
    assert FirstSite(b1, "p", AssignmentSite) == None;
    assert RewriteAll(b1, ["p"], AssignmentSite) == (b1, {});
    assert ExceptDistinct(["p"], {"p"}) == [];
  }
}
