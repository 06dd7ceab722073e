/**
 * `toDNF` and `toCNF` as evidently intended, with the soundness and shape
 * the as-written versions lack.  Three changes against `NormalForms` fix
 * the defects shown in `Findings`:
 *  - a disjunction's converted children are flattened into it, as the
 *    `_DForm` initialiser would do, so every term of a disjunctive normal
 *    form is a literal or a conjunction of literals;
 *  - in the distribution the right-hand term is split into its conjuncts,
 *    not its disjuncts;
 *  - a distribution whose every pair clashes gives the empty disjunction
 *    (false) instead of failing on `dnf[0]`, and the terms of the empty
 *    disjunction are none.
 * Two more serve the statement and the proof rather than a defect with a
 * wrong meaning:
 *  - a conjunction's converted children are flattened into it as well.
 *    As written, `toCNF` of `a&(b+(d&e))` keeps the clauses of the inner
 *    conversion in a nested conjunction: the meaning is right, but the
 *    result is not a conjunction of clauses;
 *  - duplicates are recognised by structure, ignoring positions, instead
 *    of by rendering.  The rendering is ambiguous on some trees
 *    (`!(a&b)&c` and `!a&b&c` both render as `!a&b&c`), so rendering
 *    equality does not imply equal meaning in general.  The conversions
 *    deduplicate only normal-form terms and clauses, where that ambiguity
 *    does not arise.
 * Only `positive = true` is modelled: the flag has no consistent meaning
 * in the source.
 */
module CorrectedForms {
  import opened Wrappers
  import opened Ast
  import opened Terms

  // ----- Structural equality -----

  /** The node with every position set to 0. */
  function Unplaced(n: Node): Node {
    match n
    case Var(_, x) => Var(0, x)
    case Neg(_, y) => Neg(0, Unplaced(y))
    case DForm(_, cs) => DForm(0, seq(|cs|, i requires 0 <= i < |cs| => Unplaced(cs[i])))
    case CForm(_, cs) => CForm(0, seq(|cs|, i requires 0 <= i < |cs| => Unplaced(cs[i])))
  }

  lemma {:induction false} UnplacedEval(n: Node, env: set<char>)
    ensures Eval(Unplaced(n), env) == Eval(n, env)
  {
    match n
    case Var(_, _) =>
    case Neg(_, y) => UnplacedEval(y, env);
    case DForm(_, cs) =>
      var us := Unplaced(n).children;
      forall i | 0 <= i < |cs| ensures Eval(us[i], env) == Eval(cs[i], env) {
        UnplacedEval(cs[i], env);
      }
      if Eval(n, env) {
        var i :| 0 <= i < |cs| && Eval(cs[i], env);
        assert Eval(us[i], env);
      }
    case CForm(_, cs) =>
      var us := Unplaced(n).children;
      forall i | 0 <= i < |cs| ensures Eval(us[i], env) == Eval(cs[i], env) {
        UnplacedEval(cs[i], env);
      }
  }

  /** Dropping structural duplicates keeps the meaning of a disjunction and of a conjunction. */
  lemma DedupKeepsTruth(ns: seq<Node>, env: set<char>)
    ensures forall y :: y in Dedup(ns, Unplaced) ==> y in ns
    ensures AnyTrue(Dedup(ns, Unplaced), env) <==> AnyTrue(ns, env)
    ensures AllTrue(Dedup(ns, Unplaced), env) <==> AllTrue(ns, env)
  {
    DedupSpec(ns, Unplaced);
    DedupAnyTrue(ns, env);
    DedupAllTrue(ns, env);
  }

  lemma DedupAnyTrue(ns: seq<Node>, env: set<char>)
    ensures AnyTrue(Dedup(ns, Unplaced), env) <==> AnyTrue(ns, env)
  {
    var r := Dedup(ns, Unplaced);
    DedupSpec(ns, Unplaced);
    if AnyTrue(ns, env) {
      var i :| 0 <= i < |ns| && Eval(ns[i], env);
      assert ns[i] in ns;
      var y :| y in r && Unplaced(y) == Unplaced(ns[i]);
      UnplacedEval(y, env);
      UnplacedEval(ns[i], env);
      var k :| 0 <= k < |r| && r[k] == y;
    }
    if AnyTrue(r, env) {
      var i :| 0 <= i < |r| && Eval(r[i], env);
      assert r[i] in ns;
      var k :| 0 <= k < |ns| && ns[k] == r[i];
    }
  }

  lemma DedupAllTrue(ns: seq<Node>, env: set<char>)
    ensures AllTrue(Dedup(ns, Unplaced), env) <==> AllTrue(ns, env)
  {
    var r := Dedup(ns, Unplaced);
    DedupSpec(ns, Unplaced);
    if AllTrue(ns, env) {
      forall i | 0 <= i < |r| ensures Eval(r[i], env) {
        assert r[i] in ns;
        var k :| 0 <= k < |ns| && ns[k] == r[i];
      }
    }
    if AllTrue(r, env) {
      forall i | 0 <= i < |ns| ensures Eval(ns[i], env) {
        assert ns[i] in ns;
        var y :| y in r && Unplaced(y) == Unplaced(ns[i]);
        UnplacedEval(y, env);
        UnplacedEval(ns[i], env);
        var k :| 0 <= k < |r| && r[k] == y;
      }
    }
  }

  // ----- Shapes -----

  /** A disjunction of literal terms, or one literal term. */
  predicate IsDnf(r: Node) {
    IsTerm(r) || (r.DForm? && forall i :: 0 <= i < |r.children| ==> IsTerm(r.children[i]))
  }

  /** A literal, or a disjunction of literals. */
  predicate IsClause(c: Node) {
    IsLiteral(c) || (c.DForm? && AllLiterals(c.children))
  }

  /** A conjunction of clauses, or one clause. */
  predicate IsCnf(r: Node) {
    IsClause(r) || (r.CForm? && forall i :: 0 <= i < |r.children| ==> IsClause(r.children[i]))
  }

  /** The terms of a disjunctive normal form: a disjunction's children, otherwise the term itself. */
  function TermsOf(r: Node): seq<Node> {
    if r.DForm? then r.children else [r]
  }

  /** Errors that can remain once the conversions are corrected. */
  predicate Residual(e: Error) {
    e == RecursionLimit || e == NoChildren
  }

  // ----- Disjunctive normal form -----

  function Dnf(n: Node, depth: nat): Result<Node>
    decreases depth, 0, 0
  {
    if depth == 0 then Err(RecursionLimit)
    else
      match n
      case Var(_, _) => Ok(n)
      case Neg(p, y) =>
        if y.Var? then Ok(n)
        else if y.Neg? then Dnf(y.negated, depth - 1)
        else
          var parts :- NegatedDnfs(y.children, depth - 1);
          if y.CForm? then Dnf(MkDForm(p, parts), depth - 1)
          else Dnf(MkCForm(p, parts), depth - 1)
      case DForm(p, cs) =>
        var ds :- DnfAll(cs, depth - 1);
        Ok(DForm(p, Dedup(Splice(ds, DisjunctionKind), Unplaced)))
      case CForm(p, cs) =>
        if cs == [] then Err(NoChildren)
        else
          var first :- DnfTerms(cs[0], depth - 1);
          var dnf :- Distribute(p, first, cs[1..], depth - 1);
          if |dnf| > 1 then Dnf(MkDForm(p, dnf), depth - 1)
          else if |dnf| == 1 then Ok(dnf[0])
          else Ok(DForm(p, []))
  }

  function DnfAll(cs: seq<Node>, depth: nat): Result<seq<Node>>
    decreases depth, 1, |cs|
  {
    if cs == [] then Ok([])
    else
      var init :- DnfAll(cs[..|cs| - 1], depth);
      var last :- Dnf(cs[|cs| - 1], depth);
      Ok(init + [last])
  }

  function NegatedDnfs(cs: seq<Node>, depth: nat): Result<seq<Node>>
    decreases depth, 1, |cs|
  {
    if cs == [] then Ok([])
    else
      var init :- NegatedDnfs(cs[..|cs| - 1], depth);
      var c := cs[|cs| - 1];
      var last :- Dnf(Neg(c.pos, c), depth);
      Ok(init + [last])
  }

  function DnfTerms(node: Node, depth: nat): Result<seq<Node>>
    decreases depth, 1, 0
  {
    var partial :- Dnf(node, depth);
    Ok(TermsOf(partial))
  }

  function Distribute(pos: int, dnf: seq<Node>, rest: seq<Node>, depth: nat): Result<seq<Node>>
    decreases depth, 2, |rest|
  {
    if rest == [] then Ok(dnf)
    else
      var dnf2 :- DnfTerms(rest[0], depth);
      var interm :- Cross(pos, dnf, dnf2);
      Distribute(pos, interm, rest[1..], depth)
  }

  function CrossRight(pos: int, dnf: seq<Node>, right: Node): Result<seq<Node>>
    decreases |dnf|
  {
    if dnf == [] then Ok([])
    else
      var init :- CrossRight(pos, dnf[..|dnf| - 1], right);
      var t :- PairTerm(pos, dnf[|dnf| - 1], Conjuncts(right));
      Ok(init + (if t.Some? then [t.value] else []))
  }

  function Cross(pos: int, dnf: seq<Node>, dnf2: seq<Node>): Result<seq<Node>>
    decreases |dnf2|
  {
    if dnf2 == [] then Ok([])
    else
      var init :- Cross(pos, dnf, dnf2[..|dnf2| - 1]);
      var last :- CrossRight(pos, dnf, dnf2[|dnf2| - 1]);
      Ok(init + last)
  }

  // ----- Conjunctive normal form -----

  function Cnf(n: Node, depth: nat): Result<Node>
    decreases depth, 0, 0
  {
    if depth == 0 then Err(RecursionLimit)
    else
      match n
      case Var(_, _) => Ok(n)
      case Neg(p, y) =>
        if y.Var? then Ok(n)
        else if y.Neg? then Cnf(y.negated, depth - 1)
        else
          var parts :- NegatedCnfs(y.children, depth - 1);
          if y.CForm? then Cnf(MkDForm(p, parts), depth - 1)
          else Cnf(MkCForm(p, parts), depth - 1)
      case DForm(p, cs) =>
        if AllLiterals(cs) then Ok(n)
        else
          var dnf :- Dnf(Neg(p, n), depth - 1);
          Cnf(Neg(p, dnf), depth - 1)
      case CForm(p, cs) =>
        var ds :- CnfAll(cs, depth - 1);
        Ok(CForm(p, Dedup(Splice(ds, ConjunctionKind), Unplaced)))
  }

  function CnfAll(cs: seq<Node>, depth: nat): Result<seq<Node>>
    decreases depth, 1, |cs|
  {
    if cs == [] then Ok([])
    else
      var init :- CnfAll(cs[..|cs| - 1], depth);
      var last :- Cnf(cs[|cs| - 1], depth);
      Ok(init + [last])
  }

  function NegatedCnfs(cs: seq<Node>, depth: nat): Result<seq<Node>>
    decreases depth, 1, |cs|
  {
    if cs == [] then Ok([])
    else
      var init :- NegatedCnfs(cs[..|cs| - 1], depth);
      var c := cs[|cs| - 1];
      var last :- Cnf(Neg(c.pos, c), depth);
      Ok(init + [last])
  }

  // ----- Soundness of the corrected disjunctive normal form -----

  predicate AllTerms(s: seq<Node>) {
    forall i :: 0 <= i < |s| ==> IsTerm(s[i])
  }

  lemma AppendTerms(a: seq<Node>, b: seq<Node>, env: set<char>)
    requires AllTerms(a) && AllTerms(b)
    ensures AllTerms(a + b)
    ensures AnyTrue(a + b, env) <==> AnyTrue(a, env) || AnyTrue(b, env)
  {
    AnyAllAppend(a, b, env);
    var r := a + b;
    assert forall i :: 0 <= i < |a| ==> r[i] == a[i];
    assert forall i :: |a| <= i < |r| ==> r[i] == b[i - |a|];
  }

  lemma AnySnoc(init: seq<Node>, last: Node, env: set<char>)
    ensures AnyTrue(init + [last], env) <==> AnyTrue(init, env) || Eval(last, env)
  {
    AnyAllAppend(init, [last], env);
    assert [last][0] == last;
  }

  /** One right term against every left term, split into its conjuncts: a sound conjunction of the two. */
  lemma {:induction false} CrossRightCorrect(pos: int, dnf: seq<Node>, right: Node, env: set<char>)
    requires AllTerms(dnf) && IsTerm(right)
    ensures CrossRight(pos, dnf, right).Ok?
    ensures AllTerms(CrossRight(pos, dnf, right).value)
    ensures AnyTrue(CrossRight(pos, dnf, right).value, env) <==> AnyTrue(dnf, env) && Eval(right, env)
    decreases |dnf|
  {
    if dnf != [] {
      var init := dnf[..|dnf| - 1];
      var last := dnf[|dnf| - 1];
      assert dnf == init + [last];
      CrossRightCorrect(pos, init, right, env);
      ConjunctsMeaning(right, env);
      PairTermLiterals(pos, last, Conjuncts(right), env);
      var a := CrossRight(pos, init, right).value;
      var t := PairTerm(pos, last, Conjuncts(right)).value;
      var b := if t.Some? then [t.value] else [];
      assert CrossRight(pos, dnf, right) == Ok(a + b);
      AppendTerms(a, b, env);
      AnySnoc(init, last, env);
      if t.Some? {
        assert AnyTrue(b, env) <==> Eval(t.value, env) by {
          assert b[0] == t.value;
        }
      }
    }
  }

  /** The distribution of two lists of terms is their conjunction, as a list of terms. */
  lemma {:induction false} CrossCorrect(pos: int, dnf: seq<Node>, dnf2: seq<Node>, env: set<char>)
    requires AllTerms(dnf) && AllTerms(dnf2)
    ensures Cross(pos, dnf, dnf2).Ok?
    ensures AllTerms(Cross(pos, dnf, dnf2).value)
    ensures AnyTrue(Cross(pos, dnf, dnf2).value, env) <==> AnyTrue(dnf, env) && AnyTrue(dnf2, env)
    decreases |dnf2|
  {
    if dnf2 != [] {
      var init := dnf2[..|dnf2| - 1];
      var last := dnf2[|dnf2| - 1];
      assert dnf2 == init + [last];
      CrossCorrect(pos, dnf, init, env);
      CrossRightCorrect(pos, dnf, last, env);
      var a := Cross(pos, dnf, init).value;
      var b := CrossRight(pos, dnf, last).value;
      assert Cross(pos, dnf, dnf2) == Ok(a + b);
      AppendTerms(a, b, env);
      AnySnoc(init, last, env);
    }
  }

  /**
   * The corrected `toDNF` never fails on a sort key or an empty list of
   * terms, and what it returns is a disjunctive normal form with the
   * meaning of its input.
   */
  lemma {:induction false} DnfCorrect(n: Node, depth: nat, env: set<char>)
    ensures Dnf(n, depth).Err? ==> Residual(Dnf(n, depth).error)
    ensures Dnf(n, depth).Ok? ==> IsDnf(Dnf(n, depth).value) && (Eval(Dnf(n, depth).value, env) <==> Eval(n, env))
    decreases depth, 0, 0
  {
    if depth > 0 {
      match n
      case Var(_, _) =>
      case Neg(p, y) =>
        if y.Neg? {
          DnfCorrect(y.negated, depth - 1, env);
        } else if !y.Var? {
          NegationCorrect(p, y, depth - 1, env);
        }
      case DForm(p, cs) =>
        DisjunctionCaseCorrect(p, cs, depth - 1, env);
      case CForm(p, cs) =>
        if cs != [] {
          ConjunctionCorrect(p, cs, depth - 1, env);
        }
    }
  }

  /** A disjunction: its children converted one level below `DnfCorrect`, flattened and deduplicated. */
  lemma {:induction false} DisjunctionCaseCorrect(p: int, cs: seq<Node>, depth: nat, env: set<char>)
    ensures Dnf(DForm(p, cs), depth + 1).Err? ==> Residual(Dnf(DForm(p, cs), depth + 1).error)
    ensures Dnf(DForm(p, cs), depth + 1).Ok? ==>
      IsDnf(Dnf(DForm(p, cs), depth + 1).value) && (Eval(Dnf(DForm(p, cs), depth + 1).value, env) <==> Eval(DForm(p, cs), env))
    decreases depth, 3, 0
  {
    DnfAllCorrect(cs, depth, env);
    var ds := DnfAll(cs, depth);
    if ds.Ok? {
      DisjunctionCorrect(p, cs, ds.value, env);
    }
  }

  /** De Morgan's law on a negated disjunction or conjunction, one level below `DnfCorrect`. */
  lemma {:induction false} NegationCorrect(p: int, y: Node, depth: nat, env: set<char>)
    requires y.DForm? || y.CForm?
    ensures Dnf(Neg(p, y), depth + 1).Err? ==> Residual(Dnf(Neg(p, y), depth + 1).error)
    ensures Dnf(Neg(p, y), depth + 1).Ok? ==>
      IsDnf(Dnf(Neg(p, y), depth + 1).value) && (Eval(Dnf(Neg(p, y), depth + 1).value, env) <==> !Eval(y, env))
    decreases depth, 3, 0
  {
    NegatedDnfsCorrect(y.children, depth, env);
    var parts := NegatedDnfs(y.children, depth);
    if parts.Ok? {
      SpliceMeaning(p, parts.value, env);
      if y.CForm? {
        DnfCorrect(MkDForm(p, parts.value), depth, env);
      } else {
        DnfCorrect(MkCForm(p, parts.value), depth, env);
      }
    }
  }

  /** The conjunction case: distribution, then the terms as one disjunction, one term, or none. */
  lemma {:induction false} ConjunctionCorrect(p: int, cs: seq<Node>, depth: nat, env: set<char>)
    requires cs != []
    ensures Dnf(CForm(p, cs), depth + 1).Err? ==> Residual(Dnf(CForm(p, cs), depth + 1).error)
    ensures Dnf(CForm(p, cs), depth + 1).Ok? ==>
      IsDnf(Dnf(CForm(p, cs), depth + 1).value) && (Eval(Dnf(CForm(p, cs), depth + 1).value, env) <==> AllTrue(cs, env))
    decreases depth, 3, 0
  {
    DnfTermsCorrect(cs[0], depth, env);
    var first := DnfTerms(cs[0], depth);
    if first.Ok? {
      DistributeCorrect(p, first.value, cs[1..], depth, env);
      var dnf := Distribute(p, first.value, cs[1..], depth);
      if dnf.Ok? {
        AllTrueSplit(cs, env);
        var ts := dnf.value;
        if |ts| > 1 {
          SpliceMeaning(p, ts, env);
          DnfCorrect(MkDForm(p, ts), depth, env);
        } else if |ts| == 1 {
          assert AnyTrue(ts, env) <==> Eval(ts[0], env);
        }
      }
    }
  }

  /** A conjunction is true exactly when its first child and the rest are. */
  lemma AllTrueSplit(cs: seq<Node>, env: set<char>)
    requires cs != []
    ensures AllTrue(cs, env) <==> Eval(cs[0], env) && AllTrue(cs[1..], env)
  {
    assert forall i :: 1 <= i < |cs| ==> cs[i] == cs[1..][i - 1];
  }

  /** A part of a disjunctive normal form that flattening keeps is a term. */
  lemma DnfPart(d: Node, x: Node)
    requires IsDnf(d)
    requires (!d.DForm? && x == d) || (d.DForm? && x in d.children)
    ensures IsTerm(x)
  {
    if d.DForm? {
      var k :| 0 <= k < |d.children| && d.children[k] == x;
    }
  }

  /** Flattening disjunctive normal forms into one disjunction leaves only terms. */
  lemma SpliceTerms(ds: seq<Node>)
    requires forall i :: 0 <= i < |ds| ==> IsDnf(ds[i])
    ensures forall x :: x in Splice(ds, DisjunctionKind) ==> IsTerm(x)
  {
    forall x | x in Splice(ds, DisjunctionKind) ensures IsTerm(x) {
      SpliceMembers(ds, DisjunctionKind, x);
      var j :| 0 <= j < |ds| &&
        ((KindOf(ds[j]) != DisjunctionKind && x == ds[j]) || (KindOf(ds[j]) == DisjunctionKind && x in ds[j].children));
      DnfPart(ds[j], x);
    }
  }

  /** The disjunction case: flattening the converted children and dropping duplicates keeps the meaning. */
  lemma DisjunctionCorrect(p: int, cs: seq<Node>, ds: seq<Node>, env: set<char>)
    requires |ds| == |cs|
    requires forall i :: 0 <= i < |cs| ==> IsDnf(ds[i]) && (Eval(ds[i], env) <==> Eval(cs[i], env))
    ensures IsDnf(DForm(p, Dedup(Splice(ds, DisjunctionKind), Unplaced)))
    ensures Eval(DForm(p, Dedup(Splice(ds, DisjunctionKind), Unplaced)), env) <==> Eval(DForm(p, cs), env)
  {
    var sp := Splice(ds, DisjunctionKind);
    var r := Dedup(sp, Unplaced);
    SpliceKeepsTruth(ds, env);
    DedupKeepsTruth(sp, env);
    SpliceTerms(ds);
    assert AnyTrue(ds, env) <==> AnyTrue(cs, env);
    assert AllTerms(r) by {
      forall i | 0 <= i < |r| ensures IsTerm(r[i]) {
        assert r[i] in sp;
      }
    }
  }

  lemma {:induction false} DnfAllCorrect(cs: seq<Node>, depth: nat, env: set<char>)
    ensures DnfAll(cs, depth).Err? ==> Residual(DnfAll(cs, depth).error)
    ensures DnfAll(cs, depth).Ok? ==>
      var ds := DnfAll(cs, depth).value;
      |ds| == |cs| && forall i :: 0 <= i < |cs| ==> IsDnf(ds[i]) && (Eval(ds[i], env) <==> Eval(cs[i], env))
    decreases depth, 1, |cs|
  {
    if cs != [] {
      var init := cs[..|cs| - 1];
      DnfAllCorrect(init, depth, env);
      DnfCorrect(cs[|cs| - 1], depth, env);
      assert forall i :: 0 <= i < |init| ==> init[i] == cs[i];
    }
  }

  lemma {:induction false} NegatedDnfsCorrect(cs: seq<Node>, depth: nat, env: set<char>)
    ensures NegatedDnfs(cs, depth).Err? ==> Residual(NegatedDnfs(cs, depth).error)
    ensures NegatedDnfs(cs, depth).Ok? ==>
      var ds := NegatedDnfs(cs, depth).value;
      |ds| == |cs| && forall i :: 0 <= i < |cs| ==> IsDnf(ds[i]) && (Eval(ds[i], env) <==> !Eval(cs[i], env))
    decreases depth, 1, |cs|
  {
    if cs != [] {
      var init := cs[..|cs| - 1];
      var c := cs[|cs| - 1];
      NegatedDnfsCorrect(init, depth, env);
      DnfCorrect(Neg(c.pos, c), depth, env);
      assert forall i :: 0 <= i < |init| ==> init[i] == cs[i];
    }
  }

  /** The terms of a corrected normal form are literal terms, one of which is true exactly when the node is. */
  lemma {:induction false} DnfTermsCorrect(node: Node, depth: nat, env: set<char>)
    ensures DnfTerms(node, depth).Err? ==> Residual(DnfTerms(node, depth).error)
    ensures DnfTerms(node, depth).Ok? ==>
      AllTerms(DnfTerms(node, depth).value) && (AnyTrue(DnfTerms(node, depth).value, env) <==> Eval(node, env))
    decreases depth, 1, 0
  {
    DnfCorrect(node, depth, env);
    if Dnf(node, depth).Ok? {
      var r := Dnf(node, depth).value;
      assert [r][0] == r;
    }
  }

  lemma {:induction false} DistributeCorrect(pos: int, dnf: seq<Node>, rest: seq<Node>, depth: nat, env: set<char>)
    requires AllTerms(dnf)
    ensures Distribute(pos, dnf, rest, depth).Err? ==> Residual(Distribute(pos, dnf, rest, depth).error)
    ensures Distribute(pos, dnf, rest, depth).Ok? ==>
      var r := Distribute(pos, dnf, rest, depth).value;
      AllTerms(r) && (AnyTrue(r, env) <==> AnyTrue(dnf, env) && AllTrue(rest, env))
    decreases depth, 2, |rest|
  {
    if rest != [] {
      DnfTermsCorrect(rest[0], depth, env);
      var dnf2 := DnfTerms(rest[0], depth);
      if dnf2.Ok? {
        CrossCorrect(pos, dnf, dnf2.value, env);
        var interm := Cross(pos, dnf, dnf2.value).value;
        DistributeCorrect(pos, interm, rest[1..], depth, env);
        AllTrueSplit(rest, env);
      }
    }
  }

  // ----- Soundness of the corrected conjunctive normal form -----

  /**
   * The corrected `toCNF` never fails on a sort key or an empty list of
   * terms, and what it returns is a conjunctive normal form with the
   * meaning of its input.
   */
  lemma {:induction false} CnfCorrect(n: Node, depth: nat, env: set<char>)
    ensures Cnf(n, depth).Err? ==> Residual(Cnf(n, depth).error)
    ensures Cnf(n, depth).Ok? ==> IsCnf(Cnf(n, depth).value) && (Eval(Cnf(n, depth).value, env) <==> Eval(n, env))
    decreases depth, 0, 0
  {
    if depth > 0 {
      match n
      case Var(_, _) =>
      case Neg(p, y) =>
        if y.Neg? {
          CnfCorrect(y.negated, depth - 1, env);
        } else if !y.Var? {
          CnfNegationCorrect(p, y, depth - 1, env);
        }
      case DForm(p, cs) =>
        if !AllLiterals(cs) {
          CnfDisjunctionCorrect(p, cs, depth - 1, env);
        }
      case CForm(p, cs) =>
        ConjunctionCaseCnfCorrect(p, cs, depth - 1, env);
    }
  }

  /** A conjunction: its children converted one level below `CnfCorrect`, flattened and deduplicated. */
  lemma {:induction false} ConjunctionCaseCnfCorrect(p: int, cs: seq<Node>, depth: nat, env: set<char>)
    ensures Cnf(CForm(p, cs), depth + 1).Err? ==> Residual(Cnf(CForm(p, cs), depth + 1).error)
    ensures Cnf(CForm(p, cs), depth + 1).Ok? ==>
      IsCnf(Cnf(CForm(p, cs), depth + 1).value) && (Eval(Cnf(CForm(p, cs), depth + 1).value, env) <==> Eval(CForm(p, cs), env))
    decreases depth, 3, 0
  {
    CnfAllCorrect(cs, depth, env);
    var ds := CnfAll(cs, depth);
    if ds.Ok? {
      ConjunctionCnfCorrect(p, cs, ds.value, env);
    }
  }

  /** A disjunction that is not yet a clause goes through the normal form of its negation. */
  lemma {:induction false} CnfDisjunctionCorrect(p: int, cs: seq<Node>, depth: nat, env: set<char>)
    requires !AllLiterals(cs)
    ensures Cnf(DForm(p, cs), depth + 1).Err? ==> Residual(Cnf(DForm(p, cs), depth + 1).error)
    ensures Cnf(DForm(p, cs), depth + 1).Ok? ==>
      IsCnf(Cnf(DForm(p, cs), depth + 1).value) && (Eval(Cnf(DForm(p, cs), depth + 1).value, env) <==> Eval(DForm(p, cs), env))
    decreases depth, 3, 0
  {
    var n := DForm(p, cs);
    DnfCorrect(Neg(p, n), depth, env);
    var dnf := Dnf(Neg(p, n), depth);
    if dnf.Ok? {
      CnfCorrect(Neg(p, dnf.value), depth, env);
    }
  }

  /** De Morgan's law on a negated disjunction or conjunction, one level below `CnfCorrect`. */
  lemma {:induction false} CnfNegationCorrect(p: int, y: Node, depth: nat, env: set<char>)
    requires y.DForm? || y.CForm?
    ensures Cnf(Neg(p, y), depth + 1).Err? ==> Residual(Cnf(Neg(p, y), depth + 1).error)
    ensures Cnf(Neg(p, y), depth + 1).Ok? ==>
      IsCnf(Cnf(Neg(p, y), depth + 1).value) && (Eval(Cnf(Neg(p, y), depth + 1).value, env) <==> !Eval(y, env))
    decreases depth, 3, 0
  {
    NegatedCnfsCorrect(y.children, depth, env);
    var parts := NegatedCnfs(y.children, depth);
    if parts.Ok? {
      SpliceMeaning(p, parts.value, env);
      if y.CForm? {
        CnfCorrect(MkDForm(p, parts.value), depth, env);
      } else {
        CnfCorrect(MkCForm(p, parts.value), depth, env);
      }
    }
  }

  /** Flattening conjunctive normal forms into one conjunction leaves only clauses. */
  lemma SpliceClauses(ds: seq<Node>)
    requires forall i :: 0 <= i < |ds| ==> IsCnf(ds[i])
    ensures forall x :: x in Splice(ds, ConjunctionKind) ==> IsClause(x)
  {
    forall x | x in Splice(ds, ConjunctionKind) ensures IsClause(x) {
      SpliceMembers(ds, ConjunctionKind, x);
      var j :| 0 <= j < |ds| &&
        ((KindOf(ds[j]) != ConjunctionKind && x == ds[j]) || (KindOf(ds[j]) == ConjunctionKind && x in ds[j].children));
      CnfPart(ds[j], x);
    }
  }

  /** A part of a conjunctive normal form that flattening keeps is a clause. */
  lemma CnfPart(c: Node, x: Node)
    requires IsCnf(c)
    requires (!c.CForm? && x == c) || (c.CForm? && x in c.children)
    ensures IsClause(x)
  {
    if c.CForm? {
      var k :| 0 <= k < |c.children| && c.children[k] == x;
    }
  }

  /** The conjunction case: flattening the converted children and dropping duplicates keeps the meaning. */
  lemma ConjunctionCnfCorrect(p: int, cs: seq<Node>, ds: seq<Node>, env: set<char>)
    requires |ds| == |cs|
    requires forall i :: 0 <= i < |cs| ==> IsCnf(ds[i]) && (Eval(ds[i], env) <==> Eval(cs[i], env))
    ensures IsCnf(CForm(p, Dedup(Splice(ds, ConjunctionKind), Unplaced)))
    ensures Eval(CForm(p, Dedup(Splice(ds, ConjunctionKind), Unplaced)), env) <==> Eval(CForm(p, cs), env)
  {
    var sp := Splice(ds, ConjunctionKind);
    var r := Dedup(sp, Unplaced);
    SpliceKeepsTruth(ds, env);
    DedupKeepsTruth(sp, env);
    SpliceClauses(ds);
    assert AllTrue(ds, env) <==> AllTrue(cs, env);
    forall i | 0 <= i < |r| ensures IsClause(r[i]) {
      assert r[i] in sp;
    }
  }

  lemma {:induction false} CnfAllCorrect(cs: seq<Node>, depth: nat, env: set<char>)
    ensures CnfAll(cs, depth).Err? ==> Residual(CnfAll(cs, depth).error)
    ensures CnfAll(cs, depth).Ok? ==>
      var ds := CnfAll(cs, depth).value;
      |ds| == |cs| && forall i :: 0 <= i < |cs| ==> IsCnf(ds[i]) && (Eval(ds[i], env) <==> Eval(cs[i], env))
    decreases depth, 1, |cs|
  {
    if cs != [] {
      var init := cs[..|cs| - 1];
      CnfAllCorrect(init, depth, env);
      CnfCorrect(cs[|cs| - 1], depth, env);
      assert forall i :: 0 <= i < |init| ==> init[i] == cs[i];
    }
  }

  lemma {:induction false} NegatedCnfsCorrect(cs: seq<Node>, depth: nat, env: set<char>)
    ensures NegatedCnfs(cs, depth).Err? ==> Residual(NegatedCnfs(cs, depth).error)
    ensures NegatedCnfs(cs, depth).Ok? ==>
      var ds := NegatedCnfs(cs, depth).value;
      |ds| == |cs| && forall i :: 0 <= i < |cs| ==> IsCnf(ds[i]) && (Eval(ds[i], env) <==> !Eval(cs[i], env))
    decreases depth, 1, |cs|
  {
    if cs != [] {
      var init := cs[..|cs| - 1];
      var c := cs[|cs| - 1];
      NegatedCnfsCorrect(init, depth, env);
      CnfCorrect(Neg(c.pos, c), depth, env);
      assert forall i :: 0 <= i < |init| ==> init[i] == cs[i];
    }
  }

  // ----- Where the corrected conversions can still fail -----

  /**
   * No conjunction without children where the tree asserts it and no
   * disjunction without children where the tree denies it.  These are the
   * two ways an empty list reaches `childNodes[0]` (solver.py:314): De
   * Morgan turns a denied empty disjunction into an asserted empty
   * conjunction.
   */
  predicate Nonvacuous(n: Node, positive: bool) {
    match n
    case Var(_, _) => true
    case Neg(_, y) => Nonvacuous(y, !positive)
    case DForm(_, cs) => (!positive ==> cs != []) && forall i :: 0 <= i < |cs| ==> Nonvacuous(cs[i], positive)
    case CForm(_, cs) => (positive ==> cs != []) && forall i :: 0 <= i < |cs| ==> Nonvacuous(cs[i], positive)
  }

  /** A tree `parse` can return is non-vacuous under both polarities. */
  lemma {:induction false} WellFormedNonvacuous(n: Node, positive: bool)
    requires WellFormed(n)
    ensures Nonvacuous(n, positive)
  {
    match n
    case Var(_, _) =>
    case Neg(_, y) => WellFormedNonvacuous(y, !positive);
    case DForm(_, cs) =>
      forall i | 0 <= i < |cs| ensures Nonvacuous(cs[i], positive) {
        WellFormedNonvacuous(cs[i], positive);
      }
    case CForm(_, cs) =>
      forall i | 0 <= i < |cs| ensures Nonvacuous(cs[i], positive) {
        WellFormedNonvacuous(cs[i], positive);
      }
  }

  /** A disjunctive normal form asserts no empty conjunction. */
  lemma DnfNonvacuous(d: Node)
    requires IsDnf(d)
    ensures Nonvacuous(d, true)
  {
    if d.DForm? {
      forall i | 0 <= i < |d.children| ensures Nonvacuous(d.children[i], true) {
        var t := d.children[i];
        if t.CForm? {
          assert forall j :: 0 <= j < |t.children| ==> Nonvacuous(t.children[j], true) by {
            forall j | 0 <= j < |t.children| ensures Nonvacuous(t.children[j], true) {
              assert IsLiteral(t.children[j]);
            }
          }
        }
      }
    } else if d.CForm? {
      forall j | 0 <= j < |d.children| ensures Nonvacuous(d.children[j], true) {
        assert IsLiteral(d.children[j]);
      }
    }
  }

  /** Splicing keeps non-vacuity: a child comes from an argument or is a child of one. */
  lemma SpliceNonvacuous(nodes: seq<Node>, k: Kind, positive: bool)
    requires k == DisjunctionKind || k == ConjunctionKind
    requires forall i :: 0 <= i < |nodes| ==> Nonvacuous(nodes[i], positive)
    ensures forall x :: x in Splice(nodes, k) ==> Nonvacuous(x, positive)
  {
    forall x | x in Splice(nodes, k) ensures Nonvacuous(x, positive) {
      SpliceMembers(nodes, k, x);
      var j :| 0 <= j < |nodes| &&
        ((KindOf(nodes[j]) != k && x == nodes[j]) || (KindOf(nodes[j]) == k && x in nodes[j].children));
      if KindOf(nodes[j]) == k {
        var m :| 0 <= m < |nodes[j].children| && nodes[j].children[m] == x;
      }
    }
  }

  /** Splicing is non-empty when the first argument contributes something. */
  lemma SpliceNonEmpty(nodes: seq<Node>, k: Kind)
    requires k == DisjunctionKind || k == ConjunctionKind
    requires nodes != [] && (KindOf(nodes[0]) == k ==> nodes[0].children != [])
    ensures Splice(nodes, k) != []
  {
    var x := if KindOf(nodes[0]) == k then nodes[0].children[0] else nodes[0];
    SpliceMembers(nodes, k, x);
  }

  /** Rebuilding a disjunction or a conjunction from normal forms asserts no empty conjunction. */
  lemma BuiltNonvacuous(p: int, parts: seq<Node>)
    requires forall i :: 0 <= i < |parts| ==> IsDnf(parts[i])
    ensures Nonvacuous(MkDForm(p, parts), true)
    ensures parts != [] ==> Nonvacuous(MkCForm(p, parts), true)
  {
    forall i | 0 <= i < |parts| ensures Nonvacuous(parts[i], true) {
      DnfNonvacuous(parts[i]);
    }
    SpliceNonvacuous(parts, DisjunctionKind, true);
    SpliceNonvacuous(parts, ConjunctionKind, true);
    var sd := Splice(parts, DisjunctionKind);
    var sc := Splice(parts, ConjunctionKind);
    assert forall i :: 0 <= i < |sd| ==> Nonvacuous(sd[i], true) by {
      forall i | 0 <= i < |sd| ensures Nonvacuous(sd[i], true) {
        assert sd[i] in sd;
      }
    }
    assert forall i :: 0 <= i < |sc| ==> Nonvacuous(sc[i], true) by {
      forall i | 0 <= i < |sc| ensures Nonvacuous(sc[i], true) {
        assert sc[i] in sc;
      }
    }
    if parts != [] {
      SpliceNonEmpty(parts, ConjunctionKind);
    }
  }

  /**
   * On a non-vacuous tree the corrected `toDNF` fails only at the
   * recursion limit: `NoChildren` needs an asserted empty conjunction or a
   * denied empty disjunction.
   */
  lemma {:induction false} DnfLimit(n: Node, depth: nat)
    requires Nonvacuous(n, true)
    ensures Dnf(n, depth).Err? ==> Dnf(n, depth).error == RecursionLimit
    decreases depth, 0, 0
  {
    if depth > 0 {
      match n
      case Var(_, _) =>
      case Neg(p, y) =>
        if y.Neg? {
          DnfLimit(y.negated, depth - 1);
        } else if !y.Var? {
          NegationLimit(p, y, depth - 1);
        }
      case DForm(p, cs) =>
        DnfAllLimit(cs, depth - 1);
      case CForm(p, cs) =>
        ConjunctionLimit(p, cs, depth - 1);
    }
  }

  lemma {:induction false} NegationLimit(p: int, y: Node, depth: nat)
    requires (y.DForm? || y.CForm?) && Nonvacuous(y, false)
    ensures Dnf(Neg(p, y), depth + 1).Err? ==> Dnf(Neg(p, y), depth + 1).error == RecursionLimit
    decreases depth, 3, 0
  {
    NegatedDnfsLimit(y.children, depth);
    NegatedDnfsCorrect(y.children, depth, {});
    var parts := NegatedDnfs(y.children, depth);
    if parts.Ok? {
      BuiltNonvacuous(p, parts.value);
      if y.CForm? {
        DnfLimit(MkDForm(p, parts.value), depth);
      } else {
        DnfLimit(MkCForm(p, parts.value), depth);
      }
    }
  }

  lemma {:induction false} ConjunctionLimit(p: int, cs: seq<Node>, depth: nat)
    requires Nonvacuous(CForm(p, cs), true)
    ensures Dnf(CForm(p, cs), depth + 1).Err? ==> Dnf(CForm(p, cs), depth + 1).error == RecursionLimit
    decreases depth, 3, 0
  {
    DnfTermsLimit(cs[0], depth);
    DnfTermsCorrect(cs[0], depth, {});
    var first := DnfTerms(cs[0], depth);
    if first.Ok? {
      var rest := cs[1..];
      assert forall i :: 0 <= i < |rest| ==> rest[i] == cs[i + 1];
      DistributeLimit(p, first.value, rest, depth);
      DistributeCorrect(p, first.value, rest, depth, {});
      var dnf := Distribute(p, first.value, rest, depth);
      if dnf.Ok? && |dnf.value| > 1 {
        BuiltNonvacuous(p, dnf.value);
        DnfLimit(MkDForm(p, dnf.value), depth);
      }
    }
  }

  lemma {:induction false} DnfAllLimit(cs: seq<Node>, depth: nat)
    requires forall i :: 0 <= i < |cs| ==> Nonvacuous(cs[i], true)
    ensures DnfAll(cs, depth).Err? ==> DnfAll(cs, depth).error == RecursionLimit
    decreases depth, 1, |cs|
  {
    if cs != [] {
      var init := cs[..|cs| - 1];
      assert forall i :: 0 <= i < |init| ==> init[i] == cs[i];
      DnfAllLimit(init, depth);
      DnfLimit(cs[|cs| - 1], depth);
    }
  }

  lemma {:induction false} NegatedDnfsLimit(cs: seq<Node>, depth: nat)
    requires forall i :: 0 <= i < |cs| ==> Nonvacuous(cs[i], false)
    ensures NegatedDnfs(cs, depth).Err? ==> NegatedDnfs(cs, depth).error == RecursionLimit
    decreases depth, 1, |cs|
  {
    if cs != [] {
      var init := cs[..|cs| - 1];
      var c := cs[|cs| - 1];
      assert forall i :: 0 <= i < |init| ==> init[i] == cs[i];
      NegatedDnfsLimit(init, depth);
      DnfLimit(Neg(c.pos, c), depth);
    }
  }

  lemma {:induction false} DnfTermsLimit(node: Node, depth: nat)
    requires Nonvacuous(node, true)
    ensures DnfTerms(node, depth).Err? ==> DnfTerms(node, depth).error == RecursionLimit
    decreases depth, 1, 0
  {
    DnfLimit(node, depth);
  }

  lemma {:induction false} DistributeLimit(pos: int, dnf: seq<Node>, rest: seq<Node>, depth: nat)
    requires AllTerms(dnf)
    requires forall i :: 0 <= i < |rest| ==> Nonvacuous(rest[i], true)
    ensures Distribute(pos, dnf, rest, depth).Err? ==> Distribute(pos, dnf, rest, depth).error == RecursionLimit
    decreases depth, 2, |rest|
  {
    if rest != [] {
      DnfTermsLimit(rest[0], depth);
      DnfTermsCorrect(rest[0], depth, {});
      var dnf2 := DnfTerms(rest[0], depth);
      if dnf2.Ok? {
        CrossCorrect(pos, dnf, dnf2.value, {});
        var tail := rest[1..];
        assert forall i :: 0 <= i < |tail| ==> tail[i] == rest[i + 1];
        DistributeLimit(pos, Cross(pos, dnf, dnf2.value).value, tail, depth);
      }
    }
  }

  /** A `toCNF` outcome that is a failure only at the recursion limit, and otherwise non-vacuous when denied. */
  predicate LimitedCnf(r: Result<Node>) {
    (r.Err? ==> r.error == RecursionLimit) && (r.Ok? ==> Nonvacuous(r.value, false))
  }

  /**
   * On a tree that is non-vacuous when denied, the corrected `toCNF` fails
   * only at the recursion limit, and its result is again non-vacuous when
   * denied (it goes through `toDNF` of the negation).
   */
  lemma {:induction false} CnfLimit(n: Node, depth: nat)
    requires Nonvacuous(n, false)
    ensures LimitedCnf(Cnf(n, depth))
    decreases depth, 0, 0
  {
    if depth > 0 {
      match n
      case Var(_, _) =>
      case Neg(p, y) =>
        if y.Neg? {
          assert Nonvacuous(y.negated, false);
          assert Cnf(n, depth) == Cnf(y.negated, depth - 1);
          CnfLimit(y.negated, depth - 1);
        } else if !y.Var? {
          assert Nonvacuous(y, true);
          CnfNegationLimit(p, y, depth - 1);
        }
      case DForm(p, cs) =>
        if !AllLiterals(cs) {
          CnfDisjunctionLimit(p, cs, depth - 1);
        } else {
          assert Cnf(n, depth) == Ok(n);
        }
      case CForm(p, cs) =>
        CnfConjunctionLimit(p, cs, depth - 1);
    }
  }

  lemma {:induction false} CnfConjunctionLimit(p: int, cs: seq<Node>, depth: nat)
    requires Nonvacuous(CForm(p, cs), false)
    ensures LimitedCnf(Cnf(CForm(p, cs), depth + 1))
    decreases depth, 3, 0
  {
    CnfAllLimit(cs, depth);
    var ds := CnfAll(cs, depth);
    if ds.Ok? {
      var sp := Splice(ds.value, ConjunctionKind);
      SpliceNonvacuous(ds.value, ConjunctionKind, false);
      DedupSpec(sp, Unplaced);
      var r := Dedup(sp, Unplaced);
      forall i | 0 <= i < |r| ensures Nonvacuous(r[i], false) {
        assert r[i] in r;
      }
    }
  }

  lemma {:induction false} CnfDisjunctionLimit(p: int, cs: seq<Node>, depth: nat)
    requires !AllLiterals(cs) && Nonvacuous(DForm(p, cs), false)
    ensures LimitedCnf(Cnf(DForm(p, cs), depth + 1))
    decreases depth, 3, 0
  {
    var n := DForm(p, cs);
    DnfLimit(Neg(p, n), depth);
    DnfCorrect(Neg(p, n), depth, {});
    var dnf := Dnf(Neg(p, n), depth);
    if dnf.Ok? {
      DnfNonvacuous(dnf.value);
      CnfLimit(Neg(p, dnf.value), depth);
    }
  }

  lemma {:induction false} CnfNegationLimit(p: int, y: Node, depth: nat)
    requires (y.DForm? || y.CForm?) && Nonvacuous(y, true)
    ensures LimitedCnf(Cnf(Neg(p, y), depth + 1))
    decreases depth, 3, 0
  {
    NegatedCnfsLimit(y.children, depth);
    var parts := NegatedCnfs(y.children, depth);
    if parts.Ok? {
      var ps := parts.value;
      if y.CForm? {
        SpliceNonvacuous(ps, DisjunctionKind, false);
        SpliceNonEmpty(ps, DisjunctionKind);
        var sd := Splice(ps, DisjunctionKind);
        forall i | 0 <= i < |sd| ensures Nonvacuous(sd[i], false) {
          assert sd[i] in sd;
        }
        CnfLimit(MkDForm(p, ps), depth);
      } else {
        SpliceNonvacuous(ps, ConjunctionKind, false);
        var sc := Splice(ps, ConjunctionKind);
        forall i | 0 <= i < |sc| ensures Nonvacuous(sc[i], false) {
          assert sc[i] in sc;
        }
        CnfLimit(MkCForm(p, ps), depth);
      }
    }
  }

  lemma {:induction false} CnfAllLimit(cs: seq<Node>, depth: nat)
    requires forall i :: 0 <= i < |cs| ==> Nonvacuous(cs[i], false)
    ensures CnfAll(cs, depth).Err? ==> CnfAll(cs, depth).error == RecursionLimit
    ensures CnfAll(cs, depth).Ok? ==>
      forall i :: 0 <= i < |CnfAll(cs, depth).value| ==> Nonvacuous(CnfAll(cs, depth).value[i], false)
    decreases depth, 1, |cs|
  {
    if cs != [] {
      var init := cs[..|cs| - 1];
      assert forall i :: 0 <= i < |init| ==> init[i] == cs[i];
      CnfAllLimit(init, depth);
      CnfLimit(cs[|cs| - 1], depth);
    }
  }

  lemma {:induction false} NegatedCnfsLimit(cs: seq<Node>, depth: nat)
    requires forall i :: 0 <= i < |cs| ==> Nonvacuous(cs[i], true)
    ensures NegatedCnfs(cs, depth).Err? ==> NegatedCnfs(cs, depth).error == RecursionLimit
    ensures NegatedCnfs(cs, depth).Ok? ==>
      var ds := NegatedCnfs(cs, depth).value;
      |ds| == |cs| && forall i :: 0 <= i < |ds| ==> Nonvacuous(ds[i], false)
    decreases depth, 1, |cs|
  {
    if cs != [] {
      var init := cs[..|cs| - 1];
      var c := cs[|cs| - 1];
      assert forall i :: 0 <= i < |init| ==> init[i] == cs[i];
      NegatedCnfsLimit(init, depth);
      CnfLimit(Neg(c.pos, c), depth);
    }
  }

  /** On a parsed tree both corrected conversions fail only at the recursion limit. */
  lemma ParsedConvertsUpToLimit(n: Node, depth: nat)
    requires WellFormed(n)
    ensures Dnf(n, depth).Err? ==> Dnf(n, depth).error == RecursionLimit
    ensures Cnf(n, depth).Err? ==> Cnf(n, depth).error == RecursionLimit
  {
    WellFormedNonvacuous(n, true);
    WellFormedNonvacuous(n, false);
    DnfLimit(n, depth);
    CnfLimit(n, depth);
  }

  /**
   * The residual failure does happen: an asserted empty conjunction has no
   * first child, and `toCNF` meets one when it denies an empty disjunction.
   */
  lemma EmptyConjunctionFails(p: int, depth: nat)
    requires depth > 0
    ensures Dnf(CForm(p, []), depth) == Err(NoChildren)
    ensures Cnf(DForm(p, [Var(p, 'a'), DForm(p, [])]), depth + 3) == Err(NoChildren)
  {
    var n := DForm(p, [Var(p, 'a'), DForm(p, [])]);
    assert !IsLiteral(n.children[1]);
    assert NegatedDnfs([], depth) == Ok([]);
    assert Dnf(Neg(p, DForm(p, [])), depth + 1) == Err(NoChildren);
    assert [Var(p, 'a'), DForm(p, [])][..1] == [Var(p, 'a')];
    assert [Var(p, 'a')][..0] == [];
    assert NegatedDnfs([], depth + 1) == Ok([]);
    assert [] + [Neg(p, Var(p, 'a'))] == [Neg(p, Var(p, 'a'))];
    assert Dnf(Neg(p, Var(p, 'a')), depth + 1) == Ok(Neg(p, Var(p, 'a')));
    assert NegatedDnfs([Var(p, 'a')], depth + 1) == Ok([Neg(p, Var(p, 'a'))]);
    assert NegatedDnfs(n.children, depth + 1) == Err(NoChildren);
  }
}
