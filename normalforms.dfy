/**
 * `toDNF`, `toCNF` and `normalizePartial` of solver.py, as written.
 *
 * The conversions call themselves again on trees they have just built
 * (`_DForm(...).toDNF()` on the terms of a distribution, `_Neg(..., dnf)`
 * on the result of a conversion), so no structural measure decreases.
 * Each call therefore takes a `depth` budget, one less for every nested
 * call, and fails with `RecursionLimit` when it runs out — the analogue
 * of Python's recursion limit.
 */
module NormalForms {
  import opened Wrappers
  import opened Ast
  import opened Terms

  // ----- Disjunctive normal form -----

  /**
   * `node.toDNF(positive)`.  A negated disjunction or conjunction goes
   * through De Morgan's law only when `positive`; otherwise the negated
   * node comes back as it is.  A nested double negation is converted with
   * `positive` reset to true.  A disjunction converts its children and
   * drops duplicates but does not flatten them.  A conjunction distributes
   * its first child's terms over the terms of each further child.
   */
  function ToDnf(n: Node, positive: bool, depth: nat): Result<Node>
    decreases depth, 0, 0
  {
    if depth == 0 then Err(RecursionLimit)
    else
      match n
      case Var(_, _) => Ok(n)
      case Neg(p, y) =>
        if y.Var? then Ok(n)
        else if y.Neg? then ToDnf(y.negated, true, depth - 1)
        else if !positive then Ok(y)
        else
          var parts :- NegatedDnfs(y.children, depth - 1);
          if y.CForm? then ToDnf(MkDForm(p, parts), true, depth - 1)
          else ToDnf(MkCForm(p, parts), true, depth - 1)
      case DForm(p, cs) =>
        var ds :- DnfAll(cs, positive, depth - 1);
        Ok(DForm(p, Dedup(ds, RenderKey)))
      case CForm(p, cs) =>
        if cs == [] then Err(NoChildren)
        else
          var first :- NormalizePartial(cs[0], positive, depth - 1);
          var dnf :- Distribute(p, first, cs[1..], depth - 1);
          if |dnf| > 1 then ToDnf(MkDForm(p, dnf), true, depth - 1)
          else if |dnf| == 1 then Ok(dnf[0])
          else Err(NoTerms)
  }

  /** `[c.toDNF(positive) for c in cs]`; the first failure in order is the result. */
  function DnfAll(cs: seq<Node>, positive: bool, depth: nat): Result<seq<Node>>
    decreases depth, 1, |cs|
  {
    if cs == [] then Ok([])
    else
      var init :- DnfAll(cs[..|cs| - 1], positive, depth);
      var last :- ToDnf(cs[|cs| - 1], positive, depth);
      Ok(init + [last])
  }

  /** `map(lambda c: _Neg(c.tokenPosition, c).toDNF(True), cs)`. */
  function NegatedDnfs(cs: seq<Node>, depth: nat): Result<seq<Node>>
    decreases depth, 1, |cs|
  {
    if cs == [] then Ok([])
    else
      var init :- NegatedDnfs(cs[..|cs| - 1], depth);
      var c := cs[|cs| - 1];
      var last :- ToDnf(Neg(c.pos, c), true, depth);
      Ok(init + [last])
  }

  /** `normalizePartial(node, positive)`: the terms of the node's normal form. */
  function NormalizePartial(node: Node, positive: bool, depth: nat): Result<seq<Node>>
    decreases depth, 1, 0
  {
    var partial :- ToDnf(node, positive, depth);
    Ok(Disjuncts(partial))
  }

  /** The loop over `childNodes[1:]`: each further child's terms are normalised with `positive` true. */
  function Distribute(pos: int, dnf: seq<Node>, rest: seq<Node>, depth: nat): Result<seq<Node>>
    decreases depth, 2, |rest|
  {
    if rest == [] then Ok(dnf)
    else
      var dnf2 :- NormalizePartial(rest[0], true, depth);
      var interm :- Cross(pos, dnf, dnf2);
      Distribute(pos, interm, rest[1..], depth)
  }

  /** The inner loop over the left terms for one right term. */
  function CrossRight(pos: int, dnf: seq<Node>, right: Node): Result<seq<Node>>
    decreases |dnf|
  {
    if dnf == [] then Ok([])
    else
      var init :- CrossRight(pos, dnf[..|dnf| - 1], right);
      var t :- PairTerm(pos, dnf[|dnf| - 1], Disjuncts(right));
      Ok(init + (if t.Some? then [t.value] else []))
  }

  /** `interm`: the outer loop over the right terms, each against every left term. */
  function Cross(pos: int, dnf: seq<Node>, dnf2: seq<Node>): Result<seq<Node>>
    decreases |dnf2|
  {
    if dnf2 == [] then Ok([])
    else
      var init :- Cross(pos, dnf, dnf2[..|dnf2| - 1]);
      var last :- CrossRight(pos, dnf, dnf2[|dnf2| - 1]);
      Ok(init + last)
  }

  // ----- Conjunctive normal form -----

  /**
   * `node.toCNF(positive)`: literals stay; a negation mirrors `toDNF`; a
   * disjunction whose children are all literals is already a clause, any
   * other goes through `_Neg(_Neg(self).toDNF())`; a conjunction converts
   * its children and drops duplicates.
   */
  function ToCnf(n: Node, positive: bool, depth: nat): Result<Node>
    decreases depth, 0, 0
  {
    if depth == 0 then Err(RecursionLimit)
    else
      match n
      case Var(_, _) => Ok(n)
      case Neg(p, y) =>
        if y.Var? then Ok(n)
        else if y.Neg? then ToCnf(y.negated, true, depth - 1)
        else if !positive then Ok(y)
        else
          var parts :- NegatedCnfs(y.children, depth - 1);
          if y.CForm? then ToCnf(MkDForm(p, parts), true, depth - 1)
          else ToCnf(MkCForm(p, parts), true, depth - 1)
      case DForm(p, cs) =>
        if AllLiterals(cs) then Ok(n)
        else
          var dnf :- ToDnf(Neg(p, n), positive, depth - 1);
          ToCnf(Neg(p, dnf), positive, depth - 1)
      case CForm(p, cs) =>
        var ds :- CnfAll(cs, positive, depth - 1);
        Ok(CForm(p, Dedup(ds, RenderKey)))
  }

  /** `[c.toCNF(positive) for c in cs]`. */
  function CnfAll(cs: seq<Node>, positive: bool, depth: nat): Result<seq<Node>>
    decreases depth, 1, |cs|
  {
    if cs == [] then Ok([])
    else
      var init :- CnfAll(cs[..|cs| - 1], positive, depth);
      var last :- ToCnf(cs[|cs| - 1], positive, depth);
      Ok(init + [last])
  }

  /** `map(lambda c: _Neg(c.tokenPosition, c).toCNF(True), cs)`. */
  function NegatedCnfs(cs: seq<Node>, depth: nat): Result<seq<Node>>
    decreases depth, 1, |cs|
  {
    if cs == [] then Ok([])
    else
      var init :- NegatedCnfs(cs[..|cs| - 1], depth);
      var c := cs[|cs| - 1];
      var last :- ToCnf(Neg(c.pos, c), true, depth);
      Ok(init + [last])
  }

  // ----- Properties -----

  /** A variable and a negated variable are already in both normal forms. */
  lemma LiteralsUnchanged(n: Node, positive: bool, depth: nat)
    requires IsLiteral(n) && depth > 0
    ensures ToDnf(n, positive, depth) == Ok(n)
    ensures ToCnf(n, positive, depth) == Ok(n)
  {
  }

  /** A disjunction of literals is a clause: `toCNF` returns it unchanged. */
  lemma ClauseUnchanged(p: int, cs: seq<Node>, positive: bool, depth: nat)
    requires AllLiterals(cs) && depth > 0
    ensures ToCnf(DForm(p, cs), positive, depth) == Ok(DForm(p, cs))
  {
  }

  /** Lists of literals are converted to themselves. */
  lemma LiteralListsUnchanged(cs: seq<Node>, positive: bool, depth: nat)
    requires AllLiterals(cs) && depth > 0
    ensures DnfAll(cs, positive, depth) == Ok(cs)
    ensures CnfAll(cs, positive, depth) == Ok(cs)
  {
    LiteralDnfsUnchanged(cs, positive, depth);
    LiteralCnfsUnchanged(cs, positive, depth);
  }

  lemma {:induction false} LiteralDnfsUnchanged(cs: seq<Node>, positive: bool, depth: nat)
    requires AllLiterals(cs) && depth > 0
    ensures DnfAll(cs, positive, depth) == Ok(cs)
    decreases |cs|
  {
    if cs != [] {
      var init := cs[..|cs| - 1];
      assert AllLiterals(init) by {
        assert forall i :: 0 <= i < |init| ==> init[i] == cs[i];
      }
      LiteralDnfsUnchanged(init, positive, depth);
      LiteralsUnchanged(cs[|cs| - 1], positive, depth);
      assert init + [cs[|cs| - 1]] == cs;
    }
  }

  lemma {:induction false} LiteralCnfsUnchanged(cs: seq<Node>, positive: bool, depth: nat)
    requires AllLiterals(cs) && depth > 0
    ensures CnfAll(cs, positive, depth) == Ok(cs)
    decreases |cs|
  {
    if cs != [] {
      var init := cs[..|cs| - 1];
      assert AllLiterals(init) by {
        assert forall i :: 0 <= i < |init| ==> init[i] == cs[i];
      }
      LiteralCnfsUnchanged(init, positive, depth);
      LiteralsUnchanged(cs[|cs| - 1], positive, depth);
      assert init + [cs[|cs| - 1]] == cs;
    }
  }

  /** The negations of variables are converted to themselves. */
  lemma {:induction false} NegatedVarsUnchanged(cs: seq<Node>, depth: nat)
    requires depth > 0 && forall i :: 0 <= i < |cs| ==> cs[i].Var?
    ensures NegatedDnfs(cs, depth).Ok? && NegatedCnfs(cs, depth).Ok?
    ensures NegatedDnfs(cs, depth).value == NegatedCnfs(cs, depth).value
    ensures |NegatedDnfs(cs, depth).value| == |cs|
    ensures forall i :: 0 <= i < |cs| ==> NegatedDnfs(cs, depth).value[i] == Neg(cs[i].pos, cs[i])
    decreases |cs|
  {
    if cs != [] {
      var init := cs[..|cs| - 1];
      assert forall i :: 0 <= i < |init| ==> init[i] == cs[i];
      NegatedVarsUnchanged(init, depth);
    }
  }

  /** `normalizePartial` gives at least one term, and the terms are true exactly when the normal form is. */
  lemma NormalizePartialMeaning(node: Node, positive: bool, depth: nat, env: set<char>)
    requires ToDnf(node, positive, depth).Ok?
    ensures NormalizePartial(node, positive, depth).Ok?
    ensures |NormalizePartial(node, positive, depth).value| > 0
    ensures AnyTrue(NormalizePartial(node, positive, depth).value, env) <==>
      Eval(ToDnf(node, positive, depth).value, env)
  {
    ConjunctsMeaning(ToDnf(node, positive, depth).value, env);
  }

  /** Each list conversion converts every child, in order. */
  lemma {:induction false} ListsConvertEach(cs: seq<Node>, positive: bool, depth: nat)
    ensures DnfAll(cs, positive, depth).Ok? ==>
      |DnfAll(cs, positive, depth).value| == |cs| &&
      forall i :: 0 <= i < |cs| ==> ToDnf(cs[i], positive, depth) == Ok(DnfAll(cs, positive, depth).value[i])
    ensures CnfAll(cs, positive, depth).Ok? ==>
      |CnfAll(cs, positive, depth).value| == |cs| &&
      forall i :: 0 <= i < |cs| ==> ToCnf(cs[i], positive, depth) == Ok(CnfAll(cs, positive, depth).value[i])
    decreases |cs|
  {
    if cs != [] {
      var init := cs[..|cs| - 1];
      ListsConvertEach(init, positive, depth);
      assert forall i :: 0 <= i < |init| ==> init[i] == cs[i];
    }
  }

  /** The pair step of `left` and the right term `right` keeps the conjunction `t`. */
  predicate PairGives(pos: int, left: Node, right: Node, t: Node) {
    PairTerm(pos, left, Disjuncts(right)) == Ok(Some(t))
  }

  /** One left term against one right term: the pair step's conjunction. */
  lemma CrossRightOne(pos: int, left: Node, right: Node, t: Node)
    requires PairGives(pos, left, right, t)
    ensures CrossRight(pos, [left], right) == Ok([t])
  {
    assert [left][..0] == [];
    var none: seq<Node> := [];
    assert none + [t] == [t];
  }

  /** Crossing one left term with one more right term appends that pair's conjunction. */
  lemma CrossOneLeftSnoc(pos: int, left: Node, rs: seq<Node>, r: Node, us: seq<Node>, t: Node)
    requires Cross(pos, [left], rs) == Ok(us) && PairGives(pos, left, r, t)
    ensures Cross(pos, [left], rs + [r]) == Ok(us + [t])
  {
    CrossRightOne(pos, left, r, t);
    assert (rs + [r])[..|rs|] == rs;
  }

  /** One left term crossed with one right term: that pair's conjunction. */
  lemma CrossOneByOne(pos: int, left: Node, r: Node, t: Node)
    requires PairGives(pos, left, r, t)
    ensures Cross(pos, [left], [r]) == Ok([t])
  {
    var none: seq<Node> := [];
    assert Cross(pos, [left], none) == Ok(none);
    CrossOneLeftSnoc(pos, left, none, r, none, t);
    assert none + [r] == [r] && none + [t] == [t];
  }

  /** One left term crossed with two right terms: the two conjunctions, in the order of the right terms. */
  lemma CrossOneByTwo(pos: int, left: Node, r1: Node, r2: Node, t1: Node, t2: Node)
    requires PairGives(pos, left, r1, t1) && PairGives(pos, left, r2, t2)
    ensures Cross(pos, [left], [r1, r2]) == Ok([t1, t2])
  {
    CrossOneByOne(pos, left, r1, t1);
    CrossOneLeftSnoc(pos, left, [r1], r2, [t1], t2);
    assert [r1] + [r2] == [r1, r2] && [t1] + [t2] == [t1, t2];
  }

  /** The first further child of a conjunction: its terms crossed with the terms so far. */
  lemma DistributeStep(pos: int, dnf: seq<Node>, rest: seq<Node>, depth: nat, ts: seq<Node>, r: seq<Node>)
    requires rest != []
    requires NormalizePartial(rest[0], true, depth) == Ok(ts) && Cross(pos, dnf, ts) == Ok(r)
    ensures Distribute(pos, dnf, rest, depth) == Distribute(pos, r, rest[1..], depth)
  {
  }

  /**
   * A conjunction as a right-hand term makes `toDNF` fail: `rp` splits only
   * disjunctions, so the conjunction is added whole and has no sort key.
   */
  lemma CrossConjunctiveRight(pos: int, left: Node, right: Node)
    requires right.CForm?
    ensures Cross(pos, [left], [right]) == Err(NoSortKey)
  {
    PairTermConjunctiveRight(pos, left, right);
    assert [left][..0] == [] && [right][..0] == [];
    assert CrossRight(pos, [left], right) == Err(NoSortKey);
  }

  /**
   * On terms made of literals, the distribution of one list of terms over
   * another is sound: its terms are literal terms, true exactly when some
   * left term and some right term of the as-written split are both true.
   * The right terms are the children of a disjunction, taken as literals
   * of one conjunction — which is what makes nested disjunctions wrong.
   */
  lemma {:induction false} CrossRightLiterals(pos: int, dnf: seq<Node>, right: Node, env: set<char>)
    requires forall i :: 0 <= i < |dnf| ==> IsTerm(dnf[i])
    requires AllLiterals(Disjuncts(right))
    ensures CrossRight(pos, dnf, right).Ok?
    ensures forall i :: 0 <= i < |CrossRight(pos, dnf, right).value| ==> IsTerm(CrossRight(pos, dnf, right).value[i])
    ensures AnyTrue(CrossRight(pos, dnf, right).value, env) <==>
      AnyTrue(dnf, env) && AllTrue(Disjuncts(right), env)
    decreases |dnf|
  {
    if dnf != [] {
      var init := dnf[..|dnf| - 1];
      var last := dnf[|dnf| - 1];
      assert dnf == init + [last];
      CrossRightLiterals(pos, init, right, env);
      PairTermLiterals(pos, last, Disjuncts(right), env);
      var a := CrossRight(pos, init, right).value;
      var t := PairTerm(pos, last, Disjuncts(right)).value;
      var b := if t.Some? then [t.value] else [];
      AnyAllAppend(a, b, env);
      AnyAllAppend(init, [last], env);
      assert AnyTrue([last], env) <==> Eval(last, env) by {
        assert [last][0] == last;
      }
      if t.Some? {
        assert AnyTrue(b, env) <==> Eval(t.value, env) by {
          assert b[0] == t.value;
        }
      }
      var r := a + b;
      assert forall i :: 0 <= i < |a| ==> r[i] == a[i];
      assert forall i :: |a| <= i < |r| ==> r[i] == b[i - |a|];
    }
  }

  /** A term whose literals name each variable once, in key order: what the pair step keeps. */
  predicate CleanTerm(t: Node) {
    Clean(Conjuncts(t)) && SortedByKey(Conjuncts(t))
  }

  lemma CleanTermsAppend(a: seq<Node>, b: seq<Node>)
    requires forall i :: 0 <= i < |a| ==> CleanTerm(a[i])
    requires forall i :: 0 <= i < |b| ==> CleanTerm(b[i])
    ensures forall i :: 0 <= i < |a + b| ==> CleanTerm((a + b)[i])
  {
    var r := a + b;
    assert forall i :: 0 <= i < |a| ==> r[i] == a[i];
    assert forall i :: |a| <= i < |r| ==> r[i] == b[i - |a|];
  }

  /**
   * Crossing clean terms with one literal never fails and keeps every term
   * clean: each pair is dropped, is the left term itself, or is the left
   * literals and the new one in key order.
   */
  lemma {:induction false} CrossRightClean(pos: int, dnf: seq<Node>, right: Node)
    requires IsLiteral(right)
    requires forall i :: 0 <= i < |dnf| ==> CleanTerm(dnf[i])
    ensures CrossRight(pos, dnf, right).Ok?
    ensures forall i :: 0 <= i < |CrossRight(pos, dnf, right).value| ==> CleanTerm(CrossRight(pos, dnf, right).value[i])
    decreases |dnf|
  {
    if dnf != [] {
      var init := dnf[..|dnf| - 1];
      var last := dnf[|dnf| - 1];
      assert forall i :: 0 <= i < |init| ==> init[i] == dnf[i];
      CrossRightClean(pos, init, right);
      assert Disjuncts(right) == [right];
      PairTermClean(pos, last, right);
      VerdictClean(right, Conjuncts(last));
      var a := CrossRight(pos, init, right).value;
      var t := PairTerm(pos, last, [right]).value;
      if t.Some? {
        assert CleanTerm(t.value);
      }
      var b := if t.Some? then [t.value] else [];
      CleanTermsAppend(a, b);
    }
  }

  /** Crossing clean terms with a list of literals never fails and keeps every term clean. */
  lemma {:induction false} CrossClean(pos: int, dnf: seq<Node>, dnf2: seq<Node>)
    requires AllLiterals(dnf2)
    requires forall i :: 0 <= i < |dnf| ==> CleanTerm(dnf[i])
    ensures Cross(pos, dnf, dnf2).Ok?
    ensures forall i :: 0 <= i < |Cross(pos, dnf, dnf2).value| ==> CleanTerm(Cross(pos, dnf, dnf2).value[i])
    decreases |dnf2|
  {
    if dnf2 != [] {
      var init := dnf2[..|dnf2| - 1];
      assert forall i :: 0 <= i < |init| ==> init[i] == dnf2[i];
      CrossClean(pos, dnf, init);
      assert IsLiteral(dnf2[|dnf2| - 1]);
      CrossRightClean(pos, dnf, dnf2[|dnf2| - 1]);
      var a := Cross(pos, dnf, init).value;
      var b := CrossRight(pos, dnf, dnf2[|dnf2| - 1]).value;
      CleanTermsAppend(a, b);
    }
  }
}
