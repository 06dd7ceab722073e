/**
 * The normal forms of particular formulas, as written and as corrected:
 * `a&(b+!(c&d))` gets a disjunctive normal form with another meaning,
 * `a&!(!b+!c)` makes the conversion fail on a sort key, and `a&!a` on an
 * empty list of terms.  `a&(!a+!(!e&e))&!e` shows that the order in which
 * duplicate removal leaves the children decides the as-written result.
 */
module Findings {
  import opened Wrappers
  import opened Ast
  import opened Terms
  import opened NormalForms
  import CorrectedForms
  import opened Examples
  import opened Parser

  const NC := Neg(7, C)
  const ND := Neg(9, D)
  const DF5 := DForm(5, [NC, ND])
  const AB := CForm(0, [A, B])
  const ACn := CForm(0, [A, NC])
  const ACD := CForm(0, [A, NC, ND])
  const BC := CForm(2, [VB, VC])

  // ----- Unfolding the conversion one level -----

  lemma ConjunctionStep(p: int, cs: seq<Node>, depth: nat, first: seq<Node>, dnf: seq<Node>)
    requires depth > 0 && cs != []
    requires NormalizePartial(cs[0], true, depth - 1) == Ok(first)
    requires Distribute(p, first, cs[1..], depth - 1) == Ok(dnf)
    ensures ToDnf(CForm(p, cs), true, depth) ==
      if |dnf| > 1 then ToDnf(MkDForm(p, dnf), true, depth - 1)
      else if |dnf| == 1 then Ok(dnf[0])
      else Err(NoTerms)
  {
  }

  lemma ConjunctionFails(p: int, cs: seq<Node>, depth: nat, first: seq<Node>, e: Error)
    requires depth > 0 && cs != []
    requires NormalizePartial(cs[0], true, depth - 1) == Ok(first)
    requires Distribute(p, first, cs[1..], depth - 1) == Err(e)
    ensures ToDnf(CForm(p, cs), true, depth) == Err(e)
  {
  }

  lemma DisjunctionStep(p: int, cs: seq<Node>, depth: nat, ds: seq<Node>)
    requires depth > 0
    requires DnfAll(cs, true, depth - 1) == Ok(ds)
    ensures ToDnf(DForm(p, cs), true, depth) == Ok(DForm(p, Dedup(ds, RenderKey)))
  {
  }

  lemma NegationStep(p: int, y: Node, depth: nat, parts: seq<Node>)
    requires depth > 0 && (y.DForm? || y.CForm?)
    requires NegatedDnfs(y.children, depth - 1) == Ok(parts)
    ensures ToDnf(Neg(p, y), true, depth) ==
      if y.CForm? then ToDnf(MkDForm(p, parts), true, depth - 1) else ToDnf(MkCForm(p, parts), true, depth - 1)
  {
  }

  // ----- `a&(b+!(c&d))` -----

  lemma NegatedVars(d: nat)
    requires d >= 2
    ensures NegatedDnfs([C, D], d) == Ok([NC, ND])
  {
    NegatedVarsUnchanged([C, D], d);
    var v := NegatedDnfs([C, D], d).value;
    assert v[0] == NC && v[1] == ND;
    assert v == [NC, ND];
  }

  lemma NegatedPair(d: nat)
    requires d >= 3
    ensures ToDnf(N5, true, d) == Ok(DF5)
  {
    NegatedPairStep(d);
    NegatedPairClause(d - 1);
  }

  lemma NegatedPairStep(d: nat)
    requires d >= 3
    ensures ToDnf(N5, true, d) == ToDnf(DF5, true, d - 1)
  {
    NegatedVars(d - 1);
    NegationStep(5, C6, d, [NC, ND]);
    SpliceNoneOfKind([NC, ND], DisjunctionKind);
    assert MkDForm(5, [NC, ND]) == DF5;
  }

  lemma NegatedPairClause(d: nat)
    requires d >= 2
    ensures ToDnf(DF5, true, d) == Ok(DF5)
  {
    LiteralListsUnchanged([NC, ND], true, d - 1);
    NegatedPairDedup();
    DisjunctionStep(5, [NC, ND], d, [NC, ND]);
  }

  lemma NegatedPairDedup()
    ensures Dedup([NC, ND], RenderKey) == [NC, ND]
  {
    assert Render(NC) == "!c" && Render(ND) == "!d";
    assert Render(NC)[1] != Render(ND)[1];
    DedupNoDuplicates([NC, ND], RenderKey);
  }

  lemma InnerDisjunction(d: nat)
    requires d >= 4
    ensures ToDnf(D2, true, d) == Ok(DForm(2, [B, DF5]))
    ensures NormalizePartial(D2, true, d) == Ok([B, DF5])
  {
    var cs := [B, N5];
    assert cs[..1] == [B];
    LiteralListsUnchanged([B], true, d - 1);
    NegatedPair(d - 1);
    assert DnfAll(cs, true, d - 1) == Ok([B] + [DF5]);
    assert [B] + [DF5] == [B, DF5];
    DedupNoDuplicates([B, DF5], RenderKey);
  }


  lemma PairAB()
    ensures PairGives(0, A, B, AB)
  {
    assert Disjuncts(B) == [B] && Conjuncts(A) == [A];
    assert [A][1..] == [];
    assert VerdictOf(B, [A], false) == Keep;
    assert [A] + [B] == [A, B];
    assert LexLe(SortKey(A), SortKey(B));
    PairTermAppends(0, A, [B]);
  }

  lemma PairADF5()
    ensures PairGives(0, A, DF5, ACD)
  {
    assert Disjuncts(DF5) == [NC, ND] && Conjuncts(A) == [A];
    assert [A][1..] == [];
    assert VerdictOf(NC, [A], false) == Keep;
    assert VerdictOf(ND, [A], false) == Keep;
    assert [A] + [NC, ND] == [A, NC, ND];
    assert SortKey(NC) == "c" && SortKey(ND) == "d";
    assert LexLe("a", "c") && LexLe("a", "d") && LexLe("c", "d");
    PairTermAppends(0, A, [NC, ND]);
  }

  lemma PairANC()
    ensures PairGives(0, A, NC, ACn)
  {
    assert Disjuncts(NC) == [NC] && Conjuncts(A) == [A];
    assert [A][1..] == [];
    assert VerdictOf(NC, [A], false) == Keep;
    assert [A] + [NC] == [A, NC];
    assert SortKey(NC) == "c";
    assert LexLe("a", "c");
    PairTermAppends(0, A, [NC]);
  }

  lemma PairACnND()
    ensures PairGives(0, ACn, ND, ACD)
  {
    assert Disjuncts(ND) == [ND] && Conjuncts(ACn) == [A, NC];
    assert [A, NC][1..] == [NC] && [NC][1..] == [];
    assert VerdictOf(ND, [NC], false) == Keep;
    assert VerdictOf(ND, [A, NC], false) == Keep;
    assert [A, NC] + [ND] == [A, NC, ND];
    assert SortKey(NC) == "c" && SortKey(ND) == "d";
    assert LexLe("a", "c") && LexLe("a", "d") && LexLe("c", "d");
    PairTermAppends(0, ACn, [ND]);
  }

  lemma TermAB(d: nat)
    requires d >= 2
    ensures ToDnf(AB, true, d) == Ok(AB)
  {
    assert Disjuncts(A) == [A] && Disjuncts(B) == [B];
    assert AB.children[1..] == [B] && [B][1..] == [];
    PairAB();
    CrossOneByOne(0, A, B, AB);
    DistributeStep(0, [A], [B], d - 1, [B], [AB]);
    assert Distribute(0, [A], [B], d - 1) == Ok([AB]);
    ConjunctionStep(0, [A, B], d, [A], [AB]);
  }

  lemma TermACD(d: nat)
    requires d >= 2
    ensures ToDnf(ACD, true, d) == Ok(ACD)
  {
    assert Disjuncts(A) == [A] && Disjuncts(NC) == [NC] && Disjuncts(ND) == [ND];
    assert ACD.children[1..] == [NC, ND] && [NC, ND][1..] == [ND] && [ND][1..] == [];
    PairANC();
    PairACnND();
    CrossOneByOne(0, A, NC, ACn);
    CrossOneByOne(0, ACn, ND, ACD);
    DistributeStep(0, [A], [NC, ND], d - 1, [NC], [ACn]);
    DistributeStep(0, [ACn], [ND], d - 1, [ND], [ACD]);
    assert Distribute(0, [A], [NC, ND], d - 1) == Ok([ACD]);
    ConjunctionStep(0, [A, NC, ND], d, [A], [ACD]);
  }

  lemma DistributeOuter(d: nat)
    requires d >= 4
    ensures Distribute(0, [A], [D2], d) == Ok([AB, ACD])
  {
    InnerDisjunction(d);
    PairAB();
    PairADF5();
    CrossOneByTwo(0, A, B, DF5, AB, ACD);
    DistributeStep(0, [A], [D2], d, [B, DF5], [AB, ACD]);
    assert [D2][1..] == [];
  }

  lemma RendersDiffer()
    ensures Render(AB) != Render(ACD)
  {
    var p1 := seq(|AB.children|, i requires 0 <= i < |AB.children| =>
      if AB.children[i].DForm? then Parenthesised(Render(AB.children[i])) else Render(AB.children[i]));
    var p2 := seq(|ACD.children|, i requires 0 <= i < |ACD.children| =>
      if ACD.children[i].DForm? then Parenthesised(Render(ACD.children[i])) else Render(ACD.children[i]));
    assert Render(AB) == Join(p1, "&") && Render(ACD) == Join(p2, "&");
    JoinContains(p1, "&", 'b');
    JoinContains(p2, "&", 'b');
    assert 'b' in p1[1];
    assert p2[0] == "a" && p2[1] == "!c" && p2[2] == "!d";
  }

  lemma TwoTerms(d: nat)
    requires d >= 2
    ensures DnfAll([AB, ACD], true, d) == Ok([AB, ACD])
  {
    TermAB(d);
    TermACD(d);
    assert [AB, ACD][..1] == [AB] && [AB][..0] == [];
    var none: seq<Node> := [];
    assert none + [AB] == [AB] && [AB] + [ACD] == [AB, ACD];
    assert DnfAll([AB], true, d) == Ok([AB]);
  }

  lemma OuterConjunction(d: nat)
    requires d >= 5
    ensures ToDnf(F, true, d) == ToDnf(DForm(0, [AB, ACD]), true, d - 1)
  {
    assert Disjuncts(A) == [A] && F.children[1..] == [D2];
    DistributeOuter(d - 1);
    ConjunctionStep(0, [A, D2], d, [A], [AB, ACD]);
    SpliceNoneOfKind([AB, ACD], DisjunctionKind);
  }

  lemma FinalDisjunction(d: nat)
    requires d >= 3
    ensures ToDnf(DForm(0, [AB, ACD]), true, d) == Ok(DForm(0, [AB, ACD]))
  {
    TwoTerms(d - 1);
    DisjunctionStep(0, [AB, ACD], d, [AB, ACD]);
    RendersDiffer();
    DedupNoDuplicates([AB, ACD], RenderKey);
  }

  /** `a&(b+!(c&d))`: the disjunctive normal form is `a&b+a&!c&!d`. */
  lemma NestedDisjunctionDnf(d: nat)
    requires d >= 5
    ensures ToDnf(F, true, d) == Ok(DForm(0, [AB, ACD]))
  {
    OuterConjunction(d);
    FinalDisjunction(d - 1);
  }

  /**
   * The parsed `a&(b+!(c&d))` is true when only `a` and `d` are, but its
   * as-written disjunctive normal form is not: the nested disjunction
   * `!c+!d` is taken as the conjunction `!c&!d`.
   */
  lemma NestedDisjunctionUnsound(d: nat)
    requires d >= 5
    ensures ParseSpec(Nested) == Ok(F)
    ensures ToDnf(F, true, d).Ok?
    ensures Eval(F, {'a', 'd'}) && !Eval(ToDnf(F, true, d).value, {'a', 'd'})
  {
    ParseNested();
    NestedDisjunctionDnf(d);
    NestedTruth();
  }

  /** Under `a` and `d` alone the formula holds and both terms fail. */
  lemma NestedTruth()
    ensures Eval(F, {'a', 'd'}) && !Eval(DForm(0, [AB, ACD]), {'a', 'd'})
  {
    var env := {'a', 'd'};
    assert !Eval(C, env) && Eval(D, env) && !Eval(B, env);
    assert !Eval(CForm(6, [C, D]).children[0], env);
    assert !Eval(CForm(6, [C, D]), env);
    assert Eval(D2.children[1], env);
    assert Eval(D2, env);
    assert !Eval(AB.children[1], env) && !Eval(ACD.children[2], env);
    assert !Eval(AB, env) && !Eval(ACD, env);
  }


  lemma PairBC()
    ensures PairGives(2, VB, VC, BC)
  {
    assert Disjuncts(VC) == [VC] && Conjuncts(VB) == [VB];
    assert [VB][1..] == [];
    assert VerdictOf(VC, [VB], false) == Keep;
    assert [VB] + [VC] == [VB, VC];
    assert LexLe(SortKey(VB), SortKey(VC));
    PairTermAppends(2, VB, [VC]);
  }

  lemma TermBC(d: nat)
    requires d >= 2
    ensures ToDnf(BC, true, d) == Ok(BC)
  {
    assert Disjuncts(VB) == [VB] && Disjuncts(VC) == [VC];
    assert BC.children[1..] == [VC] && [VC][1..] == [];
    PairBC();
    CrossOneByOne(2, VB, VC, BC);
    DistributeStep(2, [VB], [VC], d - 1, [VC], [BC]);
    assert Distribute(2, [VB], [VC], d - 1) == Ok([BC]);
    ConjunctionStep(2, [VB, VC], d, [VB], [BC]);
  }

  lemma NegatedNegations(k: nat)
    requires k >= 2
    ensures NegatedDnfs([NB, NCC], k) == Ok([VB, VC])
  {
    assert ToDnf(Neg(4, NB), true, k) == Ok(VB);
    assert ToDnf(Neg(7, NCC), true, k) == Ok(VC);
    assert [NB, NCC][..1] == [NB] && [NB][..0] == [];
    var none: seq<Node> := [];
    assert none + [VB] == [VB] && [VB] + [VC] == [VB, VC];
    assert NegatedDnfs([NB], k) == Ok([VB]);
  }

  lemma NegatedDisjunctionTerms(d: nat)
    requires d >= 3
    ensures ToDnf(Neg(2, DF3), true, d) == Ok(BC)
    ensures NormalizePartial(Neg(2, DF3), true, d) == Ok([BC])
  {
    NegatedDisjunctionDnf(d);
    assert Disjuncts(BC) == [BC];
  }

  lemma NegatedDisjunctionDnf(d: nat)
    requires d >= 3
    ensures ToDnf(Neg(2, DF3), true, d) == Ok(BC)
  {
    NegatedNegations(d - 1);
    SpliceNoneOfKind([VB, VC], ConjunctionKind);
    assert MkCForm(2, [VB, VC]) == BC;
    NegationStep(2, DF3, d, [VB, VC]);
    assert ToDnf(Neg(2, DF3), true, d) == ToDnf(BC, true, d - 1);
    TermBC(d - 1);
  }

  /** `a&!(!b+!c)`: the right term `b&c` is a conjunction, and the pair step fails on it. */
  lemma ConjunctiveRightFails(d: nat)
    requires d >= 4
    ensures ParseSpec(Negated) == Ok(G)
    ensures ToDnf(G, true, d) == Err(NoSortKey)
  {
    ParseNegated();
    ConjunctiveRightDnf(d);
  }

  lemma ConjunctiveRightDnf(d: nat)
    requires d >= 4
    ensures ToDnf(G, true, d) == Err(NoSortKey)
  {
    assert Disjuncts(A) == [A] && G.children[1..] == [Neg(2, DF3)];
    NegatedDisjunctionTerms(d - 1);
    CrossConjunctiveRight(0, A, BC);
    assert Distribute(0, [A], [Neg(2, DF3)], d - 1) == Err(NoSortKey);
    ConjunctionFails(0, G.children, d, [A], NoSortKey);
  }

  // ----- `a&!a` -----

  /**
   * `a&!a` (or any variable and its negation at any positions): every pair
   * clashes, no term is left, and the as-written conversion fails taking
   * the first of none; the corrected one gives the empty disjunction.
   */
  lemma ContradictionNoTerms(p: int, q: int, r: int, s: int, x: char, positive: bool, depth: nat)
    requires depth >= 2
    ensures ToDnf(CForm(p, [Var(q, x), Neg(r, Var(s, x))]), positive, depth) == Err(NoTerms)
    ensures CorrectedForms.Dnf(CForm(p, [Var(q, x), Neg(r, Var(s, x))]), depth) == Ok(DForm(p, []))
  {
    var a := Var(q, x);
    var na := Neg(r, Var(s, x));
    var cs := [a, na];
    assert cs[1..] == [na];
    assert Same(na.negated, a);
    assert VerdictOf(na, [a], false) == Clash;
    assert Scan([a], [na]) == None;
    assert PairTerm(p, a, [na]) == Ok(None);
    assert [a][..0] == [] && [na][..0] == [];
    assert Disjuncts(na) == [na] && Conjuncts(na) == [na];
    assert CrossRight(p, [], na) == Ok([]);
    var none: seq<Node> := [];
    assert none + none == none;
    assert CrossRight(p, [a], na) == Ok([]);
    assert Cross(p, [a], [na]) == Ok([]);
    assert NormalizePartial(a, positive, depth - 1) == Ok([a]);
    assert NormalizePartial(na, true, depth - 1) == Ok([na]);
    assert Distribute(p, [a], [na], depth - 1) == Ok([]);
    assert CorrectedForms.CrossRight(p, [a], na) == Ok([]);
    assert CorrectedForms.Cross(p, [a], [na]) == Ok([]);
    assert CorrectedForms.DnfTerms(a, depth - 1) == Ok([a]);
    assert CorrectedForms.DnfTerms(na, depth - 1) == Ok([na]);
    assert CorrectedForms.Distribute(p, [a], [na], depth - 1) == Ok([]);
  }

  lemma ContradictionFinding(depth: nat)
    requires depth >= 2
    ensures ParseSpec(Contradiction) == Ok(CForm(0, [A, NA]))
    ensures ToDnf(CForm(0, [A, NA]), true, depth) == Err(NoTerms)
  {
    ParseContradiction();
    ContradictionNoTerms(0, 0, 2, 3, 'a', true, depth);
  }

  // ----- The order `list(set(...))` leaves the children in -----

  /**
   * The pair step reads the left literals in order and stops at the first
   * one that shares the right literal's variable, so the order that
   * duplicate removal leaves in a term decides its fate.  With `a&e&!e`
   * (first occurrence, as `Dedup` keeps it) the right literal `!e` meets
   * `e` first and the term is dropped; with `a&!e&e` it meets `!e` first
   * and the term is kept unchanged.
   */
  lemma PairOrderSensitive(p: int, q: int)
    ensures var ne := Neg(q, Var(q, 'e'));
      && PairTerm(p, CForm(p, [Var(p, 'a'), Var(p, 'e'), Neg(p, Var(p, 'e'))]), [ne]) == Ok(None)
      && PairTerm(p, CForm(p, [Var(p, 'a'), Neg(p, Var(p, 'e')), Var(p, 'e')]), [ne]) ==
           Ok(Some(CForm(p, [Var(p, 'a'), Neg(p, Var(p, 'e')), Var(p, 'e')])))
  {
    var ea, ee, ne0 := Var(p, 'a'), Var(p, 'e'), Neg(p, Var(p, 'e'));
    var ne := Neg(q, Var(q, 'e'));
    assert Render(ea) == "a" && Render(ee) == "e" && Render(ne.negated) == "e";
    assert [ea, ee, ne0][1..] == [ee, ne0] && [ea, ne0, ee][1..] == [ne0, ee];
    assert [ne][1..] == [];
    assert VerdictOf(ne, [ee, ne0], false) == Clash;
    assert VerdictOf(ne, [ea, ee, ne0], false) == Clash;
    assert VerdictOf(ne, [ne0, ee], false) == Skip;
    assert VerdictOf(ne, [ea, ne0, ee], false) == Skip;
    assert Scan([ea, ne0, ee], [ne]) == Some([]);
  }

  // The tree of `a&(!a+!(!e&e))&!e`, each node at the position of its token.
  const OA := Var(0, 'a')
  const ONA := Neg(3, Var(4, 'a'))
  const ONE8 := Neg(8, Var(9, 'e'))
  const OE11 := Var(11, 'e')
  const OE9 := Var(9, 'e')
  const ONE11 := Neg(11, Var(11, 'e'))
  const OC7 := CForm(7, [ONE8, OE11])
  const ON6 := Neg(6, OC7)
  const OD2 := DForm(2, [ONA, ON6])
  const ONE16 := Neg(15, Var(16, 'e'))
  const OF := CForm(0, [OA, OD2, ONE16])
  const OX := DForm(6, [OE9, ONE11])
  const OT := CForm(0, [OA, OE9, ONE11])

  lemma OrderNegatedParts(d: nat)
    requires d >= 2
    ensures NegatedDnfs([ONE8, OE11], d) == Ok([OE9, ONE11])
  {
    assert ToDnf(Neg(8, ONE8), true, d) == Ok(OE9);
    assert ToDnf(Neg(11, OE11), true, d) == Ok(ONE11);
    assert [ONE8, OE11][..1] == [ONE8] && [ONE8][..0] == [];
    var none: seq<Node> := [];
    assert none + [OE9] == [OE9] && [OE9] + [ONE11] == [OE9, ONE11];
    assert NegatedDnfs([ONE8], d) == Ok([OE9]);
  }

  /** The inner `!(!e&e)` becomes `e+!e`: the first occurrence comes first. */
  lemma OrderInner(d: nat)
    requires d >= 3
    ensures ToDnf(ON6, true, d) == Ok(OX)
  {
    OrderNegatedParts(d - 1);
    NegationStep(6, OC7, d, [OE9, ONE11]);
    SpliceNoneOfKind([OE9, ONE11], DisjunctionKind);
    assert MkDForm(6, [OE9, ONE11]) == OX;
    OrderInnerClause(d - 1);
  }

  lemma OrderInnerClause(d: nat)
    requires d >= 2
    ensures ToDnf(OX, true, d) == Ok(OX)
  {
    LiteralListsUnchanged([OE9, ONE11], true, d - 1);
    OrderInnerDedup();
    DisjunctionStep(6, [OE9, ONE11], d, [OE9, ONE11]);
  }

  lemma OrderInnerDedup()
    ensures Dedup([OE9, ONE11], RenderKey) == [OE9, ONE11]
  {
    var cs := [OE9, ONE11];
    assert RenderKey(cs[0]) != RenderKey(cs[1]) by {
      assert KindOf(cs[0]) != KindOf(cs[1]);
    }
    DedupNoDuplicates(cs, RenderKey);
  }

  lemma OrderMiddle(d: nat)
    requires d >= 4
    ensures NormalizePartial(OD2, true, d) == Ok([ONA, OX])
  {
    var cs := [ONA, ON6];
    assert cs[..1] == [ONA];
    LiteralListsUnchanged([ONA], true, d - 1);
    OrderInner(d - 1);
    assert DnfAll(cs, true, d - 1) == Ok([ONA] + [OX]);
    assert [ONA] + [OX] == [ONA, OX];
    assert KindOf(ONA) != KindOf(OX);
    DedupNoDuplicates([ONA, OX], RenderKey);
  }

  /** `a` against `!a` clashes, and against `e+!e` gives `a&e&!e`. */
  lemma OrderFirstCross()
    ensures Cross(0, [OA], [ONA, OX]) == Ok([OT])
  {
    OrderFirstClash();
    OrderFirstPair();
    var none: seq<Node> := [];
    assert [ONA] + [OX] == [ONA, OX];
    CrossOneLeftSnoc(0, OA, [ONA], OX, none, OT);
    assert none + [OT] == [OT];
  }

  /** `a` against `!a`: the clash drops the term. */
  lemma OrderFirstClash()
    ensures Cross(0, [OA], [ONA]) == Ok([])
  {
    assert Conjuncts(OA) == [OA] && [OA][1..] == [] && [OA][..0] == [];
    assert Disjuncts(ONA) == [ONA] && [ONA][1..] == [];
    assert Same(ONA.negated, OA);
    assert VerdictOf(ONA, [OA], false) == Clash;
    assert PairTerm(0, OA, [ONA]) == Ok(None);
    var none: seq<Node> := [];
    assert CrossRight(0, none, ONA) == Ok(none);
    assert none + none == none;
    assert CrossRight(0, [OA], ONA) == Ok(none);
    assert [ONA][..0] == none;
    assert Cross(0, [OA], none) == Ok(none);
  }

  /** `a` against `e+!e`: both literals are kept, giving `a&e&!e`. */
  lemma OrderFirstPair()
    ensures PairGives(0, OA, OX, OT)
  {
    assert Conjuncts(OA) == [OA];
    assert Disjuncts(OX) == [OE9, ONE11];
    assert VerdictOf(OE9, [OA], false) == Keep;
    assert VerdictOf(ONE11, [OA], false) == Keep;
    assert [OA] + [OE9, ONE11] == [OA, OE9, ONE11];
    assert SortKey(OA) == "a" && SortKey(OE9) == "e" && SortKey(ONE11) == "e";
    assert LexLe("a", "e") && LexLe("e", "e");
    PairTermAppends(0, OA, [OE9, ONE11]);
  }

  /** `a&e&!e` against the last `!e`: `e` comes first, so the term is dropped. */
  lemma OrderSecondCross()
    ensures Cross(0, [OT], [ONE16]) == Ok([])
  {
    PairOrderSensitive(0, 15);
    assert Disjuncts(ONE16) == [ONE16];
    assert Render(ONE16.negated) == "e" && Render(Neg(15, Var(15, 'e')).negated) == "e";
    assert Scan([OA, OE9, ONE11], [ONE16]) == Scan([Var(0, 'a'), Var(0, 'e'), Neg(0, Var(0, 'e'))], [Neg(15, Var(15, 'e'))]) by {
      assert [ONE16][1..] == [];
      assert [OA, OE9, ONE11][1..] == [OE9, ONE11];
      assert VerdictOf(ONE16, [OE9, ONE11], false) == Clash;
      assert VerdictOf(ONE16, [OA, OE9, ONE11], false) == Clash;
    }
    assert PairTerm(0, OT, [ONE16]) == Ok(None);
    assert [OT][..0] == [];
    var none: seq<Node> := [];
    assert CrossRight(0, none, ONE16) == Ok(none);
    assert none + none == none;
    assert CrossRight(0, [OT], ONE16) == Ok(none);
    assert [ONE16][..0] == [];
    assert Cross(0, [OT], none) == Ok(none);
  }

  /**
   * On `a&(!a+!(!e&e))&!e`, with duplicates removed in order of
   * first occurrence, every term clashes and the as-written `toDNF` fails
   * with `NoTerms`; with `!e+e` as the inner disjunction the pair step
   * would skip the last `!e` instead (`PairOrderSensitive`).
   */
  lemma OrderDependentFailure(d: nat)
    requires d >= 6
    ensures ToDnf(OF, true, d) == Err(NoTerms)
  {
    LiteralsUnchanged(OA, true, d - 1);
    assert Disjuncts(OA) == [OA];
    assert NormalizePartial(OA, true, d - 1) == Ok([OA]);
    assert OF.children[1..] == [OD2, ONE16];
    OrderDistribute(d - 1);
    ConjunctionStep(0, [OA, OD2, ONE16], d, [OA], []);
  }

  lemma OrderDistribute(d: nat)
    requires d >= 5
    ensures Distribute(0, [OA], [OD2, ONE16], d) == Ok([])
  {
    assert [OD2, ONE16][1..] == [ONE16];
    OrderMiddle(d);
    OrderFirstCross();
    DistributeStep(0, [OA], [OD2, ONE16], d, [ONA, OX], [OT]);
    OrderLast(d);
  }

  lemma OrderLast(d: nat)
    requires d >= 1
    ensures Distribute(0, [OT], [ONE16], d) == Ok([])
  {
    var none: seq<Node> := [];
    LiteralsUnchanged(ONE16, true, d);
    assert Disjuncts(ONE16) == [ONE16];
    assert NormalizePartial(ONE16, true, d) == Ok([ONE16]);
    OrderSecondCross();
    DistributeStep(0, [OT], [ONE16], d, [ONE16], none);
    assert [ONE16][1..] == none;
    assert Distribute(0, none, none, d) == Ok(none);
  }
}
