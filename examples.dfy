/**
 * What the parser makes of particular formulas, step by step through the
 * token loop: the end-of-input disjunction at position -1, `&` binding
 * adjacent operands, brackets, `!` on a bracket, and the two formulas
 * whose normal forms go wrong.
 */
module Examples {
  import opened Wrappers
  import opened Ast
  import opened Parser

  lemma RunNext(f: string, k: nat, st: State, st': State)
    requires k < |f| && Run(f[..k]) == Ok(st) && Step(st, k, f[k]) == Ok(st')
    ensures Run(f[..k + 1]) == Ok(st')
  {
    assert f[..k + 1][..k] == f[..k];
  }

  /** One token of a formula: the same step, with the token named. */
  lemma RunToken(f: string, k: nat, c: char, st: State, st': State)
    requires k < |f| && f[k] == c && Run(f[..k]) == Ok(st) && Step(st, k, c) == Ok(st')
    ensures Run(f[..k + 1]) == Ok(st')
  {
    RunNext(f, k, st, st');
  }

  /** A token that is not a bracket, `&`, `!` or `+` is an operand, pushed as a variable. */
  lemma StepOperand(st: State, pos: nat, c: char, ns: seq<Node>, ss: seq<Pending>)
    requires c != '(' && c != ')' && c != '&' && c != '!' && c != '+'
    requires Push(Var(pos, c), st.nodes, st.symbols) == Ok((ns, ss))
    ensures Step(st, pos, c) == Ok(State(ns, st.brackets, ss))
  {
  }

  /** A `)` over several operands since its `(` pushes their disjunction at the `(`'s position. */
  lemma StepCloseMany(st: State, pos: nat, d: nat, p: int, ns: seq<Node>, ss: seq<Pending>)
    requires |st.brackets| > 0 && st.brackets[|st.brackets| - 1] == Bracket(d, p)
    requires d + 1 < |st.nodes|
    requires Push(MkDForm(p, st.nodes[d..]), st.nodes[..d], st.symbols) == Ok((ns, ss))
    ensures Step(st, pos, ')') == Ok(State(ns, st.brackets[..|st.brackets| - 1], ss))
  {
  }

  /** A `)` over one operand since its `(` pushes that operand again, at the `(`'s position. */
  lemma StepCloseOne(st: State, pos: nat, d: nat, p: int, ns: seq<Node>, ss: seq<Pending>)
    requires |st.brackets| > 0 && st.brackets[|st.brackets| - 1] == Bracket(d, p)
    requires d + 1 == |st.nodes|
    requires Push(WithPos(st.nodes[d], p), st.nodes[..d], st.symbols) == Ok((ns, ss))
    ensures Step(st, pos, ')') == Ok(State(ns, st.brackets[..|st.brackets| - 1], ss))
  {
    assert st.nodes[d..] == [st.nodes[d]];
  }

  lemma PushPlain(node: Node, nodes: seq<Node>, symbols: seq<Pending>)
    requires |symbols| == 0 || symbols[|symbols| - 1].pos != node.pos - 1
    ensures Push(node, nodes, symbols) == Ok((nodes + [node], symbols))
  {
  }

  const Sum := "a&b+c"
  const SA := Var(0, 'a')
  const SB := Var(2, 'b')
  const SC := Var(4, 'c')
  const SAB := CForm(0, [SA, SB])

  lemma SumPrefix2()
    ensures Run(Sum[..2]) == Ok(State([SA], [], [Pending('&', 1)]))
  {
    var none: seq<Node> := [];
    var nosym: seq<Pending> := [];
    assert Sum[..0] == [];
    assert Sum[0] == 'a' && Sum[1] == '&';
    assert Step(State([], [], []), 0, 'a') == Ok(State([SA], [], [])) by {
      PushPlain(SA, [], []);
      assert none + [SA] == [SA];
      StepOperand(State([], [], []), 0, 'a', [SA], []);
    }
    RunToken(Sum, 0, 'a', State([], [], []), State([SA], [], []));
    assert Step(State([SA], [], []), 1, '&') == Ok(State([SA], [], [Pending('&', 1)])) by {
      assert nosym + [Pending('&', 1)] == [Pending('&', 1)];
    }
    RunToken(Sum, 1, '&', State([SA], [], []), State([SA], [], [Pending('&', 1)]));
  }

  lemma SumStep2()
    ensures Step(State([SA], [], [Pending('&', 1)]), 2, 'b') == Ok(State([SAB], [], []))
  {
    var none: seq<Node> := [];
    SpliceNoneOfKind([SA, SB], ConjunctionKind);
    assert [SA][..0] == [] && [Pending('&', 1)][..0] == [];
    assert Push(SB, [SA], [Pending('&', 1)]) == Push(SAB, [], []);
    PushPlain(SAB, [], []);
    assert none + [SAB] == [SAB];
    assert Push(SB, [SA], [Pending('&', 1)]) == Ok(([SAB], []));
    var st := State([SA], [], [Pending('&', 1)]);
    assert Var(2, 'b') == SB;
    assert st.(nodes := [SAB], symbols := []) == State([SAB], [], []);
    StepOperand(State([SA], [], [Pending('&', 1)]), 2, 'b', [SAB], []);
  }

  lemma SumPrefix3()
    ensures Run(Sum[..3]) == Ok(State([SAB], [], []))
  {
    SumPrefix2();
    SumStep2();
    assert Sum[2] == 'b';
    RunToken(Sum, 2, 'b', State([SA], [], [Pending('&', 1)]), State([SAB], [], []));
  }

  lemma SumPrefix4()
    ensures Run(Sum[..4]) == Ok(State([SAB], [], []))
  {
    SumPrefix3();
    assert Sum[3] == '+';
    assert Step(State([SAB], [], []), 3, '+') == Ok(State([SAB], [], []));
    RunToken(Sum, 3, '+', State([SAB], [], []), State([SAB], [], []));
  }

  /** `a&b+c`: `&` binds its adjacent operands, and the operands left at the end form a disjunction at position -1. */
  lemma ParseConjunctionThenDisjunction()
    ensures ParseSpec(Sum) == Ok(DForm(-1, [SAB, SC]))
  {
    SumPrefix4();
    assert Sum[4] == 'c';
    assert Step(State([SAB], [], []), 4, 'c') == Ok(State([SAB, SC], [], [])) by {
      PushPlain(SC, [SAB], []);
      assert [SAB] + [SC] == [SAB, SC];
      StepOperand(State([SAB], [], []), 4, 'c', [SAB, SC], []);
    }
    RunToken(Sum, 4, 'c', State([SAB], [], []), State([SAB, SC], [], []));
    assert Sum[..5] == Sum;
    SpliceNoneOfKind([SAB, SC], DisjunctionKind);
  }

  // ----- `a&(b+!(c&d))` -----

  const A := Var(0, 'a')
  const B := Var(3, 'b')
  const C := Var(7, 'c')
  const D := Var(9, 'd')
  const C7 := CForm(7, [C, D])
  const C6 := CForm(6, [C, D])
  const N5 := Neg(5, C6)
  const D2 := DForm(2, [B, N5])
  const F := CForm(0, [A, D2])

  const Nested := "a&(b+!(c&d))"
  const Amp := Pending('&', 1)
  const Bang := Pending('!', 5)
  const Amp2 := Pending('&', 8)
  const Outer := Bracket(1, 2)
  const Inner := Bracket(2, 6)

  /** The stacks after each token of `a&(b+!(c&d))`. */
  const N2 := State([A], [], [Amp])
  const N3 := State([A], [Outer], [Amp])
  const N4 := State([A, B], [Outer], [Amp])
  const N6 := State([A, B], [Outer], [Amp, Bang])
  const N7 := State([A, B], [Outer, Inner], [Amp, Bang])
  const N8 := State([A, B, C], [Outer, Inner], [Amp, Bang])
  const N9 := State([A, B, C], [Outer, Inner], [Amp, Bang, Amp2])
  const N10 := State([A, B, C7], [Outer, Inner], [Amp, Bang])
  const N11 := State([A, B, N5], [Outer], [Amp])

  lemma NestedPrefix2()
    ensures Run(Nested[..2]) == Ok(N2)
  {
    var none: seq<Node> := [];
    var nosym: seq<Pending> := [];
    assert Nested[..0] == [];
    assert Nested[0] == 'a' && Nested[1] == '&';
    assert Step(State([], [], []), 0, 'a') == Ok(State([A], [], [])) by {
      PushPlain(A, [], []);
      assert none + [A] == [A];
      StepOperand(State([], [], []), 0, 'a', [A], []);
    }
    RunToken(Nested, 0, 'a', State([], [], []), State([A], [], []));
    assert Step(State([A], [], []), 1, '&') == Ok(N2) by {
      assert nosym + [Amp] == [Amp];
    }
    RunToken(Nested, 1, '&', State([A], [], []), N2);
  }

  lemma NestedPrefix3()
    ensures Run(Nested[..3]) == Ok(N3)
  {
    var nobr: seq<Bracket> := [];
    NestedPrefix2();
    assert Nested[2] == '(';
    assert Step(N2, 2, '(') == Ok(N3) by {
      assert nobr + [Outer] == [Outer];
    }
    RunToken(Nested, 2, '(', N2, N3);
  }

  lemma NestedStep3()
    ensures Step(N3, 3, 'b') == Ok(N4)
  {
    PushPlain(B, [A], [Amp]);
    assert [A] + [B] == [A, B];
    assert Push(B, N3.nodes, N3.symbols) == Ok(([A, B], [Amp]));
    StepOperand(N3, 3, 'b', [A, B], [Amp]);
  }

  lemma NestedPrefix4()
    ensures Run(Nested[..4]) == Ok(N4)
  {
    NestedPrefix3();
    NestedStep3();
    assert Nested[3] == 'b';
    RunToken(Nested, 3, 'b', N3, N4);
  }

  lemma NestedPrefix6()
    ensures Run(Nested[..6]) == Ok(N6)
  {
    NestedPrefix4();
    assert Nested[4] == '+' && Nested[5] == '!';
    RunToken(Nested, 4, '+', N4, N4);
    assert Step(N4, 5, '!') == Ok(N6) by {
      assert [Amp] + [Bang] == [Amp, Bang];
    }
    RunToken(Nested, 5, '!', N4, N6);
  }

  lemma NestedPrefix8()
    ensures Run(Nested[..8]) == Ok(N8)
  {
    NestedPrefix6();
    assert Nested[6] == '(' && Nested[7] == 'c';
    assert Step(N6, 6, '(') == Ok(N7) by {
      assert [Outer] + [Inner] == [Outer, Inner];
    }
    RunToken(Nested, 6, '(', N6, N7);
    assert Step(N7, 7, 'c') == Ok(N8) by {
      PushPlain(C, [A, B], [Amp, Bang]);
      assert [A, B] + [C] == [A, B, C];
      StepOperand(N7, 7, 'c', [A, B, C], [Amp, Bang]);
    }
    RunToken(Nested, 7, 'c', N7, N8);
  }

  lemma NestedPrefix9()
    ensures Run(Nested[..9]) == Ok(N9)
  {
    NestedPrefix8();
    assert Nested[8] == '&';
    assert Step(N8, 8, '&') == Ok(N9) by {
      assert [Amp, Bang] + [Amp2] == [Amp, Bang, Amp2];
    }
    RunToken(Nested, 8, '&', N8, N9);
  }

  lemma NestedStep9()
    ensures Step(N9, 9, 'd') == Ok(N10)
  {
    SpliceNoneOfKind([C, D], ConjunctionKind);
    assert [A, B, C][..2] == [A, B] && [Amp, Bang, Amp2][..2] == [Amp, Bang];
    assert Push(D, [A, B, C], [Amp, Bang, Amp2]) == Push(C7, [A, B], [Amp, Bang]);
    PushPlain(C7, [A, B], [Amp, Bang]);
    assert [A, B] + [C7] == [A, B, C7];
    assert Push(D, N9.nodes, N9.symbols) == Ok(([A, B, C7], [Amp, Bang]));
    StepOperand(N9, 9, 'd', [A, B, C7], [Amp, Bang]);
  }

  lemma NestedPrefix10()
    ensures Run(Nested[..10]) == Ok(N10)
  {
    NestedPrefix9();
    NestedStep9();
    assert Nested[9] == 'd';
    RunToken(Nested, 9, 'd', N9, N10);
  }

  lemma NestedStep10()
    ensures Step(N10, 10, ')') == Ok(N11)
  {
    assert [A, B, C7][2..] == [C7] && [A, B, C7][..2] == [A, B] && [Outer, Inner][..1] == [Outer];
    assert [Amp, Bang][..1] == [Amp];
    assert Push(C6, [A, B], [Amp, Bang]) == Push(N5, [A, B], [Amp]);
    PushPlain(N5, [A, B], [Amp]);
    assert [A, B] + [N5] == [A, B, N5];
    StepCloseOne(N10, 10, 2, 6, [A, B, N5], [Amp]);
  }

  lemma NestedPrefix11()
    ensures Run(Nested[..11]) == Ok(N11)
  {
    NestedPrefix10();
    NestedStep10();
    assert Nested[10] == ')';
    RunToken(Nested, 10, ')', N10, N11);
  }

  lemma NestedStep11()
    ensures Step(N11, 11, ')') == Ok(State([F], [], []))
  {
    var none: seq<Node> := [];
    assert [A, B, N5][1..] == [B, N5] && [A, B, N5][..1] == [A] && [Outer][..0] == [];
    SpliceNoneOfKind([B, N5], DisjunctionKind);
    SpliceNoneOfKind([A, D2], ConjunctionKind);
    assert [A][..0] == [] && [Amp][..0] == [];
    assert Push(D2, [A], [Amp]) == Push(F, [], []);
    PushPlain(F, [], []);
    assert none + [F] == [F];
    StepCloseMany(N11, 11, 1, 2, [F], []);
  }

  /** `a&(b+!(c&d))` parses to the conjunction of `a` and the bracketed disjunction. */
  lemma ParseNested()
    ensures ParseSpec(Nested) == Ok(F)
  {
    NestedPrefix11();
    NestedStep11();
    assert Nested[11] == ')';
    RunToken(Nested, 11, ')', N11, State([F], [], []));
    assert Nested[..12] == Nested;
  }

  // ----- `a&!(!b+!c)` -----

  const VB := Var(5, 'b')
  const VC := Var(8, 'c')
  const NB := Neg(4, VB)
  const NCC := Neg(7, VC)
  const DF3 := DForm(3, [NB, NCC])
  const G := CForm(0, [A, Neg(2, DF3)])

  const Negated := "a&!(!b+!c)"
  const Bang2 := Pending('!', 2)
  const Bang4 := Pending('!', 4)
  const Bang7 := Pending('!', 7)
  const Open3 := Bracket(1, 3)

  /** The stacks after each token of `a&!(!b+!c)`. */
  const G3 := State([A], [], [Amp, Bang2])
  const G4 := State([A], [Open3], [Amp, Bang2])
  const G5 := State([A], [Open3], [Amp, Bang2, Bang4])
  const G6 := State([A, NB], [Open3], [Amp, Bang2])
  const G8 := State([A, NB], [Open3], [Amp, Bang2, Bang7])
  const G9 := State([A, NB, NCC], [Open3], [Amp, Bang2])

  lemma NegatedPrefix2()
    ensures Run(Negated[..2]) == Ok(N2)
  {
    var none: seq<Node> := [];
    var nosym: seq<Pending> := [];
    assert Negated[..0] == [];
    assert Negated[0] == 'a' && Negated[1] == '&';
    assert Step(State([], [], []), 0, 'a') == Ok(State([A], [], [])) by {
      PushPlain(A, [], []);
      assert none + [A] == [A];
      StepOperand(State([], [], []), 0, 'a', [A], []);
    }
    RunToken(Negated, 0, 'a', State([], [], []), State([A], [], []));
    assert Step(State([A], [], []), 1, '&') == Ok(N2) by {
      assert nosym + [Amp] == [Amp];
    }
    RunToken(Negated, 1, '&', State([A], [], []), N2);
  }

  lemma NegatedPrefix4()
    ensures Run(Negated[..4]) == Ok(G4)
  {
    var nobr: seq<Bracket> := [];
    NegatedPrefix2();
    assert Negated[2] == '!' && Negated[3] == '(';
    assert Step(N2, 2, '!') == Ok(G3) by {
      assert [Amp] + [Bang2] == [Amp, Bang2];
    }
    RunToken(Negated, 2, '!', N2, G3);
    assert Step(G3, 3, '(') == Ok(G4) by {
      assert nobr + [Open3] == [Open3];
    }
    RunToken(Negated, 3, '(', G3, G4);
  }

  lemma NegatedStep5()
    ensures Step(G5, 5, 'b') == Ok(G6)
  {
    assert [Amp, Bang2, Bang4][..2] == [Amp, Bang2];
    assert Push(VB, [A], [Amp, Bang2, Bang4]) == Push(NB, [A], [Amp, Bang2]);
    PushPlain(NB, [A], [Amp, Bang2]);
    assert [A] + [NB] == [A, NB];
    StepOperand(G5, 5, 'b', [A, NB], [Amp, Bang2]);
  }

  lemma NegatedPrefix6()
    ensures Run(Negated[..6]) == Ok(G6)
  {
    NegatedPrefix4();
    assert Negated[4] == '!' && Negated[5] == 'b';
    assert Step(G4, 4, '!') == Ok(G5) by {
      assert [Amp, Bang2] + [Bang4] == [Amp, Bang2, Bang4];
    }
    RunToken(Negated, 4, '!', G4, G5);
    NegatedStep5();
    RunToken(Negated, 5, 'b', G5, G6);
  }

  lemma NegatedStep8()
    ensures Step(G8, 8, 'c') == Ok(G9)
  {
    assert [Amp, Bang2, Bang7][..2] == [Amp, Bang2];
    assert Push(VC, [A, NB], [Amp, Bang2, Bang7]) == Push(NCC, [A, NB], [Amp, Bang2]);
    PushPlain(NCC, [A, NB], [Amp, Bang2]);
    assert [A, NB] + [NCC] == [A, NB, NCC];
    StepOperand(G8, 8, 'c', [A, NB, NCC], [Amp, Bang2]);
  }

  lemma NegatedPrefix8()
    ensures Run(Negated[..8]) == Ok(G8)
  {
    NegatedPrefix6();
    assert Negated[6] == '+' && Negated[7] == '!';
    RunToken(Negated, 6, '+', G6, G6);
    assert Step(G6, 7, '!') == Ok(G8) by {
      assert [Amp, Bang2] + [Bang7] == [Amp, Bang2, Bang7];
    }
    RunToken(Negated, 7, '!', G6, G8);
  }

  lemma NegatedPrefix9()
    ensures Run(Negated[..9]) == Ok(G9)
  {
    NegatedPrefix8();
    NegatedStep8();
    assert Negated[8] == 'c';
    RunToken(Negated, 8, 'c', G8, G9);
  }

  lemma NegatedStep9()
    ensures Step(G9, 9, ')') == Ok(State([G], [], []))
  {
    var none: seq<Node> := [];
    assert [A, NB, NCC][1..] == [NB, NCC] && [A, NB, NCC][..1] == [A] && [Open3][..0] == [];
    SpliceNoneOfKind([NB, NCC], DisjunctionKind);
    SpliceNoneOfKind([A, Neg(2, DF3)], ConjunctionKind);
    assert [Amp, Bang2][..1] == [Amp] && [Amp][..0] == [] && [A][..0] == [];
    assert Push(DF3, [A], [Amp, Bang2]) == Push(G, [], []);
    PushPlain(G, [], []);
    assert none + [G] == [G];
    StepCloseMany(G9, 9, 1, 3, [G], []);
  }

  /** `a&!(!b+!c)` parses to the conjunction of `a` and the negated bracket. */
  lemma ParseNegated()
    ensures ParseSpec(Negated) == Ok(G)
  {
    NegatedPrefix9();
    NegatedStep9();
    assert Negated[9] == ')';
    RunToken(Negated, 9, ')', G9, State([G], [], []));
    assert Negated[..10] == Negated;
  }

  // ----- Small formulas -----

  /** `!!a`: the second `!` unwraps the first, and the variable takes the outer `!`'s position. */
  lemma ParseDoubleNegation()
    ensures ParseSpec("!!a") == Ok(Var(0, 'a'))
  {
    var f := "!!a";
    var nosym: seq<Pending> := [];
    var none: seq<Node> := [];
    var p0, p1 := Pending('!', 0), Pending('!', 1);
    assert f[..0] == [];
    assert nosym + [p0] == [p0] && [p0] + [p1] == [p0, p1];
    RunToken(f, 0, '!', State([], [], []), State([], [], [p0]));
    RunToken(f, 1, '!', State([], [], [p0]), State([], [], [p0, p1]));
    assert Step(State([], [], [p0, p1]), 2, 'a') == Ok(State([Var(0, 'a')], [], [])) by {
      assert [p0, p1][..1] == [p0] && [p0][..0] == [];
      assert Push(Var(2, 'a'), [], [p0, p1]) == Push(Var(0, 'a'), [], []);
      PushPlain(Var(0, 'a'), [], []);
      assert none + [Var(0, 'a')] == [Var(0, 'a')];
      StepOperand(State([], [], [p0, p1]), 2, 'a', [Var(0, 'a')], []);
    }
    RunToken(f, 2, 'a', State([], [], [p0, p1]), State([Var(0, 'a')], [], []));
    assert f[..3] == f;
  }

  /** `(a`: a `(` that is never closed is forgotten at the end. */
  lemma ParseUnclosedBracket()
    ensures ParseSpec("(a") == Ok(Var(1, 'a'))
  {
    var f := "(a";
    var nobr: seq<Bracket> := [];
    var none: seq<Node> := [];
    var open := Bracket(0, 0);
    assert f[..0] == [];
    assert nobr + [open] == [open];
    RunToken(f, 0, '(', State([], [], []), State([], [open], []));
    PushPlain(Var(1, 'a'), [], []);
    assert none + [Var(1, 'a')] == [Var(1, 'a')];
    RunToken(f, 1, 'a', State([], [open], []), State([Var(1, 'a')], [open], []));
    assert f[..2] == f;
  }

  /** `a)`: a `)` without its `(` is an error. */
  lemma ParseUnmatchedClose()
    ensures ParseSpec("a)") == Err(UnmatchedClose)
  {
    var f := "a)";
    var none: seq<Node> := [];
    assert f[..0] == [];
    PushPlain(Var(0, 'a'), [], []);
    assert none + [Var(0, 'a')] == [Var(0, 'a')];
    RunToken(f, 0, 'a', State([], [], []), State([Var(0, 'a')], [], []));
    assert f[..1] == "a" && f[..2] == f;
  }

  const Contradiction := "a&!a"
  const NA := Neg(2, Var(3, 'a'))

  lemma ContradictionStep3()
    ensures Step(G3, 3, 'a') == Ok(State([CForm(0, [A, NA])], [], []))
  {
    var none: seq<Node> := [];
    assert [Amp, Bang2][..1] == [Amp] && [Amp][..0] == [] && [A][..0] == [];
    SpliceNoneOfKind([A, NA], ConjunctionKind);
    assert Push(Var(3, 'a'), [A], [Amp, Bang2]) == Push(CForm(0, [A, NA]), [], []);
    PushPlain(CForm(0, [A, NA]), [], []);
    assert none + [CForm(0, [A, NA])] == [CForm(0, [A, NA])];
    assert Push(Var(3, 'a'), G3.nodes, G3.symbols) == Ok(([CForm(0, [A, NA])], []));
    StepOperand(G3, 3, 'a', [CForm(0, [A, NA])], []);
  }

  /** `a&!a`: `!` binds the second `a`, then `&` binds the negation to the first. */
  lemma ParseContradiction()
    ensures ParseSpec(Contradiction) == Ok(CForm(0, [A, NA]))
  {
    var f := Contradiction;
    var none: seq<Node> := [];
    var nosym: seq<Pending> := [];
    assert f[..0] == [];
    assert f[0] == 'a' && f[1] == '&' && f[2] == '!' && f[3] == 'a';
    assert Step(State([], [], []), 0, 'a') == Ok(State([A], [], [])) by {
      PushPlain(A, [], []);
      assert none + [A] == [A];
      StepOperand(State([], [], []), 0, 'a', [A], []);
    }
    RunToken(f, 0, 'a', State([], [], []), State([A], [], []));
    assert Step(State([A], [], []), 1, '&') == Ok(N2) by {
      assert nosym + [Amp] == [Amp];
    }
    RunToken(f, 1, '&', State([A], [], []), N2);
    assert Step(N2, 2, '!') == Ok(G3) by {
      assert [Amp] + [Bang2] == [Amp, Bang2];
    }
    RunToken(f, 2, '!', N2, G3);
    ContradictionStep3();
    RunToken(f, 3, 'a', G3, State([CForm(0, [A, NA])], [], []));
    assert f[..4] == f;
  }
}
