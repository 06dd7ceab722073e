/**
 * `solve` of the four node kinds (solver.py): the set of partial
 * assignments, as assignment strings over a variable list, that the source
 * returns; and what those assignments mean for the truth of the tree.
 */
module Solver {
  import opened Wrappers
  import opened Solutions
  import opened Ast

  /** A set of assignment strings, each as long as the variable list and over the three values. */
  predicate Solutions?(S: set<seq<char>>, n: nat) {
    forall s :: s in S ==> |s| == n && AllValues(s)
  }

  /** `_Var.solve`: a fresh all-arbitrary solution on which `setVar(x, t or f)` is called. */
  function SolveVar(vl: seq<char>, x: char, positive: bool): (s: seq<char>)
    ensures |s| == |vl| && AllValues(s)
  {
    Assign(vl, AllArbitrary(|vl|), x, if positive then TrueValue else FalseValue)
  }

  /** `set(solutions)` after `solutions += nd.solve(...)` for every child. */
  function UnionAll(ss: seq<set<seq<char>>>): (r: set<seq<char>>)
    ensures forall s :: s in r <==> exists k :: 0 <= k < |ss| && s in ss[k]
  {
    if ss == [] then {}
    else
      var init := UnionAll(ss[..|ss| - 1]);
      assert forall k :: 0 <= k < |ss| - 1 ==> ss[..|ss| - 1][k] == ss[k];
      init + ss[|ss| - 1]
  }

  /** One round of `_CForm.solve`: the combinations of every non-contradicting pair. */
  function Conjoin(S: set<seq<char>>, T: set<seq<char>>, n: nat): (r: set<seq<char>>)
    requires Solutions?(S, n) && Solutions?(T, n)
    ensures Solutions?(r, n)
  {
    MergeValues(S, T, n);
    set si, sj | si in S && sj in T && !Conflict(si, sj) :: Merge(si, sj)
  }

  lemma MergeValues(S: set<seq<char>>, T: set<seq<char>>, n: nat)
    requires Solutions?(S, n) && Solutions?(T, n)
    ensures forall si, sj :: si in S && sj in T ==> |Merge(si, sj)| == n && AllValues(Merge(si, sj))
  {
    forall si, sj | si in S && sj in T
      ensures AllValues(Merge(si, sj))
    {
      MergeKeepsAndFills(si, sj);
    }
  }

  /** `_CForm.solve`: start from the first child's solutions and conjoin each later child's. */
  function ConjoinAll(ss: seq<set<seq<char>>>, n: nat): (r: set<seq<char>>)
    requires |ss| > 0
    requires forall k :: 0 <= k < |ss| ==> Solutions?(ss[k], n)
    ensures Solutions?(r, n)
  {
    if |ss| == 1 then ss[0]
    else Conjoin(ConjoinAll(ss[..|ss| - 1], n), ss[|ss| - 1], n)
  }

  /**
   * `solve(varList, positive)`: a negation flips the polarity; a
   * disjunction unions and a conjunction conjoins its children's
   * solutions, whatever the polarity (as written).
   */
  function Solve(n: Node, vl: seq<char>, positive: bool): (r: set<seq<char>>)
    requires ConjunctionsNonEmpty(n)
    ensures Solutions?(r, |vl|)
  {
    match n
    case Var(_, x) => {SolveVar(vl, x, positive)}
    case Neg(_, y) => Solve(y, vl, !positive)
    case DForm(_, cs) =>
      UnionAll(seq(|cs|, i requires 0 <= i < |cs| => Solve(cs[i], vl, positive)))
    case CForm(_, cs) =>
      ConjoinAll(seq(|cs|, i requires 0 <= i < |cs| => Solve(cs[i], vl, positive)), |vl|)
  }

  // ----- Meaning of a partial assignment -----

  /** The total assignment `env` extends the partial assignment `s`: every set slot agrees with it. */
  predicate Agrees(s: seq<char>, vl: seq<char>, env: set<char>)
    requires |s| == |vl|
  {
    forall i :: 0 <= i < |s| ==>
      (s[i] == TrueValue ==> vl[i] in env) && (s[i] == FalseValue ==> vl[i] !in env)
  }

  /** Some solution of the set is extended by `env`. */
  predicate Covered(S: set<seq<char>>, vl: seq<char>, env: set<char>)
    requires Solutions?(S, |vl|)
  {
    exists s :: s in S && Agrees(s, vl, env)
  }

  /** An assignment extends a combination exactly when it extends both non-contradicting parts. */
  lemma {:induction false} MergeAgrees(si: seq<char>, sj: seq<char>, vl: seq<char>, env: set<char>)
    requires |si| == |vl| && |sj| == |vl| && AllValues(si) && AllValues(sj)
    ensures Agrees(si, vl, env) && Agrees(sj, vl, env) ==> !Conflict(si, sj)
    ensures !Conflict(si, sj) ==>
      (Agrees(Merge(si, sj), vl, env) <==> Agrees(si, vl, env) && Agrees(sj, vl, env))
  {
    var m := Merge(si, sj);
    MergeKeepsAndFills(si, sj);
    ConflictIsOpposition(si, sj);
    if !Conflict(si, sj) && Agrees(m, vl, env) {
      forall i | 0 <= i < |sj|
        ensures (sj[i] == TrueValue ==> vl[i] in env) && (sj[i] == FalseValue ==> vl[i] !in env)
      {
        assert !Opposite(si[i], sj[i]);
      }
    }
  }

  lemma ConjoinCovered(S: set<seq<char>>, T: set<seq<char>>, vl: seq<char>, env: set<char>)
    requires Solutions?(S, |vl|) && Solutions?(T, |vl|)
    ensures Covered(Conjoin(S, T, |vl|), vl, env) <==> Covered(S, vl, env) && Covered(T, vl, env)
  {
    var R := Conjoin(S, T, |vl|);
    if Covered(R, vl, env) {
      var s :| s in R && Agrees(s, vl, env);
      var si, sj :| si in S && sj in T && !Conflict(si, sj) && s == Merge(si, sj);
      MergeAgrees(si, sj, vl, env);
    }
    if Covered(S, vl, env) && Covered(T, vl, env) {
      var si :| si in S && Agrees(si, vl, env);
      var sj :| sj in T && Agrees(sj, vl, env);
      MergeAgrees(si, sj, vl, env);
      assert Merge(si, sj) in R;
    }
  }

  /** The conjoined solutions are extended by `env` exactly when every child's are. */
  lemma {:induction false} ConjoinAllCovered(ss: seq<set<seq<char>>>, vl: seq<char>, env: set<char>)
    requires |ss| > 0
    requires forall k :: 0 <= k < |ss| ==> Solutions?(ss[k], |vl|)
    ensures Covered(ConjoinAll(ss, |vl|), vl, env) <==>
      forall k :: 0 <= k < |ss| ==> Covered(ss[k], vl, env)
    decreases |ss|
  {
    if |ss| > 1 {
      var init := ss[..|ss| - 1];
      ConjoinAllCovered(init, vl, env);
      ConjoinCovered(ConjoinAll(init, |vl|), ss[|ss| - 1], vl, env);
      assert forall k :: 0 <= k < |init| ==> init[k] == ss[k];
    }
  }

  lemma UnionAllCovered(ss: seq<set<seq<char>>>, vl: seq<char>, env: set<char>)
    requires forall k :: 0 <= k < |ss| ==> Solutions?(ss[k], |vl|)
    ensures Solutions?(UnionAll(ss), |vl|)
    ensures Covered(UnionAll(ss), vl, env) <==> exists k :: 0 <= k < |ss| && Covered(ss[k], vl, env)
  {
    if Covered(UnionAll(ss), vl, env) {
      var s :| s in UnionAll(ss) && Agrees(s, vl, env);
      var k :| 0 <= k < |ss| && s in ss[k];
      assert Covered(ss[k], vl, env);
    }
  }

  /** The single solution of a variable is extended by `env` exactly when `env` gives it the polarity. */
  lemma SolveVarCovered(vl: seq<char>, x: char, positive: bool, env: set<char>)
    ensures Agrees(SolveVar(vl, x, positive), vl, env) <==> (x in vl ==> (x in env <==> positive))
  {
    var s := SolveVar(vl, x, positive);
    AssignFrame(vl, AllArbitrary(|vl|), x, if positive then TrueValue else FalseValue);
    if x in vl {
      var i := IndexOf(vl, x).value;
      if Agrees(s, vl, env) {
        assert s[i] == (if positive then TrueValue else FalseValue);
      }
    }
  }

  /** A variable's solution sets only that variable, to `t` for positive polarity and `f` otherwise. */
  lemma SolveVarShape(vl: seq<char>, x: char, positive: bool)
    requires x in vl
    ensures var s := SolveVar(vl, x, positive); var i := IndexOf(vl, x).value;
      && s[i] == (if positive then TrueValue else FalseValue)
      && forall j :: 0 <= j < |vl| && j != i ==> s[j] == ArbitraryValue
  {
    AssignFrame(vl, AllArbitrary(|vl|), x, if positive then TrueValue else FalseValue);
  }

  /** Every variable of the tree is in the variable list. */
  predicate Listed(n: Node, vl: seq<char>) {
    forall x :: x in Vars(n) ==> x in vl
  }

  /**
   * No disjunction or conjunction is reached under negative polarity: every
   * one of them sits below an even number of negations.
   */
  predicate PolarityRespected(n: Node, positive: bool) {
    match n
    case Var(_, _) => true
    case Neg(_, y) => PolarityRespected(y, !positive)
    case DForm(_, cs) => positive && forall i :: 0 <= i < |cs| ==> PolarityRespected(cs[i], positive)
    case CForm(_, cs) => positive && forall i :: 0 <= i < |cs| ==> PolarityRespected(cs[i], positive)
  }

  /**
   * "Returns all assignments that make the node true", for trees whose
   * disjunctions and conjunctions all have positive polarity: a total
   * assignment makes the tree take the value `positive` exactly when it
   * extends one of the returned partial assignments.
   */
  lemma {:induction false} SolveCorrect(n: Node, vl: seq<char>, positive: bool, env: set<char>)
    requires ConjunctionsNonEmpty(n) && Listed(n, vl) && PolarityRespected(n, positive)
    ensures Covered(Solve(n, vl, positive), vl, env) <==> (Eval(n, env) == positive)
  {
    match n
    case Var(_, x) =>
      SolveVarCovered(vl, x, positive, env);
      assert SolveVar(vl, x, positive) in Solve(n, vl, positive);
    case Neg(_, y) =>
      SolveCorrect(y, vl, !positive, env);
    case DForm(_, cs) =>
      var ss := seq(|cs|, i requires 0 <= i < |cs| => Solve(cs[i], vl, positive));
      forall k | 0 <= k < |cs|
        ensures Covered(ss[k], vl, env) <==> Eval(cs[k], env)
      {
        assert Vars(cs[k]) <= Vars(n);
        SolveCorrect(cs[k], vl, positive, env);
      }
      UnionAllCovered(ss, vl, env);
    case CForm(_, cs) =>
      var ss := seq(|cs|, i requires 0 <= i < |cs| => Solve(cs[i], vl, positive));
      forall k | 0 <= k < |cs|
        ensures Covered(ss[k], vl, env) <==> Eval(cs[k], env)
      {
        assert Vars(cs[k]) <= Vars(n);
        SolveCorrect(cs[k], vl, positive, env);
      }
      ConjoinAllCovered(ss, vl, env);
  }

  // ----- Negative polarity -----

  /** `!(a+b)` over "ab": the source offers "fa", yet a false and b true makes the formula false. */
  lemma SolveNegatedDisjunctionUnsound()
    ensures var n := Neg(0, DForm(1, [Var(2, 'a'), Var(4, 'b')]));
      && "fa" in Solve(n, "ab", true)
      && Agrees("fa", "ab", {'b'})
      && !Eval(n, {'b'})
  {
    var d := DForm(1, [Var(2, 'a'), Var(4, 'b')]);
    assert IndexOf("ab", 'a') == Some(0);
    assert SolveVar("ab", 'a', false) == "fa";
    var ss := seq(2, i requires 0 <= i < 2 => Solve(d.children[i], "ab", false));
    assert ss[0] == {"fa"};
    assert Solve(d, "ab", false) == UnionAll(ss);
    assert Eval(d, {'b'}) by {
      assert Eval(d.children[1], {'b'});
    }
  }

  /** `!(a&b)` over "ab": the only solution is "ff", which a true and b false does not extend. */
  lemma SolveNegatedConjunctionIncomplete()
    ensures var n := Neg(0, CForm(1, [Var(2, 'a'), Var(4, 'b')]));
      && Solve(n, "ab", true) == {"ff"}
      && Eval(n, {'a'})
      && !Covered(Solve(n, "ab", true), "ab", {'a'})
  {
    var c := CForm(1, [Var(2, 'a'), Var(4, 'b')]);
    assert IndexOf("ab", 'a') == Some(0);
    assert IndexOf("ab", 'b') == Some(1);
    assert SolveVar("ab", 'a', false) == "fa";
    assert SolveVar("ab", 'b', false) == "af";
    var ss := seq(2, i requires 0 <= i < 2 => Solve(c.children[i], "ab", false));
    assert ss[0] == {"fa"} && ss[1] == {"af"};
    assert ss[..1] == [{"fa"}];
    assert !Conflict("fa", "af") by {
      ConflictIsOpposition("fa", "af");
    }
    assert Merge("fa", "af") == "ff";
    assert Conjoin({"fa"}, {"af"}, 2) == {"ff"};
    assert Solve(c, "ab", false) == ConjoinAll(ss, 2);
    assert ConjoinAll(ss[..1], 2) == {"fa"};
    assert Solve(c, "ab", false) == {"ff"};
    assert !Eval(c, {'a'}) by {
      assert !Eval(c.children[1], {'a'});
    }
    assert !Agrees("ff", "ab", {'a'}) by {
      assert "ff"[0] == FalseValue;
    }
  }

  /** Conjoining no sets of solutions leaves the single all-arbitrary solution. */
  function ConjoinAny(ss: seq<set<seq<char>>>, n: nat): (r: set<seq<char>>)
    requires forall k :: 0 <= k < |ss| ==> Solutions?(ss[k], n)
    ensures Solutions?(r, n)
  {
    if ss == [] then {AllArbitrary(n)} else ConjoinAll(ss, n)
  }

  /**
   * `solve` with the polarity applied by De Morgan's law: under negative
   * polarity a disjunction conjoins and a conjunction unions its children's
   * solutions.
   */
  function SolveDual(n: Node, vl: seq<char>, positive: bool): (r: set<seq<char>>)
    ensures Solutions?(r, |vl|)
  {
    match n
    case Var(_, x) => {SolveVar(vl, x, positive)}
    case Neg(_, y) => SolveDual(y, vl, !positive)
    case DForm(_, cs) =>
      var ss := seq(|cs|, i requires 0 <= i < |cs| => SolveDual(cs[i], vl, positive));
      if positive then UnionAll(ss) else ConjoinAny(ss, |vl|)
    case CForm(_, cs) =>
      var ss := seq(|cs|, i requires 0 <= i < |cs| => SolveDual(cs[i], vl, positive));
      if positive then ConjoinAny(ss, |vl|) else UnionAll(ss)
  }

  lemma ConjoinAnyCovered(ss: seq<set<seq<char>>>, vl: seq<char>, env: set<char>)
    requires forall k :: 0 <= k < |ss| ==> Solutions?(ss[k], |vl|)
    ensures Covered(ConjoinAny(ss, |vl|), vl, env) <==> forall k :: 0 <= k < |ss| ==> Covered(ss[k], vl, env)
  {
    if ss == [] {
      assert Agrees(AllArbitrary(|vl|), vl, env);
    } else {
      ConjoinAllCovered(ss, vl, env);
    }
  }

  /** With the polarity applied, solving is sound and complete for every tree. */
  lemma {:induction false} SolveDualCorrect(n: Node, vl: seq<char>, positive: bool, env: set<char>)
    requires Listed(n, vl)
    ensures Covered(SolveDual(n, vl, positive), vl, env) <==> (Eval(n, env) == positive)
  {
    match n
    case Var(_, x) =>
      SolveVarCovered(vl, x, positive, env);
      assert SolveVar(vl, x, positive) in SolveDual(n, vl, positive);
    case Neg(_, y) =>
      SolveDualCorrect(y, vl, !positive, env);
    case DForm(_, cs) =>
      var ss := seq(|cs|, i requires 0 <= i < |cs| => SolveDual(cs[i], vl, positive));
      forall k | 0 <= k < |cs|
        ensures Covered(ss[k], vl, env) <==> (Eval(cs[k], env) == positive)
      {
        assert Vars(cs[k]) <= Vars(n);
        SolveDualCorrect(cs[k], vl, positive, env);
      }
      UnionAllCovered(ss, vl, env);
      ConjoinAnyCovered(ss, vl, env);
    case CForm(_, cs) =>
      var ss := seq(|cs|, i requires 0 <= i < |cs| => SolveDual(cs[i], vl, positive));
      forall k | 0 <= k < |cs|
        ensures Covered(ss[k], vl, env) <==> (Eval(cs[k], env) == positive)
      {
        assert Vars(cs[k]) <= Vars(n);
        SolveDualCorrect(cs[k], vl, positive, env);
      }
      UnionAllCovered(ss, vl, env);
      ConjoinAnyCovered(ss, vl, env);
  }

  /** Where the polarity never reaches a disjunction or conjunction negatively, the two agree. */
  lemma {:induction false} SolveDualAgrees(n: Node, vl: seq<char>, positive: bool)
    requires ConjunctionsNonEmpty(n) && PolarityRespected(n, positive)
    ensures SolveDual(n, vl, positive) == Solve(n, vl, positive)
  {
    match n
    case Var(_, _) =>
    case Neg(_, y) => SolveDualAgrees(y, vl, !positive);
    case DForm(_, cs) =>
      var ss := seq(|cs|, i requires 0 <= i < |cs| => SolveDual(cs[i], vl, positive));
      var ts := seq(|cs|, i requires 0 <= i < |cs| => Solve(cs[i], vl, positive));
      forall k | 0 <= k < |cs| ensures ss[k] == ts[k] { SolveDualAgrees(cs[k], vl, positive); }
      assert ss == ts;
    case CForm(_, cs) =>
      var ss := seq(|cs|, i requires 0 <= i < |cs| => SolveDual(cs[i], vl, positive));
      var ts := seq(|cs|, i requires 0 <= i < |cs| => Solve(cs[i], vl, positive));
      forall k | 0 <= k < |cs| ensures ss[k] == ts[k] { SolveDualAgrees(cs[k], vl, positive); }
      assert ss == ts;
  }
}
