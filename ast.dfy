/**
 * The abstract syntax tree of the solver: the closed four-variant union
 * `_Var`, `_Neg`, `_DForm` (disjunction) and `_CForm` (conjunction) of
 * solver.py, its rendering `__str__`, the flattening constructors of the
 * two n-ary forms, and the boolean meaning of a tree under a total
 * assignment (the set of variables that are true).
 */
module Ast {

  /**
   * `pos` is the node's `tokenPosition`. `DForm`/`CForm` applied directly
   * build a node with exactly the given children, as the source's in-place
   * `self.childNodes = ...` does; `MkDForm`/`MkCForm` are the flattening
   * initialisers `_DForm(...)`/`_CForm(...)`.
   */
  datatype Node =
    | Var(pos: int, name: char)
    | Neg(pos: int, negated: Node)
    | DForm(pos: int, children: seq<Node>)
    | CForm(pos: int, children: seq<Node>)

  /** `nodeType`. */
  datatype Kind = VarKind | NegKind | DisjunctionKind | ConjunctionKind

  function KindOf(n: Node): Kind {
    match n
    case Var(_, _) => VarKind
    case Neg(_, _) => NegKind
    case DForm(_, _) => DisjunctionKind
    case CForm(_, _) => ConjunctionKind
  }

  /** A variable or the negation of a variable. */
  predicate IsLiteral(n: Node) {
    n.Var? || (n.Neg? && n.negated.Var?)
  }

  /** The source's `node.tokenPosition = p`: the same node at another position. */
  function WithPos(n: Node, p: int): (r: Node)
    ensures r.pos == p && KindOf(r) == KindOf(n)
  {
    match n
    case Var(_, x) => Var(p, x)
    case Neg(_, y) => Neg(p, y)
    case DForm(_, cs) => DForm(p, cs)
    case CForm(_, cs) => CForm(p, cs)
  }

  // ----- Flattening initialisers -----

  /** What one argument contributes to a node of kind `k`: its own children if it has kind `k`, else itself. */
  function Parts(n: Node, k: Kind): seq<Node>
    requires k == DisjunctionKind || k == ConjunctionKind
  {
    if KindOf(n) == k then n.children else [n]
  }

  /** The children spliced together by the `_DForm`/`_CForm` initialiser loop. */
  function Splice(nodes: seq<Node>, k: Kind): seq<Node>
    requires k == DisjunctionKind || k == ConjunctionKind
  {
    if nodes == [] then [] else Splice(nodes[..|nodes| - 1], k) + Parts(nodes[|nodes| - 1], k)
  }

  /** `_DForm(pos, nodes)`. */
  function MkDForm(pos: int, nodes: seq<Node>): (r: Node)
    ensures r.DForm? && r.pos == pos
  {
    DForm(pos, Splice(nodes, DisjunctionKind))
  }

  /** `_CForm(pos, nodes)`. */
  function MkCForm(pos: int, nodes: seq<Node>): (r: Node)
    ensures r.CForm? && r.pos == pos
  {
    CForm(pos, Splice(nodes, ConjunctionKind))
  }

  /** Splicing distributes over concatenation: the arguments contribute in their order. */
  lemma {:induction false} SpliceAppend(a: seq<Node>, b: seq<Node>, k: Kind)
    requires k == DisjunctionKind || k == ConjunctionKind
    ensures Splice(a + b, k) == Splice(a, k) + Splice(b, k)
    decreases |b|
  {
    if b == [] {
      assert a + b == a;
    } else {
      var b' := b[..|b| - 1];
      assert (a + b)[..|a + b| - 1] == a + b';
      assert (a + b)[|a + b| - 1] == b[|b| - 1];
      SpliceAppend(a, b', k);
    }
  }

  /** A node is a child of a spliced node exactly when it is a non-`k` argument or a child of a `k` argument. */
  lemma {:induction false} SpliceMembers(nodes: seq<Node>, k: Kind, x: Node)
    requires k == DisjunctionKind || k == ConjunctionKind
    ensures x in Splice(nodes, k) <==>
      exists i :: 0 <= i < |nodes| &&
        ((KindOf(nodes[i]) != k && x == nodes[i]) || (KindOf(nodes[i]) == k && x in nodes[i].children))
    decreases |nodes|
  {
    if nodes != [] {
      var init := nodes[..|nodes| - 1];
      SpliceMembers(init, k, x);
      assert forall i :: 0 <= i < |init| ==> init[i] == nodes[i];
    }
  }

  /** When no argument has kind `k`, splicing keeps the arguments as they are. */
  lemma {:induction false} SpliceNoneOfKind(nodes: seq<Node>, k: Kind)
    requires k == DisjunctionKind || k == ConjunctionKind
    requires forall i :: 0 <= i < |nodes| ==> KindOf(nodes[i]) != k
    ensures Splice(nodes, k) == nodes
    decreases |nodes|
  {
    if nodes != [] {
      SpliceNoneOfKind(nodes[..|nodes| - 1], k);
    }
  }

  /** When every argument of kind `k` is itself flat, no child of the result has kind `k`. */
  lemma {:induction false} SpliceFlat(nodes: seq<Node>, k: Kind)
    requires k == DisjunctionKind || k == ConjunctionKind
    requires forall i :: 0 <= i < |nodes| && KindOf(nodes[i]) == k ==>
      forall c :: c in nodes[i].children ==> KindOf(c) != k
    ensures forall c :: c in Splice(nodes, k) ==> KindOf(c) != k
  {
    forall c | c in Splice(nodes, k)
      ensures KindOf(c) != k
    {
      SpliceMembers(nodes, k, c);
    }
  }

  // ----- Rendering -----

  /** `sep.join(parts)`. */
  function Join(parts: seq<string>, sep: string): string {
    if |parts| == 0 then ""
    else if |parts| == 1 then parts[0]
    else Join(parts[..|parts| - 1], sep) + sep + parts[|parts| - 1]
  }

  /** A character that is not in the separator is in a join exactly when it is in one of the parts. */
  lemma {:induction false} JoinContains(parts: seq<string>, sep: string, c: char)
    requires c !in sep
    ensures c in Join(parts, sep) <==> exists i :: 0 <= i < |parts| && c in parts[i]
    decreases |parts|
  {
    if |parts| > 1 {
      var init := parts[..|parts| - 1];
      JoinContains(init, sep, c);
      assert forall i :: 0 <= i < |init| ==> init[i] == parts[i];
    }
  }

  function Parenthesised(s: string): string {
    "(" + s + ")"
  }

  /** `__str__`: only a disjunction is parenthesised, and only below `!` or `&`. */
  function Render(n: Node): string {
    match n
    case Var(_, x) => [x]
    case Neg(_, y) => "!" + (if y.DForm? then Parenthesised(Render(y)) else Render(y))
    case DForm(_, cs) => Join(seq(|cs|, i requires 0 <= i < |cs| => Render(cs[i])), "+")
    case CForm(_, cs) =>
      Join(seq(|cs|, i requires 0 <= i < |cs| =>
                 if cs[i].DForm? then Parenthesised(Render(cs[i])) else Render(cs[i])), "&")
  }

  /** Some disjunction sits directly below a negation or a conjunction somewhere in the tree. */
  predicate HasBracketedDisjunction(n: Node) {
    match n
    case Var(_, _) => false
    case Neg(_, y) => y.DForm? || HasBracketedDisjunction(y)
    case DForm(_, cs) => exists i :: 0 <= i < |cs| && HasBracketedDisjunction(cs[i])
    case CForm(_, cs) => exists i :: 0 <= i < |cs| && (cs[i].DForm? || HasBracketedDisjunction(cs[i]))
  }

  /** The set of variables a tree mentions. */
  function Vars(n: Node): set<char> {
    match n
    case Var(_, x) => {x}
    case Neg(_, y) => Vars(y)
    case DForm(_, cs) => set i, x | 0 <= i < |cs| && x in Vars(cs[i]) :: x
    case CForm(_, cs) => set i, x | 0 <= i < |cs| && x in Vars(cs[i]) :: x
  }

  /** A rendering contains an opening bracket exactly when some disjunction sits below `!` or `&`. */
  lemma {:induction false} RenderBrackets(n: Node)
    requires '(' !in Vars(n)
    ensures '(' in Render(n) <==> HasBracketedDisjunction(n)
  {
    match n
    case Var(_, _) =>
    case Neg(_, y) =>
      RenderBrackets(y);
    case DForm(_, cs) =>
      var parts := seq(|cs|, i requires 0 <= i < |cs| => Render(cs[i]));
      forall i | 0 <= i < |cs|
        ensures '(' in parts[i] <==> HasBracketedDisjunction(cs[i])
      {
        assert Vars(cs[i]) <= Vars(n);
        RenderBrackets(cs[i]);
      }
      JoinContains(parts, "+", '(');
    case CForm(_, cs) =>
      var parts := seq(|cs|, i requires 0 <= i < |cs| =>
                         if cs[i].DForm? then Parenthesised(Render(cs[i])) else Render(cs[i]));
      forall i | 0 <= i < |cs|
        ensures '(' in parts[i] <==> cs[i].DForm? || HasBracketedDisjunction(cs[i])
      {
        assert Vars(cs[i]) <= Vars(n);
        RenderBrackets(cs[i]);
        if cs[i].DForm? {
          assert parts[i][0] == '(';
        }
      }
      JoinContains(parts, "&", '(');
  }

  // ----- Shape and meaning -----

  /**
   * The shape the parser produces: no negation of a negation, and every
   * disjunction and conjunction has at least two children, none of its own kind.
   */
  predicate WellFormed(n: Node) {
    match n
    case Var(_, _) => true
    case Neg(_, y) => !y.Neg? && WellFormed(y)
    case DForm(_, cs) => |cs| >= 2 && forall i :: 0 <= i < |cs| ==> !cs[i].DForm? && WellFormed(cs[i])
    case CForm(_, cs) => |cs| >= 2 && forall i :: 0 <= i < |cs| ==> !cs[i].CForm? && WellFormed(cs[i])
  }

  /** Every conjunction in the tree has a first child (`childNodes[0]` exists). */
  predicate ConjunctionsNonEmpty(n: Node) {
    match n
    case Var(_, _) => true
    case Neg(_, y) => ConjunctionsNonEmpty(y)
    case DForm(_, cs) => forall i :: 0 <= i < |cs| ==> ConjunctionsNonEmpty(cs[i])
    case CForm(_, cs) => |cs| > 0 && forall i :: 0 <= i < |cs| ==> ConjunctionsNonEmpty(cs[i])
  }

  lemma {:induction false} WellFormedConjunctionsNonEmpty(n: Node)
    requires WellFormed(n)
    ensures ConjunctionsNonEmpty(n)
  {
    match n
    case Var(_, _) =>
    case Neg(_, y) => WellFormedConjunctionsNonEmpty(y);
    case DForm(_, cs) =>
      forall i | 0 <= i < |cs| ensures ConjunctionsNonEmpty(cs[i]) { WellFormedConjunctionsNonEmpty(cs[i]); }
    case CForm(_, cs) =>
      forall i | 0 <= i < |cs| ensures ConjunctionsNonEmpty(cs[i]) { WellFormedConjunctionsNonEmpty(cs[i]); }
  }

  /** The truth value of a tree when exactly the variables in `env` are true. */
  predicate Eval(n: Node, env: set<char>) {
    match n
    case Var(_, x) => x in env
    case Neg(_, y) => !Eval(y, env)
    case DForm(_, cs) => exists i :: 0 <= i < |cs| && Eval(cs[i], env)
    case CForm(_, cs) => forall i :: 0 <= i < |cs| ==> Eval(cs[i], env)
  }

  /** Some node of the sequence is true. */
  predicate AnyTrue(ns: seq<Node>, env: set<char>) {
    exists i :: 0 <= i < |ns| && Eval(ns[i], env)
  }

  /** Every node of the sequence is true. */
  predicate AllTrue(ns: seq<Node>, env: set<char>) {
    forall i :: 0 <= i < |ns| ==> Eval(ns[i], env)
  }

  lemma AnyAllAppend(a: seq<Node>, b: seq<Node>, env: set<char>)
    ensures AnyTrue(a + b, env) <==> AnyTrue(a, env) || AnyTrue(b, env)
    ensures AllTrue(a + b, env) <==> AllTrue(a, env) && AllTrue(b, env)
  {
    var ab := a + b;
    assert forall i :: 0 <= i < |a| ==> ab[i] == a[i];
    assert forall i :: 0 <= i < |b| ==> ab[|a| + i] == b[i];
    if AnyTrue(ab, env) {
      var i :| 0 <= i < |ab| && Eval(ab[i], env);
      if i >= |a| { assert b[i - |a|] == ab[i]; }
    }
  }

  lemma PartsMeaning(n: Node, env: set<char>)
    ensures AnyTrue(Parts(n, DisjunctionKind), env) <==> Eval(n, env)
    ensures AllTrue(Parts(n, ConjunctionKind), env) <==> Eval(n, env)
  {
    assert [n][0] == n;
  }

  /** Splicing keeps which nodes are true. */
  lemma {:induction false} SpliceKeepsTruth(nodes: seq<Node>, env: set<char>)
    ensures AnyTrue(Splice(nodes, DisjunctionKind), env) <==> AnyTrue(nodes, env)
    ensures AllTrue(Splice(nodes, ConjunctionKind), env) <==> AllTrue(nodes, env)
    decreases |nodes|
  {
    if nodes != [] {
      var init := nodes[..|nodes| - 1];
      var last := nodes[|nodes| - 1];
      assert nodes == init + [last];
      SpliceKeepsTruth(init, env);
      PartsMeaning(last, env);
      AnyAllAppend(Splice(init, DisjunctionKind), Parts(last, DisjunctionKind), env);
      AnyAllAppend(Splice(init, ConjunctionKind), Parts(last, ConjunctionKind), env);
      AnyAllAppend(init, [last], env);
    }
  }

  /** Flattening a disjunction or a conjunction does not change its meaning. */
  lemma SpliceMeaning(pos: int, nodes: seq<Node>, env: set<char>)
    ensures Eval(MkDForm(pos, nodes), env) <==> AnyTrue(nodes, env)
    ensures Eval(MkCForm(pos, nodes), env) <==> AllTrue(nodes, env)
  {
    SpliceKeepsTruth(nodes, env);
  }

  /** Positions never matter to the meaning. */
  lemma EvalIgnoresPosition(n: Node, p: int, env: set<char>)
    ensures Eval(WithPos(n, p), env) == Eval(n, env)
  {
  }

  // ----- Shapes the initialisers build -----

  lemma SplicePair(a: Node, b: Node, k: Kind)
    requires k == DisjunctionKind || k == ConjunctionKind
    ensures Splice([a, b], k) == Parts(a, k) + Parts(b, k)
  {
    assert [a, b][..1] == [a];
    assert [a][..0] == [];
    assert Splice([a], k) == Splice([], k) + Parts(a, k);
    assert Splice([a], k) == Parts(a, k);
  }

  /** A variable of a flattened node is a variable of one of the arguments, and back. */
  lemma {:induction false} SpliceVars(nodes: seq<Node>, k: Kind, x: char)
    requires k == DisjunctionKind || k == ConjunctionKind
    ensures (exists c :: c in Splice(nodes, k) && x in Vars(c)) <==>
      exists i :: 0 <= i < |nodes| && x in Vars(nodes[i])
  {
    if exists c :: c in Splice(nodes, k) && x in Vars(c) {
      var c :| c in Splice(nodes, k) && x in Vars(c);
      SpliceMembers(nodes, k, c);
      var i :| 0 <= i < |nodes| &&
        ((KindOf(nodes[i]) != k && c == nodes[i]) || (KindOf(nodes[i]) == k && c in nodes[i].children));
      if KindOf(nodes[i]) == k {
        var j :| 0 <= j < |nodes[i].children| && nodes[i].children[j] == c;
        assert x in Vars(nodes[i]);
      }
    }
    if exists i :: 0 <= i < |nodes| && x in Vars(nodes[i]) {
      var i :| 0 <= i < |nodes| && x in Vars(nodes[i]);
      if KindOf(nodes[i]) == k {
        var j :| 0 <= j < |nodes[i].children| && x in Vars(nodes[i].children[j]);
        SpliceMembers(nodes, k, nodes[i].children[j]);
      } else {
        SpliceMembers(nodes, k, nodes[i]);
      }
    }
  }

  /** The variables of a flattened disjunction or conjunction are those of its arguments. */
  lemma MkVars(pos: int, nodes: seq<Node>, x: char)
    ensures x in Vars(MkDForm(pos, nodes)) <==> exists i :: 0 <= i < |nodes| && x in Vars(nodes[i])
    ensures x in Vars(MkCForm(pos, nodes)) <==> exists i :: 0 <= i < |nodes| && x in Vars(nodes[i])
  {
    SpliceVars(nodes, DisjunctionKind, x);
    SpliceVars(nodes, ConjunctionKind, x);
    var d := Splice(nodes, DisjunctionKind);
    var c := Splice(nodes, ConjunctionKind);
    if x in Vars(MkDForm(pos, nodes)) {
      var i :| 0 <= i < |d| && x in Vars(d[i]);
      assert d[i] in d;
    }
    if x in Vars(MkCForm(pos, nodes)) {
      var i :| 0 <= i < |c| && x in Vars(c[i]);
      assert c[i] in c;
    }
  }

  lemma WellFormedWithPos(n: Node, p: int)
    ensures WellFormed(WithPos(n, p)) == WellFormed(n)
    ensures Vars(WithPos(n, p)) == Vars(n)
    ensures Eval(WithPos(n, p), {}) == Eval(n, {})
  {
  }

  /** Flattening well-formed arguments, at least two of them, gives a well-formed node. */
  lemma {:induction false} SpliceWellFormed(nodes: seq<Node>, k: Kind)
    requires k == DisjunctionKind || k == ConjunctionKind
    requires forall i :: 0 <= i < |nodes| ==> WellFormed(nodes[i])
    ensures |Splice(nodes, k)| >= |nodes|
    ensures forall c :: c in Splice(nodes, k) ==> KindOf(c) != k && WellFormed(c)
    decreases |nodes|
  {
    if nodes != [] {
      var init := nodes[..|nodes| - 1];
      SpliceWellFormed(init, k);
      var last := nodes[|nodes| - 1];
      forall c | c in Parts(last, k)
        ensures KindOf(c) != k && WellFormed(c)
      {
        if KindOf(last) == k {
          var j :| 0 <= j < |last.children| && last.children[j] == c;
        }
      }
    }
  }

  lemma MkWellFormed(pos: int, nodes: seq<Node>)
    requires |nodes| >= 2
    requires forall i :: 0 <= i < |nodes| ==> WellFormed(nodes[i])
    ensures WellFormed(MkDForm(pos, nodes)) && WellFormed(MkCForm(pos, nodes))
  {
    SpliceWellFormed(nodes, DisjunctionKind);
    SpliceWellFormed(nodes, ConjunctionKind);
    var d := Splice(nodes, DisjunctionKind);
    var c := Splice(nodes, ConjunctionKind);
    assert forall i :: 0 <= i < |d| ==> d[i] in d;
    assert forall i :: 0 <= i < |c| ==> c[i] in c;
  }

  /** The `_DForm` initialiser loop: appends each argument, or its children when it is a disjunction. */
  method NewDForm(pos: int, nodes: seq<Node>) returns (r: Node)
    ensures r == MkDForm(pos, nodes)
  {
    var children: seq<Node> := [];
    for i := 0 to |nodes|
      invariant children == Splice(nodes[..i], DisjunctionKind)
    {
      assert nodes[..i + 1][..i] == nodes[..i];
      if nodes[i].DForm? {
        children := children + nodes[i].children;
      } else {
        children := children + [nodes[i]];
      }
    }
    assert nodes[..|nodes|] == nodes;
    r := DForm(pos, children);
  }

  /** The `_CForm` initialiser loop: appends each argument, or its children when it is a conjunction. */
  method NewCForm(pos: int, nodes: seq<Node>) returns (r: Node)
    ensures r == MkCForm(pos, nodes)
  {
    var children: seq<Node> := [];
    for i := 0 to |nodes|
      invariant children == Splice(nodes[..i], ConjunctionKind)
    {
      assert nodes[..i + 1][..i] == nodes[..i];
      if nodes[i].CForm? {
        children := children + nodes[i].children;
      } else {
        children := children + [nodes[i]];
      }
    }
    assert nodes[..|nodes|] == nodes;
    r := CForm(pos, children);
  }
}
