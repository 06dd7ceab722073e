/**
 * The single-pass stack parser of solver.py (`pushNode`, `parse`).
 * Precedence comes from token adjacency: a pending `&` or `!` applies to
 * a finished operand exactly when it stands one position to its left.
 * The functions `Push`, `Step`, `Run` and `ParseSpec` say what the
 * parser computes; the methods `PushNode` and `Parse` are the source's
 * loops over the three stacks, proved to compute it.
 */
module Parser {
  import opened Wrappers
  import opened Ast

  /** An entry of `symbolStack`: a pending `&` or `!` and its position. */
  datatype Pending = Pending(symbol: char, pos: int)

  /** An entry of `bracketStack`: the operand-stack depth at the `(` and the `(`'s position. */
  datatype Bracket = Bracket(depth: nat, pos: int)

  /** The three stacks. */
  datatype State = State(nodes: seq<Node>, brackets: seq<Bracket>, symbols: seq<Pending>)

  /** `pushNode`: combine with the pending symbol while it is adjacent, then push the node. */
  function Push(node: Node, nodes: seq<Node>, symbols: seq<Pending>): Result<(seq<Node>, seq<Pending>)>
    decreases |symbols|
  {
    if |symbols| > 0 && symbols[|symbols| - 1].pos == node.pos - 1 then
      var top := symbols[|symbols| - 1];
      var rest := symbols[..|symbols| - 1];
      if top.symbol == '&' then
        if |nodes| == 0 then Err(MissingOperand)
        else
          var prev := nodes[|nodes| - 1];
          Push(MkCForm(prev.pos, [prev, node]), nodes[..|nodes| - 1], rest)
      else if top.symbol == '!' then
        if node.Neg? then Push(WithPos(node.negated, top.pos), nodes, rest)
        else Push(Neg(top.pos, node), nodes, rest)
      else Push(node, nodes, rest)
    else Ok((nodes + [node], symbols))
  }

  /** One iteration of the token loop of `parse`. */
  function Step(st: State, pos: nat, token: char): Result<State> {
    if token == '(' then
      Ok(st.(brackets := st.brackets + [Bracket(|st.nodes|, pos)]))
    else if token == ')' then
      if |st.brackets| == 0 then Err(UnmatchedClose)
      else
        var b := st.brackets[|st.brackets| - 1];
        var brackets := st.brackets[..|st.brackets| - 1];
        var bracketed := if b.depth <= |st.nodes| then st.nodes[b.depth..] else [];
        var kept := if b.depth <= |st.nodes| then st.nodes[..b.depth] else st.nodes;
        if |bracketed| > 1 then
          var pushed :- Push(MkDForm(b.pos, bracketed), kept, st.symbols);
          Ok(State(pushed.0, brackets, pushed.1))
        else if |bracketed| == 1 then
          var pushed :- Push(WithPos(bracketed[0], b.pos), kept, st.symbols);
          Ok(State(pushed.0, brackets, pushed.1))
        else Err(EmptyBrackets)
    else if token == '&' || token == '!' then
      Ok(st.(symbols := st.symbols + [Pending(token, pos)]))
    else if token == '+' then
      Ok(st)
    else
      var pushed :- Push(Var(pos, token), st.nodes, st.symbols);
      Ok(st.(nodes := pushed.0, symbols := pushed.1))
  }

  /** The stacks after the token loop has consumed `f`. */
  function Run(f: string): Result<State> {
    if f == [] then Ok(State([], [], []))
    else
      var st :- Run(f[..|f| - 1]);
      Step(st, |f| - 1, f[|f| - 1])
  }

  /** How the end of `parse` turns the operand stack into the result. */
  function Finish(nodes: seq<Node>): Result<Node> {
    if |nodes| > 1 then Ok(MkDForm(-1, nodes))
    else if |nodes| == 1 then Ok(nodes[0])
    else Err(EmptyFormula)
  }

  /** `parse(formula)`. */
  function ParseSpec(f: string): Result<Node> {
    var st :- Run(f);
    Finish(st.nodes)
  }

  // ----- The imperative parser -----

  /** `pushNode`, over the operand and pending-symbol stacks. */
  method PushNode(node: Node, nodeStack: seq<Node>, symbolStack: seq<Pending>)
    returns (r: Result<(seq<Node>, seq<Pending>)>)
    ensures r == Push(node, nodeStack, symbolStack)
  {
    var n, ns, ss := node, nodeStack, symbolStack;
    while |ss| > 0 && ss[|ss| - 1].pos == n.pos - 1
      invariant Push(n, ns, ss) == Push(node, nodeStack, symbolStack)
      decreases |ss|
    {
      var top := ss[|ss| - 1];
      ss := ss[..|ss| - 1];
      if top.symbol == '&' {
        if |ns| == 0 {
          return Err(MissingOperand);
        }
        var prev := ns[|ns| - 1];
        ns := ns[..|ns| - 1];
        n := NewCForm(prev.pos, [prev, n]);
      } else if top.symbol == '!' {
        if n.Neg? {
          n := WithPos(n.negated, top.pos);
        } else {
          n := Neg(top.pos, n);
        }
      }
    }
    return Ok((ns + [n], ss));
  }

  /** One pass of the token loop of `parse`, on the three stacks. */
  method ParseToken(nodeStack: seq<Node>, bracketStack: seq<Bracket>, symbolStack: seq<Pending>, pos: nat, token: char)
    returns (r: Result<State>)
    ensures r == Step(State(nodeStack, bracketStack, symbolStack), pos, token)
  {
    if token == '(' {
      r := Ok(State(nodeStack, bracketStack + [Bracket(|nodeStack|, pos)], symbolStack));
    } else if token == ')' {
      if |bracketStack| == 0 {
        return Err(UnmatchedClose);
      }
      var b := bracketStack[|bracketStack| - 1];
      var brackets := bracketStack[..|bracketStack| - 1];
      var bracketed, kept := [], nodeStack;
      if b.depth <= |nodeStack| {
        bracketed, kept := nodeStack[b.depth..], nodeStack[..b.depth];
      }
      var pushed;
      if |bracketed| > 1 {
        var dForm := NewDForm(b.pos, bracketed);
        pushed := PushNode(dForm, kept, symbolStack);
      } else if |bracketed| == 1 {
        pushed := PushNode(WithPos(bracketed[0], b.pos), kept, symbolStack);
      } else {
        return Err(EmptyBrackets);
      }
      if pushed.Err? {
        return Err(pushed.error);
      }
      r := Ok(State(pushed.value.0, brackets, pushed.value.1));
    } else if token == '&' || token == '!' {
      r := Ok(State(nodeStack, bracketStack, symbolStack + [Pending(token, pos)]));
    } else if token == '+' {
      r := Ok(State(nodeStack, bracketStack, symbolStack));
    } else {
      var pushed := PushNode(Var(pos, token), nodeStack, symbolStack);
      if pushed.Err? {
        return Err(pushed.error);
      }
      r := Ok(State(pushed.value.0, bracketStack, pushed.value.1));
    }
  }

  /** `parse`: the token loop over the three stacks, then the end-of-input rule. */
  method Parse(formula: string) returns (r: Result<Node>)
    ensures r == ParseSpec(formula)
  {
    var nodeStack: seq<Node> := [];
    var bracketStack: seq<Bracket> := [];
    var symbolStack: seq<Pending> := [];
    for i := 0 to |formula|
      invariant Run(formula[..i]) == Ok(State(nodeStack, bracketStack, symbolStack))
    {
      assert formula[..i + 1][..i] == formula[..i];
      var next := ParseToken(nodeStack, bracketStack, symbolStack, i, formula[i]);
      if next.Err? {
        RunErrorPersists(formula, i + 1);
        return Err(next.error);
      }
      nodeStack, bracketStack, symbolStack := next.value.nodes, next.value.brackets, next.value.symbols;
    }
    assert formula[..|formula|] == formula;
    if |nodeStack| > 1 {
      var top := NewDForm(-1, nodeStack);
      r := Ok(top);
    } else if |nodeStack| == 1 {
      r := Ok(nodeStack[0]);
    } else {
      r := Err(EmptyFormula);
    }
  }

  /** Once a prefix fails, the whole formula fails with the same error. */
  lemma {:induction false} RunErrorPersists(f: string, i: nat)
    requires i <= |f| && Run(f[..i]).Err?
    ensures Run(f) == Run(f[..i])
    decreases |f| - i
  {
    if i < |f| {
      assert f[..i + 1][..i] == f[..i];
      RunErrorPersists(f, i + 1);
    } else {
      assert f[..i] == f;
    }
  }

  // ----- What the parser keeps -----

  /** A token the loop turns into a variable: anything but the five operator characters. */
  predicate IsOperand(c: char) {
    c != '(' && c != ')' && c != '&' && c != '!' && c != '+'
  }

  /** The characters of `f` that become variables. */
  function Operands(f: string): set<char> {
    set c | c in f && IsOperand(c)
  }

  /** `(` minus `)` in `f`. */
  function Balance(f: string): int {
    if f == [] then 0
    else Balance(f[..|f| - 1]) + (if f[|f| - 1] == '(' then 1 else if f[|f| - 1] == ')' then -1 else 0)
  }

  /** No prefix of `f` closes more brackets than it opens. */
  predicate NeverUnderflows(f: string) {
    forall i :: 0 <= i <= |f| ==> Balance(f[..i]) >= 0
  }

  /** Every node on the stack is well formed and uses only the given variables. */
  predicate NodesOk(ns: seq<Node>, ops: set<char>) {
    forall i :: 0 <= i < |ns| ==> WellFormed(ns[i]) && Vars(ns[i]) <= ops
  }

  /**
   * `pushNode` pops only operands from the top of the operand stack and
   * pushes exactly one node; its only failure is an `&` without a left
   * operand.
   */
  lemma {:induction false} PushNodesShape(node: Node, nodes: seq<Node>, symbols: seq<Pending>)
    ensures Push(node, nodes, symbols).Err? ==> Push(node, nodes, symbols) == Err(MissingOperand)
    ensures Push(node, nodes, symbols).Ok? ==>
      var ns := Push(node, nodes, symbols).value.0;
      1 <= |ns| <= |nodes| + 1 && ns[..|ns| - 1] == nodes[..|ns| - 1]
    decreases |symbols|
  {
    if |symbols| > 0 && symbols[|symbols| - 1].pos == node.pos - 1 {
      var top := symbols[|symbols| - 1];
      var rest := symbols[..|symbols| - 1];
      if top.symbol == '&' {
        if |nodes| > 0 {
          var prev := nodes[|nodes| - 1];
          PushNodesShape(MkCForm(prev.pos, [prev, node]), nodes[..|nodes| - 1], rest);
        }
      } else if top.symbol == '!' {
        if node.Neg? {
          PushNodesShape(WithPos(node.negated, top.pos), nodes, rest);
        } else {
          PushNodesShape(Neg(top.pos, node), nodes, rest);
        }
      } else {
        PushNodesShape(node, nodes, rest);
      }
    }
  }

  /**
   * `pushNode` pops only pending symbols from the top of the symbol stack,
   * and stops at the first one that is not adjacent to the node it pushes.
   */
  lemma {:induction false} PushSymbolsShape(node: Node, nodes: seq<Node>, symbols: seq<Pending>)
    ensures Push(node, nodes, symbols).Ok? ==>
      var ns := Push(node, nodes, symbols).value.0;
      var ss := Push(node, nodes, symbols).value.1;
      && |ns| >= 1 && |ss| <= |symbols| && ss == symbols[..|ss|]
      && (|ss| == 0 || ss[|ss| - 1].pos != ns[|ns| - 1].pos - 1)
    decreases |symbols|
  {
    if |symbols| > 0 && symbols[|symbols| - 1].pos == node.pos - 1 {
      var top := symbols[|symbols| - 1];
      var rest := symbols[..|symbols| - 1];
      if top.symbol == '&' {
        if |nodes| > 0 {
          var prev := nodes[|nodes| - 1];
          PushSymbolsShape(MkCForm(prev.pos, [prev, node]), nodes[..|nodes| - 1], rest);
        }
      } else if top.symbol == '!' {
        if node.Neg? {
          PushSymbolsShape(WithPos(node.negated, top.pos), nodes, rest);
        } else {
          PushSymbolsShape(Neg(top.pos, node), nodes, rest);
        }
      } else {
        PushSymbolsShape(node, nodes, rest);
      }
    }
  }

  /** Both halves of the shape of `pushNode`'s result. */
  lemma PushShape(node: Node, nodes: seq<Node>, symbols: seq<Pending>)
    ensures Push(node, nodes, symbols).Err? ==> Push(node, nodes, symbols) == Err(MissingOperand)
    ensures Push(node, nodes, symbols).Ok? ==>
      var ns := Push(node, nodes, symbols).value.0;
      var ss := Push(node, nodes, symbols).value.1;
      && 1 <= |ns| <= |nodes| + 1
      && ns[..|ns| - 1] == nodes[..|ns| - 1]
      && |ss| <= |symbols| && ss == symbols[..|ss|]
      && (|ss| == 0 || ss[|ss| - 1].pos != ns[|ns| - 1].pos - 1)
  {
    PushNodesShape(node, nodes, symbols);
    PushSymbolsShape(node, nodes, symbols);
  }

  /**
   * `pushNode` keeps the operand stack well formed: a conjunction of two
   * flat operands is flat, and `!` on a negation unwraps it, so no
   * `Neg(Neg(_))` is ever built.
   */
  lemma {:induction false} PushKeepsNodesOk(node: Node, nodes: seq<Node>, symbols: seq<Pending>, ops: set<char>)
    requires WellFormed(node) && Vars(node) <= ops && NodesOk(nodes, ops)
    ensures Push(node, nodes, symbols).Ok? ==> NodesOk(Push(node, nodes, symbols).value.0, ops)
    decreases |symbols|
  {
    if |symbols| > 0 && symbols[|symbols| - 1].pos == node.pos - 1 {
      var top := symbols[|symbols| - 1];
      var rest := symbols[..|symbols| - 1];
      if top.symbol == '&' {
        if |nodes| > 0 {
          var prev := nodes[|nodes| - 1];
          var c := MkCForm(prev.pos, [prev, node]);
          MkWellFormed(prev.pos, [prev, node]);
          forall x | x in Vars(c) ensures x in ops {
            MkVars(prev.pos, [prev, node], x);
          }
          PushKeepsNodesOk(c, nodes[..|nodes| - 1], rest, ops);
        }
      } else if top.symbol == '!' {
        if node.Neg? {
          WellFormedWithPos(node.negated, top.pos);
          PushKeepsNodesOk(WithPos(node.negated, top.pos), nodes, rest, ops);
        } else {
          PushKeepsNodesOk(Neg(top.pos, node), nodes, rest, ops);
        }
      } else {
        PushKeepsNodesOk(node, nodes, rest, ops);
      }
    }
  }

  /** One token keeps the stacks well formed and moves the bracket stack by the token's balance. */
  lemma StepKeepsNodesOk(st: State, pos: nat, token: char, ops: set<char>)
    requires NodesOk(st.nodes, ops)
    requires IsOperand(token) ==> token in ops
    ensures Step(st, pos, token).Err? ==> Step(st, pos, token).error != EmptyFormula
    ensures Step(st, pos, token).Ok? ==>
      var st' := Step(st, pos, token).value;
      && NodesOk(st'.nodes, ops)
      && |st'.brackets| == |st.brackets| + (if token == '(' then 1 else if token == ')' then -1 else 0)
      && (|st'.nodes| == 0 <==> |st.nodes| == 0 && !IsOperand(token))
  {
    if token == ')' && |st.brackets| > 0 {
      var b := st.brackets[|st.brackets| - 1];
      var bracketed := if b.depth <= |st.nodes| then st.nodes[b.depth..] else [];
      var kept := if b.depth <= |st.nodes| then st.nodes[..b.depth] else st.nodes;
      assert NodesOk(bracketed, ops) && NodesOk(kept, ops);
      if |bracketed| > 1 {
        var d := MkDForm(b.pos, bracketed);
        MkWellFormed(b.pos, bracketed);
        forall x | x in Vars(d) ensures x in ops {
          MkVars(b.pos, bracketed, x);
        }
        PushKeepsNodesOk(d, kept, st.symbols, ops);
        PushShape(d, kept, st.symbols);
      } else if |bracketed| == 1 {
        WellFormedWithPos(bracketed[0], b.pos);
        PushKeepsNodesOk(WithPos(bracketed[0], b.pos), kept, st.symbols, ops);
        PushShape(WithPos(bracketed[0], b.pos), kept, st.symbols);
      }
    } else if IsOperand(token) {
      PushKeepsNodesOk(Var(pos, token), st.nodes, st.symbols, ops);
      PushShape(Var(pos, token), st.nodes, st.symbols);
    }
  }

  /**
   * After any prefix: the stacks are well formed over the prefix's
   * operands, the bracket stack is as deep as the unclosed brackets, no
   * earlier prefix closed too many brackets, and the operand stack is empty
   * exactly when no operand has been read.
   */
  lemma {:induction false} RunInvariant(f: string)
    ensures Run(f).Err? ==> Run(f).error != EmptyFormula
    ensures Run(f).Ok? ==>
      && NodesOk(Run(f).value.nodes, Operands(f))
      && |Run(f).value.brackets| == Balance(f)
      && NeverUnderflows(f)
      && (|Run(f).value.nodes| == 0 <==> Operands(f) == {})
  {
    if f != [] {
      var init := f[..|f| - 1];
      var last := f[|f| - 1];
      RunInvariant(init);
      assert f == init + [last];
      assert Operands(f) == Operands(init) + (if IsOperand(last) then {last} else {});
      if Run(init).Ok? {
        var st := Run(init).value;
        assert NodesOk(st.nodes, Operands(f));
        StepKeepsNodesOk(st, |f| - 1, last, Operands(f));
        if Run(f).Ok? {
          forall i | 0 <= i <= |f| ensures Balance(f[..i]) >= 0 {
            if i < |f| {
              assert f[..i] == init[..i];
            } else {
              assert f[..i] == f;
            }
          }
        }
      }
    }
  }

  /**
   * A successful parse is a well-formed tree over the formula's operand
   * characters, and the formula never closed a bracket it had not opened:
   * an unmatched `)` makes `parse` fail.  An unclosed `(` is not detected.
   */
  lemma ParseWellFormed(f: string)
    ensures ParseSpec(f).Ok? ==>
      && WellFormed(ParseSpec(f).value)
      && Vars(ParseSpec(f).value) <= Operands(f)
      && NeverUnderflows(f)
  {
    RunInvariant(f);
    if Run(f).Ok? {
      var nodes := Run(f).value.nodes;
      if |nodes| > 1 {
        MkWellFormed(-1, nodes);
        forall x | x in Vars(MkDForm(-1, nodes)) ensures x in Operands(f) {
          MkVars(-1, nodes, x);
        }
      }
    }
  }

  /** `parse` fails for want of an operand exactly when the loop succeeds and no operand was read. */
  lemma ParseEmptyFormula(f: string)
    ensures ParseSpec(f) == Err(EmptyFormula) <==> Run(f).Ok? && Operands(f) == {}
  {
    RunInvariant(f);
  }

  /**
   * `+` changes none of the stacks: a trailing `+` leaves the parse as it
   * was.  (Inside a formula it still takes a position, so it can separate
   * a pending `&` or `!` from the next operand.)
   */
  lemma ParseTrailingPlus(f: string)
    ensures ParseSpec(f + "+") == ParseSpec(f)
  {
  }

  /** A `(` that is never closed is ignored: the end of `parse` does not look at the bracket stack. */
  lemma ParseTrailingOpen(f: string)
    ensures ParseSpec(f + "(") == ParseSpec(f)
  {
  }

  /** `()` anywhere in the formula makes `parse` fail. */
  lemma ParseEmptyBrackets(f: string, i: nat)
    requires i + 1 < |f| && f[i] == '(' && f[i + 1] == ')'
    ensures ParseSpec(f).Err?
  {
    assert f[..i + 1][..i] == f[..i];
    assert f[..i + 2][..i + 1] == f[..i + 1];
    if Run(f[..i]).Err? {
      RunErrorPersists(f, i);
    } else {
      var st := Run(f[..i]).value;
      assert Run(f[..i + 1]) == Ok(st.(brackets := st.brackets + [Bracket(|st.nodes|, i)]));
      assert Run(f[..i + 2]) == Err(EmptyBrackets);
      RunErrorPersists(f, i + 2);
    }
  }
}
