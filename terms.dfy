/**
 * The term-level steps of the normal-form conversions of solver.py: node
 * equality as the source defines it (same kind, same rendering), duplicate
 * removal through a Python `set`, the sort key and the stable sort of a
 * term's literals, and the scan of `_CForm.toDNF` that decides, for one
 * left term and one right term, whether their conjunction is dropped, is
 * the left term itself, or is a new sorted conjunction.
 */
module Terms {
  import opened Wrappers
  import opened Ast

  // ----- Equality and duplicates -----

  /** `ASTNode.__eq__`: the same kind and the same rendering. */
  predicate Same(a: Node, b: Node) {
    KindOf(a) == KindOf(b) && Render(a) == Render(b)
  }

  /** What `ASTNode.__hash__` and `__eq__` look at. */
  function RenderKey(n: Node): (Kind, string) {
    (KindOf(n), Render(n))
  }

  /**
   * `list(set(ns))` for a set whose elements are equal when their keys
   * are: the first node of each key, in order of first occurrence (a
   * Python set keeps the element inserted first).
   */
  /** Some node of `r` has the key `k`. */
  predicate KeyIn<K(==)>(k: K, r: seq<Node>, key: Node -> K) {
    exists y :: y in r && key(y) == k
  }

  function Dedup<K(==)>(ns: seq<Node>, key: Node -> K): seq<Node>
    decreases |ns|
  {
    if ns == [] then []
    else
      var r := Dedup(ns[..|ns| - 1], key);
      if KeyIn(key(ns[|ns| - 1]), r, key) then r else r + [ns[|ns| - 1]]
  }

  /**
   * Duplicate removal keeps only nodes of the input, no two with the same
   * key, and a node of every key of the input.
   */
  lemma {:induction false} DedupSpec<K>(ns: seq<Node>, key: Node -> K)
    ensures forall y :: y in Dedup(ns, key) ==> y in ns
    ensures forall i, j :: 0 <= i < j < |Dedup(ns, key)| ==> key(Dedup(ns, key)[i]) != key(Dedup(ns, key)[j])
    ensures forall x :: x in ns ==> KeyIn(key(x), Dedup(ns, key), key)
    decreases |ns|
  {
    if ns != [] {
      var init := ns[..|ns| - 1];
      var last := ns[|ns| - 1];
      DedupSpec(init, key);
      var r := Dedup(init, key);
      assert ns == init + [last];
      if !KeyIn(key(last), r, key) {
        var r' := r + [last];
        DedupAppendDistinct(r, last, key);
        forall x | x in ns ensures KeyIn(key(x), r', key) {
          if x != last {
            assert x in init;
            var y :| y in r && key(y) == key(x);
            assert y in r';
          } else {
            assert last in r';
          }
        }
      }
    }
  }

  lemma DedupAppendDistinct<K>(r: seq<Node>, last: Node, key: Node -> K)
    requires forall i, j :: 0 <= i < j < |r| ==> key(r[i]) != key(r[j])
    requires !KeyIn(key(last), r, key)
    ensures forall i, j :: 0 <= i < j < |r + [last]| ==> key((r + [last])[i]) != key((r + [last])[j])
  {
    var r' := r + [last];
    forall i, j | 0 <= i < j < |r'| ensures key(r'[i]) != key(r'[j]) {
      assert r'[i] == r[i];
      if j == |r| {
        assert r[i] in r;
      } else {
        assert r'[j] == r[j];
      }
    }
  }

  /** Without two nodes of the same key there is nothing to drop. */
  lemma {:induction false} DedupNoDuplicates<K>(ns: seq<Node>, key: Node -> K)
    requires forall i, j :: 0 <= i < j < |ns| ==> key(ns[i]) != key(ns[j])
    ensures Dedup(ns, key) == ns
    decreases |ns|
  {
    if ns != [] {
      var init := ns[..|ns| - 1];
      var last := ns[|ns| - 1];
      DedupNoDuplicates(init, key);
      assert init + [last] == ns;
    }
  }

  // ----- Literals -----

  /** The variable of a literal. */
  function LitName(l: Node): char
    requires IsLiteral(l)
  {
    if l.Var? then l.name else l.negated.name
  }

  /** `x` against `!x`, in either order, as the scan of `_CForm.toDNF` tests it. */
  predicate Complementary(a: Node, b: Node) {
    (a.Var? && b.Neg? && Same(b.negated, a)) || (a.Neg? && b.Var? && Same(a.negated, b))
  }

  /** Two literals are equal or complementary exactly when they share their variable. */
  lemma LiteralRelations(a: Node, b: Node, env: set<char>)
    requires IsLiteral(a) && IsLiteral(b)
    ensures Same(a, b) <==> a.Var? == b.Var? && LitName(a) == LitName(b)
    ensures Complementary(a, b) <==> a.Var? != b.Var? && LitName(a) == LitName(b)
    ensures Same(a, b) ==> Eval(a, env) == Eval(b, env)
    ensures Complementary(a, b) ==> Eval(a, env) != Eval(b, env)
  {
    var x := LitName(a);
    var y := LitName(b);
    var va := if a.Var? then a else a.negated;
    var vb := if b.Var? then b else b.negated;
    assert Render(va) == [x] && Render(vb) == [y];
    assert Render(va) == Render(vb) <==> x == y by {
      if Render(va) == Render(vb) {
        assert Render(va)[0] == Render(vb)[0];
      }
    }
    if a.Neg? && b.Neg? {
      assert Render(a) == "!" + [x] && Render(b) == "!" + [y];
      if Render(a) == Render(b) {
        assert Render(a)[1] == Render(b)[1];
      }
    }
  }

  /** Only literals, and no variable twice: no repeated literal and no `x` beside `!x`. */
  predicate Clean(lp: seq<Node>) {
    && AllLiterals(lp)
    && (forall i, j :: 0 <= i < |lp| && 0 <= j < |lp| && i != j ==> LitName(lp[i]) != LitName(lp[j]))
  }

  /** Every node of the sequence is a literal. */
  predicate AllLiterals(s: seq<Node>) {
    forall i :: 0 <= i < |s| ==> IsLiteral(s[i])
  }

  // ----- The sort of a term's literals -----

  /** Python's string order: a prefix comes first, otherwise the first differing character decides. */
  predicate LexLe(a: string, b: string) {
    a == [] || (b != [] && (a[0] < b[0] || (a[0] == b[0] && LexLe(a[1..], b[1..]))))
  }

  lemma {:induction false} LexLeTotal(a: string, b: string)
    ensures LexLe(a, b) || LexLe(b, a)
  {
    if a != [] && b != [] && a[0] == b[0] {
      LexLeTotal(a[1..], b[1..]);
    }
  }

  lemma {:induction false} LexLeTransitive(a: string, b: string, c: string)
    requires LexLe(a, b) && LexLe(b, c)
    ensures LexLe(a, c)
  {
    if a != [] && a[0] == b[0] && b[0] == c[0] {
      LexLeTransitive(a[1..], b[1..], c[1..]);
    }
  }

  /** The key `str(n)` for a variable and `str(n.negated)` otherwise exists only for these two kinds. */
  predicate HasKey(n: Node) {
    n.Var? || n.Neg?
  }

  predicate AllKeyed(s: seq<Node>) {
    forall n :: n in s ==> HasKey(n)
  }

  function SortKey(n: Node): string
    requires HasKey(n)
  {
    if n.Var? then Render(n) else Render(n.negated)
  }

  predicate SortedByKey(s: seq<Node>) {
    && AllKeyed(s)
    && forall i, j :: 0 <= i < j < |s| ==> LexLe(SortKey(s[i]), SortKey(s[j]))
  }

  /** Places `x` after every node whose key is not greater: one step of a stable sort. */
  function Insert(x: Node, s: seq<Node>): seq<Node>
    requires HasKey(x) && AllKeyed(s)
  {
    if s == [] then [x]
    else if !LexLe(SortKey(s[0]), SortKey(x)) then [x] + s
    else [s[0]] + Insert(x, s[1..])
  }

  /** Inserting adds `x` and keeps every other node. */
  lemma {:induction false} InsertPermutes(x: Node, s: seq<Node>)
    requires HasKey(x) && AllKeyed(s)
    ensures multiset(Insert(x, s)) == multiset(s) + multiset{x}
    decreases |s|
  {
    if s != [] && LexLe(SortKey(s[0]), SortKey(x)) {
      InsertPermutes(x, s[1..]);
      assert s == [s[0]] + s[1..];
    }
  }

  /** `sorted(ns, key=...)`: Python's sort is stable, as inserting the nodes one by one is. */
  function SortByKey(ns: seq<Node>): (r: seq<Node>)
    requires AllKeyed(ns)
    ensures multiset(r) == multiset(ns)
  {
    if ns == [] then []
    else
      var init := ns[..|ns| - 1];
      assert ns == init + [ns[|ns| - 1]];
      var s := SortByKey(init);
      assert forall n :: n in s ==> n in multiset(init);
      InsertPermutes(ns[|ns| - 1], s);
      Insert(ns[|ns| - 1], s)
  }

  /** Every node of `s` has a key and a key not below `k`. */
  predicate KeysFrom(k: string, s: seq<Node>) {
    forall y :: y in s ==> HasKey(y) && LexLe(k, SortKey(y))
  }

  lemma SortedCons(x: Node, s: seq<Node>)
    requires HasKey(x) && SortedByKey(s) && KeysFrom(SortKey(x), s)
    ensures SortedByKey([x] + s)
  {
    var r := [x] + s;
    forall i, j | 0 <= i < j < |r|
      ensures LexLe(SortKey(r[i]), SortKey(r[j]))
    {
      assert r[j] == s[j - 1] && s[j - 1] in s;
      if i > 0 {
        assert r[i] == s[i - 1];
      }
    }
  }

  lemma {:induction false} InsertSorted(x: Node, s: seq<Node>)
    requires HasKey(x) && SortedByKey(s)
    ensures SortedByKey(Insert(x, s))
    decreases |s|
  {
    if s != [] {
      var k0 := SortKey(s[0]);
      assert forall y :: y in s[1..] ==> y in s;
      assert KeysFrom(k0, s[1..]) by {
        forall y | y in s[1..] ensures HasKey(y) && LexLe(k0, SortKey(y)) {
          var m :| 0 <= m < |s[1..]| && s[1..][m] == y;
          assert s[m + 1] == y;
        }
      }
      assert SortedByKey(s[1..]) by {
        forall i, j | 0 <= i < j < |s[1..]| ensures LexLe(SortKey(s[1..][i]), SortKey(s[1..][j])) {
          assert s[1..][i] == s[i + 1] && s[1..][j] == s[j + 1];
        }
      }
      assert s == [s[0]] + s[1..];
      if !LexLe(k0, SortKey(x)) {
        LexLeTotal(k0, SortKey(x));
        forall y | y in s ensures HasKey(y) && LexLe(SortKey(x), SortKey(y)) {
          if y != s[0] {
            LexLeTransitive(SortKey(x), k0, SortKey(y));
          }
        }
        SortedCons(x, s);
      } else {
        var t := Insert(x, s[1..]);
        InsertSorted(x, s[1..]);
        InsertPermutes(x, s[1..]);
        assert forall y :: y in t ==> y in multiset(s[1..]) + multiset{x};
        SortedCons(s[0], t);
      }
    }
  }

  /** The sort gives the same nodes, ordered by key. */
  lemma {:induction false} SortByKeySorted(ns: seq<Node>)
    requires AllKeyed(ns)
    ensures SortedByKey(SortByKey(ns))
    decreases |ns|
  {
    if ns != [] {
      var init := ns[..|ns| - 1];
      assert forall n :: n in init ==> n in ns;
      SortByKeySorted(init);
      InsertSorted(ns[|ns| - 1], SortByKey(init));
    }
  }

  /** A node whose key is not below any key of `s` goes at the end. */
  lemma {:induction false} InsertAfterAll(x: Node, s: seq<Node>)
    requires HasKey(x) && AllKeyed(s)
    requires forall i :: 0 <= i < |s| ==> LexLe(SortKey(s[i]), SortKey(x))
    ensures Insert(x, s) == s + [x]
    decreases |s|
  {
    if s != [] {
      assert s[0] in s;
      assert forall n :: n in s[1..] ==> n in s;
      assert forall i :: 0 <= i < |s[1..]| ==> s[1..][i] == s[i + 1];
      InsertAfterAll(x, s[1..]);
      assert [s[0]] + (s[1..] + [x]) == s + [x];
    }
}

  /** Sorting nodes already in key order changes nothing. */
  lemma {:induction false} SortSortedUnchanged(ns: seq<Node>)
    requires SortedByKey(ns)
    ensures SortByKey(ns) == ns
    decreases |ns|
  {
    if ns != [] {
      var init := ns[..|ns| - 1];
      var last := ns[|ns| - 1];
      assert SortedByKey(init) by {
        assert forall n :: n in init ==> n in ns;
        forall i, j | 0 <= i < j < |init| ensures LexLe(SortKey(init[i]), SortKey(init[j])) {
          assert init[i] == ns[i] && init[j] == ns[j];
        }
      }
      assert last in ns;
      forall i | 0 <= i < |init| ensures LexLe(SortKey(init[i]), SortKey(last)) {
        assert init[i] == ns[i];
      }
      SortSortedUnchanged(init);
      InsertAfterAll(last, init);
      assert init + [last] == ns;
    }
  }

  /** No literal of `s` has the variable `x`. */
  predicate NameAbsent(x: char, s: seq<Node>)
    requires AllLiterals(s)
  {
    forall i :: 0 <= i < |s| ==> LitName(s[i]) != x
  }

  lemma CleanCons(x: Node, s: seq<Node>)
    requires IsLiteral(x) && Clean(s) && NameAbsent(LitName(x), s)
    ensures Clean([x] + s)
  {
    var r := [x] + s;
    assert forall i :: 1 <= i < |r| ==> r[i] == s[i - 1];
  }

  lemma CleanTail(s: seq<Node>)
    requires s != [] && Clean(s)
    ensures Clean(s[1..]) && NameAbsent(LitName(s[0]), s[1..])
  {
    assert forall i :: 0 <= i < |s[1..]| ==> s[1..][i] == s[i + 1];
  }

  /** In a clean sequence, a literal whose variable is absent can be found by membership. */
  lemma NameAbsentMembers(x: char, s: seq<Node>, t: seq<Node>)
    requires AllLiterals(s) && AllLiterals(t) && NameAbsent(x, s)
    requires forall y :: y in t ==> y in s
    ensures NameAbsent(x, t)
  {
    forall i | 0 <= i < |t| ensures LitName(t[i]) != x {
      assert t[i] in s;
      var k :| 0 <= k < |s| && s[k] == t[i];
    }
  }

  /** Inserting a literal among literals whose variables differ from `n` keeps them different from `n`. */
  lemma {:induction false} InsertNameAbsent(x: Node, s: seq<Node>, n: char)
    requires IsLiteral(x) && AllLiterals(s) && AllKeyed(s)
    requires NameAbsent(n, s) && LitName(x) != n
    ensures AllLiterals(Insert(x, s)) && NameAbsent(n, Insert(x, s))
    decreases |s|
  {
    if s != [] && LexLe(SortKey(s[0]), SortKey(x)) {
      var tail := s[1..];
      assert forall i :: 0 <= i < |tail| ==> tail[i] == s[i + 1];
      assert AllKeyed(tail) by {
        forall y | y in tail ensures HasKey(y) {
          assert y in s;
        }
      }
      InsertNameAbsent(x, tail, n);
      var r := Insert(x, s);
      var t := Insert(x, tail);
      assert r == [s[0]] + t;
      assert forall i :: 1 <= i < |r| ==> r[i] == t[i - 1];
    }
  }

  /** The sort keeps the variables of the literals pairwise distinct. */
  lemma {:induction false} InsertKeepsClean(x: Node, s: seq<Node>)
    requires IsLiteral(x) && Clean(s) && AllKeyed(s) && NameAbsent(LitName(x), s)
    ensures Clean(Insert(x, s))
    decreases |s|
  {
    if s == [] || !LexLe(SortKey(s[0]), SortKey(x)) {
      CleanCons(x, s);
    } else {
      var tail := s[1..];
      CleanTail(s);
      assert forall i :: 0 <= i < |tail| ==> tail[i] == s[i + 1];
      assert AllKeyed(tail) by {
        forall y | y in tail ensures HasKey(y) {
          assert y in s;
        }
      }
      InsertKeepsClean(x, tail);
      assert LitName(x) != LitName(s[0]);
      InsertNameAbsent(x, tail, LitName(s[0]));
      CleanCons(s[0], Insert(x, tail));
    }
  }

  /** The sort of a clean sequence of literals is clean. */
  lemma {:induction false} SortByKeyClean(ns: seq<Node>)
    requires Clean(ns) && AllKeyed(ns)
    ensures Clean(SortByKey(ns))
    decreases |ns|
  {
    if ns != [] {
      var init := ns[..|ns| - 1];
      var last := ns[|ns| - 1];
      assert forall i :: 0 <= i < |init| ==> init[i] == ns[i];
      assert forall n :: n in init ==> n in ns;
      SortByKeyClean(init);
      var s := SortByKey(init);
      assert NameAbsent(LitName(last), init);
      assert forall y :: y in s ==> y in multiset(init);
      NameAbsentMembers(LitName(last), init, s);
      InsertKeepsClean(last, s);
    }
  }

  /** A node true in one order of a conjunction is true in every order. */
  lemma AllTruePermutation(a: seq<Node>, b: seq<Node>, env: set<char>)
    requires multiset(a) == multiset(b)
    ensures AllTrue(a, env) <==> AllTrue(b, env)
  {
    if AllTrue(a, env) {
      forall i | 0 <= i < |b| ensures Eval(b[i], env) {
        assert b[i] in multiset(a);
        var k :| 0 <= k < |a| && a[k] == b[i];
      }
    }
    if AllTrue(b, env) {
      forall i | 0 <= i < |a| ensures Eval(a[i], env) {
        assert a[i] in multiset(b);
        var k :| 0 <= k < |b| && b[k] == a[i];
      }
    }
  }

  // ----- The scan of one pair of terms -----

  /** What the inner loop over the left literals decides about one right literal. */
  datatype Verdict = Keep | Skip | Clash

  /**
   * The inner loop over `lp` for the right literal `rc`, with `matched` the
   * `skipAtom` flag so far: a clash with a variable or with a negation stops
   * the loop and the conjunction is dropped; a repeated negation stops it
   * and `rc` is skipped; a repeated variable only sets the flag, and the
   * loop goes on (so a later clash still drops the conjunction).
   */
  function VerdictOf(rc: Node, lp: seq<Node>, matched: bool): Verdict
    decreases |lp|
  {
    if lp == [] then (if matched then Skip else Keep)
    else
      var lc := lp[0];
      if lc.Var? && rc.Var? && Same(rc, lc) then VerdictOf(rc, lp[1..], true)
      else if lc.Var? && rc.Neg? && Same(rc.negated, lc) then Clash
      else if lc.Neg? && rc.Var? && Same(lc.negated, rc) then Clash
      else if lc.Neg? && rc.Neg? && Same(lc.negated, rc.negated) then Skip
      else VerdictOf(rc, lp[1..], matched)
  }

  /**
   * The loop over the right literals: `None` when some right literal
   * clashes, so that the conjunction is dropped; otherwise the right
   * literals to add (`incr`), in their order.
   */
  function Scan(lp: seq<Node>, rp: seq<Node>): Option<seq<Node>>
    decreases |rp|
  {
    if rp == [] then Some([])
    else
      var rest := Scan(lp, rp[1..]);
      match VerdictOf(rp[0], lp, false)
      case Clash => None
      case Skip => rest
      case Keep => if rest.None? then None else Some([rp[0]] + rest.value)
  }

  /** `incr` in front of what the rest of the scan decides. */
  function Prepend(incr: seq<Node>, o: Option<seq<Node>>): Option<seq<Node>> {
    if o.None? then None else Some(incr + o.value)
  }

  /**
   * The double loop of `_CForm.toDNF` over `rp` and `lp` with its two
   * flags; it computes `Scan`.  `skipConjunction` is never reset, so a
   * clash found after a repeated variable still drops the conjunction.
   */
  method ScanPair(lp: seq<Node>, rp: seq<Node>) returns (skipConjunction: bool, incr: seq<Node>)
    ensures skipConjunction <==> Scan(lp, rp).None?
    ensures !skipConjunction ==> Scan(lp, rp) == Some(incr)
  {
    var skipAtom := false;
    skipConjunction := false;
    incr := [];
    var i := 0;
    assert rp[0..] == rp;
    if Scan(lp, rp).Some? {
      assert [] + Scan(lp, rp).value == Scan(lp, rp).value;
    }
    while i < |rp|
      invariant 0 <= i <= |rp|
      invariant !skipAtom
      invariant skipConjunction ==> Scan(lp, rp).None?
      invariant !skipConjunction ==> Scan(lp, rp) == Prepend(incr, Scan(lp, rp[i..]))
    {
      var rc := rp[i];
      assert rp[i..][0] == rc && rp[i..][1..] == rp[i + 1..];
      ghost var wasClash := skipConjunction;
      ghost var v := VerdictOf(rc, lp, false);
      ghost var clashed := false;
      var j := 0;
      while j < |lp|
        invariant 0 <= j <= |lp|
        invariant skipConjunction == wasClash && !clashed
        invariant VerdictOf(rc, lp, false) == VerdictOf(rc, lp[j..], skipAtom)
      {
        var lc := lp[j];
        assert lp[j..][0] == lc && lp[j..][1..] == lp[j + 1..];
        if lc.Var? {
          if rc.Var? && Same(rc, lc) {
            skipAtom := true;
          } else if rc.Neg? && Same(rc.negated, lc) {
            assert v == Clash;
            skipConjunction, clashed := true, true;
            break;
          }
        } else if lc.Neg? {
          if rc.Var? && Same(lc.negated, rc) {
            assert v == Clash;
            skipConjunction, clashed := true, true;
            break;
          } else if rc.Neg? && Same(lc.negated, rc.negated) {
            assert v == Skip;
            skipAtom := true;
            break;
          }
        }
        j := j + 1;
      }
      assert skipConjunction == (wasClash || clashed);
      assert clashed ==> v == Clash;
      assert !clashed ==> (v == Skip <==> skipAtom) && v != Clash;
      assert Scan(lp, rp[i..]) == match v
        case Clash => None
        case Skip => Scan(lp, rp[i + 1..])
        case Keep => Prepend([rc], Scan(lp, rp[i + 1..]));
      if skipAtom {
        skipAtom := false;
      } else if skipConjunction {
        break;
      } else {
        assert forall w :: (incr + [rc]) + w == incr + ([rc] + w);
        incr := incr + [rc];
      }
      i := i + 1;
    }
    if !skipConjunction {
      assert rp[i..] == [] && incr + [] == incr;
    }
  }

  // ----- One pair of terms -----

  /** `lp`: the children of a non-empty conjunction, otherwise the node itself. */
  function Conjuncts(n: Node): seq<Node> {
    if n.CForm? && |n.children| > 0 then n.children else [n]
  }

  /** The children of a non-empty disjunction, otherwise the node itself (`normalizePartial`, and `rp`). */
  function Disjuncts(n: Node): seq<Node> {
    if n.DForm? && |n.children| > 0 then n.children else [n]
  }

  lemma ConjunctsMeaning(n: Node, env: set<char>)
    ensures AllTrue(Conjuncts(n), env) <==> Eval(n, env)
    ensures AnyTrue(Disjuncts(n), env) <==> Eval(n, env)
  {
    assert [n][0] == n;
  }

  /**
   * One pair of the double loop: `Ok(None)` when the conjunction of `left`
   * and the right literals `rp` is dropped, `Ok(Some(left))` when nothing
   * needs adding, otherwise the conjunction at `pos` of `left`'s literals
   * and the added ones sorted by key; the sort fails on a node that has no
   * key.
   */
  function PairTerm(pos: int, left: Node, rp: seq<Node>): Result<Option<Node>> {
    var lp := Conjuncts(left);
    match Scan(lp, rp)
    case None => Ok(None)
    case Some(incr) =>
      if incr == [] then Ok(Some(left))
      else if !AllKeyed(lp + incr) then Err(NoSortKey)
      else Ok(Some(MkCForm(pos, SortByKey(lp + incr))))
  }

  // ----- What the scan means on literals -----

  /** On literals, a clash is a complementary pair, a skip a repeated literal, and a keep neither. */
  lemma {:induction false} VerdictLiterals(rc: Node, lp: seq<Node>, matched: bool)
    requires IsLiteral(rc) && AllLiterals(lp)
    ensures VerdictOf(rc, lp, matched) == Clash ==> exists i :: 0 <= i < |lp| && Complementary(lp[i], rc)
    ensures VerdictOf(rc, lp, matched) == Skip ==> matched || exists i :: 0 <= i < |lp| && Same(lp[i], rc)
    ensures VerdictOf(rc, lp, matched) == Keep ==>
      !matched && forall i :: 0 <= i < |lp| ==> LitName(lp[i]) != LitName(rc)
    decreases |lp|
  {
    if lp != [] {
      var lc := lp[0];
      LiteralRelations(lc, rc, {});
      LiteralRelations(rc, lc, {});
      VerdictLiterals(rc, lp[1..], true);
      VerdictLiterals(rc, lp[1..], matched);
      assert forall i :: 0 <= i < |lp[1..]| ==> lp[1..][i] == lp[i + 1];
      if VerdictOf(rc, lp, matched) == Clash {
        if lc.Var? && rc.Neg? && Same(rc.negated, lc) {
          assert Complementary(lp[0], rc);
        } else if lc.Neg? && rc.Var? && Same(lc.negated, rc) {
          assert Complementary(lp[0], rc);
        }
      }
      if VerdictOf(rc, lp, matched) == Skip {
        if lc.Var? && rc.Var? && Same(rc, lc) {
          assert Same(lp[0], rc);
        } else if lc.Neg? && rc.Neg? && Same(lc.negated, rc.negated) {
          assert Same(lp[0], rc);
        }
      }
    }
  }

  /**
   * On literals the scan is sound: a dropped conjunction cannot be true,
   * and the added right literals together with the left ones are true
   * exactly when all left and right literals are.
   */
  lemma {:induction false} ScanLiterals(lp: seq<Node>, rp: seq<Node>, env: set<char>)
    requires AllLiterals(lp) && AllLiterals(rp)
    ensures Scan(lp, rp).None? ==> !(AllTrue(lp, env) && AllTrue(rp, env))
    ensures Scan(lp, rp).Some? ==>
      && AllLiterals(Scan(lp, rp).value)
      && (AllTrue(lp, env) && AllTrue(Scan(lp, rp).value, env) <==> AllTrue(lp, env) && AllTrue(rp, env))
    decreases |rp|
  {
    if rp != [] {
      var rc := rp[0];
      var tail := rp[1..];
      assert AllLiterals(tail) by {
        assert forall i :: 0 <= i < |tail| ==> tail[i] == rp[i + 1];
      }
      ScanLiterals(lp, tail, env);
      VerdictLiterals(rc, lp, false);
      assert rp == [rc] + tail;
      AnyAllAppend([rc], tail, env);
      match VerdictOf(rc, lp, false)
      case Clash =>
        var i :| 0 <= i < |lp| && Complementary(lp[i], rc);
        LiteralRelations(lp[i], rc, env);
      case Skip =>
        var i :| 0 <= i < |lp| && Same(lp[i], rc);
        LiteralRelations(lp[i], rc, env);
      case Keep =>
        if Scan(lp, tail).Some? {
          AnyAllAppend([rc], Scan(lp, tail).value, env);
        }
    }
  }

  /** A conjunction of literals in the shape the scan sees: one literal, or a non-empty conjunction of literals. */
  predicate IsTerm(t: Node) {
    IsLiteral(t) || (t.CForm? && |t.children| > 0 && AllLiterals(t.children))
  }

  /**
   * On literal terms the pair step never fails, and it is sound: a dropped
   * pair is never true, and a kept one is a literal term that is true
   * exactly when both the left term and all right literals are.
   */
  lemma PairTermLiterals(pos: int, left: Node, rp: seq<Node>, env: set<char>)
    requires IsTerm(left) && AllLiterals(rp)
    ensures PairTerm(pos, left, rp).Ok?
    ensures PairTerm(pos, left, rp).value.None? ==> !(Eval(left, env) && AllTrue(rp, env))
    ensures PairTerm(pos, left, rp).value.Some? ==>
      var t := PairTerm(pos, left, rp).value.value;
      IsTerm(t) && (Eval(t, env) <==> Eval(left, env) && AllTrue(rp, env))
  {
    var lp := Conjuncts(left);
    ConjunctsMeaning(left, env);
    assert AllLiterals(lp);
    ScanLiterals(lp, rp, env);
    if Scan(lp, rp).Some? && Scan(lp, rp).value != [] {
      var incr := Scan(lp, rp).value;
      LiteralsAppend(lp, incr);
      SortedTerm(pos, lp + incr, env);
      AnyAllAppend(lp, incr, env);
    }
  }

  lemma LiteralsAppend(a: seq<Node>, b: seq<Node>)
    requires AllLiterals(a) && AllLiterals(b)
    ensures AllLiterals(a + b) && AllKeyed(a + b)
  {
    var ab := a + b;
    assert forall i :: 0 <= i < |a| ==> ab[i] == a[i];
    assert forall i :: |a| <= i < |ab| ==> ab[i] == b[i - |a|];
  }

  /** Sorting the literals of a conjunction gives a literal term with the same meaning. */
  lemma SortedTerm(pos: int, all: seq<Node>, env: set<char>)
    requires all != [] && AllLiterals(all) && AllKeyed(all)
    ensures IsTerm(MkCForm(pos, SortByKey(all)))
    ensures Eval(MkCForm(pos, SortByKey(all)), env) <==> AllTrue(all, env)
    ensures MkCForm(pos, SortByKey(all)).children == SortByKey(all)
  {
    var sorted := SortByKey(all);
    assert forall y :: y in sorted ==> y in multiset(all);
    assert AllLiterals(sorted) by {
      forall i | 0 <= i < |sorted| ensures IsLiteral(sorted[i]) {
        assert sorted[i] in multiset(all);
        var k :| 0 <= k < |all| && all[k] == sorted[i];
      }
    }
    assert |sorted| == |multiset(all)| == |all|;
    SpliceNoneOfKind(sorted, ConjunctionKind);
    SpliceMeaning(pos, sorted, env);
    AllTruePermutation(sorted, all, env);
  }

  /**
   * Against a clean term, one literal clashes exactly when its complement
   * is there, is skipped exactly when it is there itself, and is kept
   * exactly when its variable is absent.
   */
  lemma VerdictClean(rc: Node, lp: seq<Node>)
    requires Clean(lp) && IsLiteral(rc)
    ensures VerdictOf(rc, lp, false) == Clash <==> exists i :: 0 <= i < |lp| && Complementary(lp[i], rc)
    ensures VerdictOf(rc, lp, false) == Skip <==> exists i :: 0 <= i < |lp| && Same(lp[i], rc)
    ensures VerdictOf(rc, lp, false) == Keep <==> NameAbsent(LitName(rc), lp)
  {
    VerdictLiterals(rc, lp, false);
    if exists i :: 0 <= i < |lp| && Complementary(lp[i], rc) {
      var i :| 0 <= i < |lp| && Complementary(lp[i], rc);
      LiteralRelations(lp[i], rc, {});
      if VerdictOf(rc, lp, false) == Skip {
        var j :| 0 <= j < |lp| && Same(lp[j], rc);
        LiteralRelations(lp[j], rc, {});
      }
    }
    if exists i :: 0 <= i < |lp| && Same(lp[i], rc) {
      var i :| 0 <= i < |lp| && Same(lp[i], rc);
      LiteralRelations(lp[i], rc, {});
    }
    if !NameAbsent(LitName(rc), lp) {
      var i :| 0 <= i < |lp| && LitName(lp[i]) == LitName(rc);
      LiteralRelations(lp[i], rc, {});
    }
  }

  /**
   * The property the loop is written for, on a clean left term and a right
   * literal: the pair is dropped exactly when the left term holds the
   * complement, is the left term itself when that holds the literal, and
   * otherwise is the left literals and the new one, each variable once, in
   * key order.
   */
  lemma PairTermClean(pos: int, left: Node, right: Node)
    requires Clean(Conjuncts(left)) && IsLiteral(right)
    ensures PairTerm(pos, left, [right]).Ok?
    ensures PairTerm(pos, left, [right]).value.None? <==>
      exists i :: 0 <= i < |Conjuncts(left)| && Complementary(Conjuncts(left)[i], right)
    ensures (exists i :: 0 <= i < |Conjuncts(left)| && Same(Conjuncts(left)[i], right)) ==>
      PairTerm(pos, left, [right]) == Ok(Some(left))
    ensures NameAbsent(LitName(right), Conjuncts(left)) ==>
      var t := PairTerm(pos, left, [right]).value.value;
      && t.CForm?
      && Clean(t.children) && SortedByKey(t.children)
      && multiset(t.children) == multiset(Conjuncts(left)) + multiset{right}
  {
    var lp := Conjuncts(left);
    assert [right][1..] == [] && [right] + [] == [right];
    VerdictClean(right, lp);
    var v := VerdictOf(right, lp, false);
    assert Scan(lp, [right]) == match v
      case Clash => None
      case Skip => Some([])
      case Keep => Some([right]);
    if v == Keep {
      PairTermKeepClean(pos, lp, right);
    }
  }

  lemma PairTermKeepClean(pos: int, lp: seq<Node>, right: Node)
    requires Clean(lp) && IsLiteral(right) && NameAbsent(LitName(right), lp)
    ensures AllKeyed(lp + [right])
    ensures Clean(SortByKey(lp + [right])) && SortedByKey(SortByKey(lp + [right]))
    ensures MkCForm(pos, SortByKey(lp + [right])).children == SortByKey(lp + [right])
  {
    var all := lp + [right];
    LiteralsAppend(lp, [right]);
    assert AllKeyed(lp) by {
      assert forall y :: y in lp ==> y in all;
    }
    assert forall y :: y in SortByKey(lp) ==> y in multiset(lp);
    assert SortByKey(all) == Insert(right, SortByKey(lp)) by {
      assert all[..|all| - 1] == lp;
    }
    SortByKeySorted(all);
    SortByKeyClean(lp);
    var s := SortByKey(lp);
    assert forall y :: y in s ==> y in multiset(lp);
    NameAbsentMembers(LitName(right), lp, s);
    InsertKeepsClean(right, s);
    SortedTerm(pos, all, {});
  }

  /**
   * A conjunction as the right term is kept whole and then has no sort
   * key: the step fails (in the source, an `AttributeError` on
   * `n.negated`).
   */
  lemma PairTermConjunctiveRight(pos: int, left: Node, right: Node)
    requires right.CForm?
    ensures PairTerm(pos, left, Disjuncts(right)) == Err(NoSortKey)
  {
    var lp := Conjuncts(left);
    assert Disjuncts(right) == [right];
    assert [right][1..] == [];
    VerdictOfComposite(right, lp, false);
    assert Scan(lp, [right]) == Some([right]) by {
      assert [right] + [] == [right];
    }
    assert right in lp + [right];
  }

  /** When every right literal is kept, the scan adds all of them, in order. */
  lemma {:induction false} ScanAllKeep(lp: seq<Node>, rp: seq<Node>)
    requires forall i :: 0 <= i < |rp| ==> VerdictOf(rp[i], lp, false) == Keep
    ensures Scan(lp, rp) == Some(rp)
    decreases |rp|
  {
    if rp != [] {
      assert forall i :: 0 <= i < |rp[1..]| ==> rp[1..][i] == rp[i + 1];
      ScanAllKeep(lp, rp[1..]);
      assert [rp[0]] + rp[1..] == rp;
    }
  }

  /**
   * When every right literal is kept and the literals come out in key
   * order, the pair step is the conjunction of the left literals followed
   * by the right ones.
   */
  lemma PairTermAppends(pos: int, left: Node, rp: seq<Node>)
    requires AllLiterals(Conjuncts(left)) && AllLiterals(rp) && rp != []
    requires forall i :: 0 <= i < |rp| ==> VerdictOf(rp[i], Conjuncts(left), false) == Keep
    requires SortedByKey(Conjuncts(left) + rp)
    ensures PairTerm(pos, left, rp) == Ok(Some(CForm(pos, Conjuncts(left) + rp)))
  {
    var all := Conjuncts(left) + rp;
    ScanAllKeep(Conjuncts(left), rp);
    LiteralsAppend(Conjuncts(left), rp);
    SortSortedUnchanged(all);
    SpliceNoneOfKind(all, ConjunctionKind);
  }

  /** Neither a variable nor a negation matches nothing in the inner loop. */
  lemma {:induction false} VerdictOfComposite(rc: Node, lp: seq<Node>, matched: bool)
    requires !rc.Var? && !rc.Neg?
    ensures VerdictOf(rc, lp, matched) == (if matched then Skip else Keep)
    decreases |lp|
  {
    if lp != [] {
      VerdictOfComposite(rc, lp[1..], matched);
    }
  }
}
