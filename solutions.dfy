/**
 * The tri-state partial assignment of the solver (`Solution`, solver.py).
 * An assignment is a string over the values `t` (true), `f` (false) and
 * `a` (arbitrary, "don't care"), aligned position by position with a
 * variable list.  The string-level functions below are the specification;
 * class `Solution` holds the mutable object of the source.
 */
module Solutions {
  import opened Wrappers

  const TrueValue: char := 't'
  const FalseValue: char := 'f'
  const ArbitraryValue: char := 'a'

  /** The three values a solution slot is meant to hold. */
  predicate IsValue(v: char) {
    v == TrueValue || v == FalseValue || v == ArbitraryValue
  }

  /** Every slot of an assignment string holds one of the three values. */
  predicate AllValues(s: seq<char>) {
    forall i :: 0 <= i < |s| ==> IsValue(s[i])
  }

  /** `ValueNegate`: a lookup table that swaps t and f, keeps a, and has no entry for anything else. */
  function ValueNegate(v: char): (r: Option<char>)
    ensures r.Some? <==> IsValue(v)
    ensures r.Some? ==> IsValue(r.value) && (r.value == v <==> v == ArbitraryValue)
  {
    if v == ArbitraryValue then Some(ArbitraryValue)
    else if v == TrueValue then Some(FalseValue)
    else if v == FalseValue then Some(TrueValue)
    else None
  }

  /** Negating twice gives the value back. */
  lemma ValueNegateInvolutive(v: char)
    requires IsValue(v)
    ensures ValueNegate(ValueNegate(v).value) == Some(v)
  {
  }

  /** The assignment string of a freshly created solution with every slot arbitrary. */
  function AllArbitrary(n: nat): (r: seq<char>)
    ensures |r| == n && AllValues(r)
    ensures forall i :: 0 <= i < n ==> r[i] == ArbitraryValue
  {
    seq(n, _ => ArbitraryValue)
  }

  /** The assignment string the constructor adopts: the given one when its length matches, else all arbitrary. */
  function Initial(varList: seq<char>, assignments: seq<char>): (r: seq<char>)
    ensures |r| == |varList|
    ensures |assignments| == |varList| ==> r == assignments
    ensures |assignments| != |varList| ==> r == AllArbitrary(|varList|)
  {
    if |assignments| == |varList| then assignments else AllArbitrary(|varList|)
  }

  /** `varList.index(var)`: the first position of `v`, or None when `v` does not occur. */
  function IndexOf(vs: seq<char>, v: char): (r: Option<nat>)
    ensures r.None? <==> v !in vs
    ensures r.Some? ==> r.value < |vs| && vs[r.value] == v && v !in vs[..r.value]
  {
    if vs == [] then None
    else if vs[0] == v then Some(0)
    else match IndexOf(vs[1..], v)
      case None => None
      case Some(k) =>
        assert vs[1..][..k] == vs[1..k + 1];
        Some(k + 1)
  }

  /** The assignment string after `setVar(v, value)`: the first slot of `v` rewritten, if `v` is listed. */
  function Assign(varList: seq<char>, s: seq<char>, v: char, value: char): seq<char>
    requires |s| == |varList|
  {
    match IndexOf(varList, v)
    case None => s
    case Some(i) => s[i := value]
  }

  /** What `getVar(v)` returns for an assignment string. */
  function Lookup(varList: seq<char>, s: seq<char>, v: char): Option<char>
    requires |s| == |varList|
  {
    match IndexOf(varList, v)
    case None => None
    case Some(i) => Some(s[i])
  }

  /** Setting a listed variable changes only its own slot and keeps the length. */
  lemma AssignFrame(varList: seq<char>, s: seq<char>, v: char, value: char)
    requires |s| == |varList|
    ensures |Assign(varList, s, v, value)| == |s|
    ensures v !in varList ==> Assign(varList, s, v, value) == s
    ensures v in varList ==>
      var i := IndexOf(varList, v).value;
      && Assign(varList, s, v, value)[i] == value
      && forall j :: 0 <= j < |s| && j != i ==> Assign(varList, s, v, value)[j] == s[j]
  {
  }

  /** `getVar` after `setVar` sees the new value, and every other variable keeps its old value. */
  lemma {:induction false} LookupAfterAssign(varList: seq<char>, s: seq<char>, v: char, w: char, value: char)
    requires |s| == |varList|
    ensures var t := Assign(varList, s, v, value);
      && (v in varList ==> Lookup(varList, t, v) == Some(value))
      && (v !in varList ==> Lookup(varList, t, v) == None)
      && (w != v ==> Lookup(varList, t, w) == Lookup(varList, s, w))
  {
    if w != v && v in varList && w in varList {
      assert IndexOf(varList, w).value != IndexOf(varList, v).value;
    }
  }

  /** Slot `i` of `s` contradicts slot `i` of `o`: `s[i]` is set and `o[i]` is its negation. */
  predicate ConflictAt(s: seq<char>, o: seq<char>, i: nat)
    requires i < |s| && i < |o|
  {
    s[i] != ArbitraryValue && ValueNegate(s[i]) == Some(o[i])
  }

  /** `contradictsWith`: some slot of `s` contradicts the same slot of `o`. */
  predicate Conflict(s: seq<char>, o: seq<char>)
    requires |s| <= |o|
  {
    exists i :: 0 <= i < |s| && ConflictAt(s, o, i)
  }

  /** One value is t and the other f. */
  predicate Opposite(x: char, y: char) {
    (x == TrueValue && y == FalseValue) || (x == FalseValue && y == TrueValue)
  }

  /** Two solutions contradict exactly when one holds t and the other f in the same slot. */
  lemma {:induction false} ConflictIsOpposition(s: seq<char>, o: seq<char>)
    requires |s| <= |o|
    ensures Conflict(s, o) <==>
      exists i :: 0 <= i < |s| && Opposite(s[i], o[i])
  {
    if Conflict(s, o) {
      var i :| 0 <= i < |s| && ConflictAt(s, o, i);
      assert Opposite(s[i], o[i]);
    }
    if exists i :: 0 <= i < |s| && Opposite(s[i], o[i]) {
      var i :| 0 <= i < |s| && Opposite(s[i], o[i]);
      assert ConflictAt(s, o, i);
    }
  }

  /** An arbitrary slot never contradicts, so the relation is symmetric. */
  lemma {:induction false} ConflictSymmetric(s: seq<char>, o: seq<char>)
    requires |s| == |o|
    ensures Conflict(s, o) == Conflict(o, s)
  {
    ConflictIsOpposition(s, o);
    ConflictIsOpposition(o, s);
    if exists i :: 0 <= i < |s| && Opposite(s[i], o[i]) {
      var i :| 0 <= i < |s| && Opposite(s[i], o[i]);
      assert Opposite(o[i], s[i]);
    }
    if exists i :: 0 <= i < |o| && Opposite(o[i], s[i]) {
      var i :| 0 <= i < |o| && Opposite(o[i], s[i]);
      assert Opposite(s[i], o[i]);
    }
  }

  /** `combine`: self's set slots win; self's arbitrary slots are filled from the other solution. */
  function Merge(s: seq<char>, o: seq<char>): (r: seq<char>)
    requires |s| <= |o|
    ensures |r| == |s|
  {
    seq(|s|, i requires 0 <= i < |s| => if s[i] == ArbitraryValue then o[i] else s[i])
  }

  /** Every set slot of `s` survives the merge, and every arbitrary slot of `s` takes the other's value. */
  lemma MergeKeepsAndFills(s: seq<char>, o: seq<char>)
    requires |s| <= |o|
    ensures forall i :: 0 <= i < |s| && s[i] != ArbitraryValue ==> Merge(s, o)[i] == s[i]
    ensures forall i :: 0 <= i < |s| && s[i] == ArbitraryValue ==> Merge(s, o)[i] == o[i]
    ensures AllValues(s) && AllValues(o) ==> AllValues(Merge(s, o))
  {
  }

  /** Merging two non-contradicting solutions does not depend on which one is primary. */
  lemma {:induction false} MergeCommutes(s: seq<char>, o: seq<char>)
    requires |s| == |o| && AllValues(s) && AllValues(o)
    requires !Conflict(s, o)
    ensures Merge(s, o) == Merge(o, s)
  {
    forall i | 0 <= i < |s|
      ensures Merge(s, o)[i] == Merge(o, s)[i]
    {
      if s[i] != ArbitraryValue && o[i] != ArbitraryValue {
        assert !ConflictAt(s, o, i);
      }
    }
  }

  /** Merging with an all-arbitrary solution, on either side, gives the other solution back. */
  lemma MergeArbitraryIdentity(s: seq<char>)
    ensures Merge(s, AllArbitrary(|s|)) == s
    ensures Merge(AllArbitrary(|s|), s) == s
  {
  }

  /**
   * The object of the source: a variable list and an assignment string
   * that the methods read and update in place.
   */
  class Solution {
    const varList: seq<char>
    var assignments: seq<char>

    /** The constructor and `setVar` keep the assignment string as long as the variable list. */
    ghost predicate Valid()
      reads this
    {
      |assignments| == |varList|
    }

    /** `Solution(varList, assignments)`: adopts `assignments` only when its length matches. */
    constructor (varList: seq<char>, assignments: seq<char>)
      ensures Valid()
      ensures this.varList == varList
      ensures this.assignments == Initial(varList, assignments)
    {
      this.varList := varList;
      if |assignments| == |varList| {
        this.assignments := assignments;
      } else {
        this.assignments := AllArbitrary(|varList|);
      }
    }

    /** `setVar`: False exactly when `v` is not listed; otherwise rewrites the slot of `v`. */
    method SetVar(v: char, value: char) returns (ok: bool)
      requires Valid()
      modifies this
      ensures Valid()
      ensures ok <==> v in varList
      ensures assignments == Assign(varList, old(assignments), v, value)
    {
      var index := IndexOf(varList, v);
      if index.None? {
        return false;
      }
      assignments := assignments[index.value := value];
      return true;
    }

    /** `getVar`: the value in the slot of `v`, or None when `v` is not listed. */
    method GetVar(v: char) returns (r: Option<char>)
      requires Valid()
      ensures r.None? <==> v !in varList
      ensures r == Lookup(varList, assignments, v)
    {
      var index := IndexOf(varList, v);
      if index.None? {
        return None;
      }
      return Some(assignments[index.value]);
    }

    /** `contradictsWith`: scans self's slots for one whose negation sits in the other solution. */
    method ContradictsWith(another: Solution) returns (r: bool)
      requires |assignments| <= |another.assignments|
      ensures r == Conflict(assignments, another.assignments)
    {
      var i := 0;
      while i < |assignments|
        invariant 0 <= i <= |assignments|
        invariant forall j :: 0 <= j < i ==> !ConflictAt(assignments, another.assignments, j)
      {
        var val := assignments[i];
        if val != ArbitraryValue && Some(another.assignments[i]) == ValueNegate(val) {
          assert ConflictAt(assignments, another.assignments, i);
          return true;
        }
        i := i + 1;
      }
      return false;
    }

    /** `combine`: builds the merged string slot by slot and wraps it in a new solution. */
    method Combine(another: Solution) returns (c: Solution)
      requires |assignments| <= |another.assignments|
      ensures fresh(c)
      ensures c.varList == varList
      ensures c.assignments == Initial(varList, Merge(assignments, another.assignments))
    {
      var merged: seq<char> := [];
      var i := 0;
      while i < |assignments|
        invariant 0 <= i <= |assignments|
        invariant merged == Merge(assignments, another.assignments)[..i]
      {
        var val := assignments[i];
        if val == ArbitraryValue {
          merged := merged + [another.assignments[i]];
        } else {
          merged := merged + [val];
        }
        i := i + 1;
      }
      c := new Solution(varList, merged);
    }

    /** `__str__`: the assignment string itself. */
    function Str(): (s: string)
      reads this
      ensures |s| == |assignments|
      ensures Valid() ==> |s| == |varList|
    {
      assignments
    }

    /** `__eq__`: two solutions are equal when their strings are, whatever their variable lists. */
    predicate Equals(another: Solution)
      reads this, another
      ensures Equals(another) <==> assignments == another.assignments
    {
      Str() == another.Str()
    }
  }
}
