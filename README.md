# A verified model of a small propositional-logic engine

The modelled program is `solver.py`. It is a toolkit for boolean formulas over
single-character variables (`!` negation, `&` conjunction, `+` disjunction,
brackets). It parses a formula into a tree. It lists the partial assignments
that make the tree true (`solve`). It converts the tree to disjunctive or
conjunctive normal form (`toDNF`, `toCNF`). This project restates that
program in Dafny and proves what it does.

The modules:

- `Wrappers`: `Option` and `Result`, with the error tags where the program
  crashes.
- `Solutions`: the tri-state partial assignment `Solution`. It is a class
  over a `seq<char>` of `t`/`f`/`a`. `SetVar` updates it in place.
  `ContradictsWith` and `Combine` are the source's loops. Each is proved
  against a function (`Conflict`, `Merge`), and the properties of those
  functions are lemmas.
- `Ast`: the four node kinds as one datatype, with token positions. It has
  the flattening constructors (`MkDForm`, `MkCForm`, and the loop methods
  `NewDForm`, `NewCForm`), the rendering `__str__` (`Render`), and boolean
  evaluation (`Eval`). `Eval` gives `solve` and the normal forms a meaning.
- `Solver`: `solve` as written, with its soundness and completeness where the
  polarity is positive. Two counterexamples show what goes wrong under
  negation, and a corrected `SolveDual` is proved right for every polarity.
- `Terms`: the term-level pieces of the DNF distribution loop:
  - node equality (kind and rendering) and duplicate removal;
  - the stable sort by variable name;
  - the `skipAtom`/`skipConjunction` scan, as a method proved against a
    function.
- `NormalForms`: `toDNF`, `toCNF` and `normalizePartial`, as written.
- `CorrectedForms`: DNF and CNF conversions with the defects fixed. Both are
  proved to give a normal form with the same meaning.
- `Parser`: `pushNode` and `parse` as imperative methods over the three
  stacks, each proved equal to a functional specification (`Push`, `Step`,
  `Run`, `ParseSpec`). Lemmas cover the stack invariants and the error
  cases.
- `Examples`: concrete parses, computed by the verifier.
- `Findings`: the concrete inputs on which the as-written conversion goes
  wrong.

Several conversions call themselves on trees they have just built, so no
structural measure decreases. They take a `depth` budget and fail with
`RecursionLimit` when it runs out. This is the analogue of Python's recursion
limit.

## Model

| member | source | states |
|---|---|---|
| Solutions.ValueNegate | solver.py:13-19 | defined exactly on `t`/`f`/`a`, where `None` is the result for any other character; maps values to values and fixes only `a` |
| Solutions.ValueNegateInvolutive | solver.py:13-19 | negating a value twice gives it back |
| Solutions.Initial | solver.py:29-35 | the constructor keeps the assignment string when its length matches the variable list, otherwise every slot is `a` |
| Solutions.Solution.constructor | solver.py:29-35 | the new solution has the given variable list and the assignments of `Initial` |
| Solutions.IndexOf | solver.py:43 | `list.index`: `None` exactly when the variable is absent, otherwise its first index |
| Solutions.Assign | solver.py:37-47 | computes the assignment string after `setVar`: the first slot of the variable rewritten, or the string unchanged when the variable is not listed (no contract of its own; `AssignFrame` and `LookupAfterAssign` state its properties) |
| Solutions.Lookup | solver.py:49-56 | computes what `getVar` returns: the value in the variable's first slot, or `None` when it is not listed (no contract of its own; see `LookupAfterAssign`) |
| Solutions.Conflict | solver.py:58-66 | decides what `contradictsWith` decides: some set slot of `self` holds the negation of the other solution's value in the same slot (no contract of its own; see `ConflictIsOpposition`) |
| Solutions.AssignFrame | solver.py:37-47 | setting a variable keeps the length, changes only that variable's first index, and changes nothing when the variable is absent |
| Solutions.LookupAfterAssign | solver.py:37-56 | after a set, reading the variable gives the new value, reading an absent variable gives `None`, and other variables read as before |
| Solutions.Solution.SetVar | solver.py:37-47 | returns true exactly when the variable is listed; the new assignments are the old ones with that slot written |
| Solutions.Solution.GetVar | solver.py:49-56 | `None` exactly when the variable is absent, otherwise the value at its index |
| Solutions.ConflictIsOpposition | solver.py:58-66 | a contradiction is an index holding `t` on one side and `f` on the other (the loop's test, read as an iff) |
| Solutions.ConflictSymmetric | solver.py:58-66 | contradiction between equal-length solutions is symmetric |
| Solutions.Solution.ContradictsWith | solver.py:58-66 | the loop computes `Conflict` of the two assignment strings |
| Solutions.Merge | solver.py:68-80 | the combined string has the length of `self` |
| Solutions.MergeKeepsAndFills | solver.py:68-80 | combining keeps every set slot of `self`, fills every `a` slot from `another`, and yields values only |
| Solutions.MergeCommutes | solver.py:68-80 | of two non-contradicting solutions, combining is commutative |
| Solutions.MergeArbitraryIdentity | solver.py:68-80 | combining with an all-`a` solution, on either side, gives the other one |
| Solutions.Solution.Combine | solver.py:68-80 | returns a fresh solution over the same variables whose assignments are `Merge` of the two, through the constructor |
| Solutions.Solution.Str | solver.py:91-92 | the rendering has one character per slot of the assignment list, hence one per variable for a valid solution |
| Solutions.Solution.Equals | solver.py:82-85 | two solutions are equal exactly when their renderings (the assignment strings) are |
| Ast.WithPos | solver.py:388 | moving a node to a new position keeps its kind |
| Ast.Splice | solver.py:249-253 | computes the children the initialiser loop collects: for each argument in order, its children when it has the parent's kind, otherwise the argument itself (no contract of its own; the `Ast.Splice…` lemmas state its properties) |
| Ast.Render | solver.py:166-365 | computes `__str__`: a variable is its character, a negation is `!` before its operand (bracketed only when that is a disjunction), a disjunction joins its children with `+`, a conjunction joins them with `&` and brackets disjunction children (no contract of its own; see `RenderBrackets`) |
| Ast.Eval | solver.py:128-130 | decides whether a tree is true when exactly the given variables are true: the meaning against which `solve` and the conversions are proved (no contract of its own) |
| Ast.MkDForm | solver.py:246-253 | the flattening constructor builds a disjunction at the given position |
| Ast.MkCForm | solver.py:291-298 | the flattening constructor builds a conjunction at the given position |
| Ast.NewDForm | solver.py:246-253 | the constructor's loop over its arguments builds `MkDForm` |
| Ast.NewCForm | solver.py:291-298 | the constructor's loop over its arguments builds `MkCForm` |
| Ast.SpliceAppend | solver.py:249-253 | splicing is done argument by argument in order: splicing a concatenation concatenates the splices |
| Ast.SpliceMembers | solver.py:249-253 | a child of the result is an argument of another kind or a child of an argument of the same kind |
| Ast.SpliceNoneOfKind | solver.py:249-253 | with no argument of the parent's kind the children are the arguments themselves |
| Ast.SpliceFlat | solver.py:249-253 | when every same-kind argument is flat, no child of the result has the parent's kind |
| Ast.SplicePair | solver.py:381-382 | the two-argument conjunction of `pushNode` takes the parts of each argument in order |
| Ast.SpliceKeepsTruth | solver.py:249-253 | splicing changes neither the disjunction's nor the conjunction's truth value |
| Ast.SpliceMeaning | solver.py:246-298 | a built disjunction is true exactly when some argument is; a conjunction exactly when all are |
| Ast.JoinContains | solver.py:286 | a character outside the separator occurs in a join exactly when it occurs in a part |
| Ast.RenderBrackets | solver.py:239-241 | a rendering contains `(` exactly when a disjunction sits under a negation or a conjunction |
| Ast.WellFormedConjunctionsNonEmpty | solver.py:306 | a well-formed tree has no empty conjunction, which `solve` needs |
| Ast.MkWellFormed | solver.py:246-298 | two or more well-formed arguments give well-formed, flat disjunctions and conjunctions |
| Solver.SolveVar | solver.py:153-156 | one solution per variable, as long as the variable list, made of values |
| Solver.SolveVarShape | solver.py:153-156 | it sets only the variable's slot, to `t` under positive and `f` otherwise |
| Solver.SolveVarCovered | solver.py:153-156 | the solution agrees with an assignment exactly when the variable (if listed) has the polarity's value |
| Solver.UnionAll | solver.py:258-263 | the disjunction's result is the union of its children's results |
| Solver.Conjoin | solver.py:307-310 | the combines of the non-contradicting pairs are again solutions for the list |
| Solver.ConjoinAll | solver.py:303-311 | folding the pairwise combines over the children gives solutions for the list again |
| Solver.Solve | solver.py:153-311 | the solutions of a tree are assignment strings over the variable list |
| Solver.MergeAgrees | solver.py:58-80 | two solutions that agree with one assignment do not contradict, and their combine agrees with it too |
| Solver.ConjoinCovered | solver.py:307-310 | an assignment is covered by the pairwise combines exactly when it is covered by both sides |
| Solver.UnionAllCovered | solver.py:258-263 | an assignment is covered by the union exactly when by some child's result |
| Solver.ConjoinAllCovered | solver.py:303-311 | an assignment is covered by the folded combines exactly when by every child's result |
| Solver.SolveCorrect | solver.py:128-130 | soundness and completeness: where negation reaches only variables, the solutions cover an assignment exactly when the tree evaluates to the polarity under it |
| Solver.SolveNegatedDisjunctionUnsound | solver.py:184-185 | `!(a+b)` over `ab` yields `fa`, which agrees with an assignment making the formula false |
| Solver.SolveNegatedConjunctionIncomplete | solver.py:184-185 | `!(a&b)` over `ab` yields only `ff`, which misses a satisfying assignment |
| Solver.SolveDual | solver.py:184-185 | the corrected solve: solutions for the list under both polarities |
| Solver.ConjoinAnyCovered | solver.py:303-311 | the fold of combines covers an assignment exactly when every part does, with no part required |
| Solver.SolveDualCorrect | solver.py:128-130 | for every tree, the corrected solutions cover an assignment exactly when the tree evaluates to the polarity |
| Solver.SolveDualAgrees | solver.py:128-311 | where the source's polarity handling is right, the corrected solve equals the source's |
| Terms.Same | solver.py:117-120 | decides `__eq__` on nodes: same kind and same rendering (no contract of its own; see `LiteralRelations`) |
| Terms.RenderKey | solver.py:114-120 | computes the key that `__hash__` and `__eq__` look at: the kind and the rendering (no contract of its own) |
| Terms.Dedup | solver.py:263-267 | computes `list(set(...))` for a given key: the first node of each key, in order of first occurrence (no contract of its own; see `DedupSpec`) |
| Terms.DedupSpec | solver.py:263-267 | `list(set(...))` keeps only input nodes, no two equal ones, and one of each |
| Terms.DedupNoDuplicates | solver.py:267 | without equal nodes the duplicate removal changes nothing |
| Terms.LiteralRelations | solver.py:328-343 | two literals are equal exactly when they have the same kind and variable, complementary exactly when they differ in kind only; equal ones agree in value and complementary ones differ |
| Terms.LexLeTotal | solver.py:353-354 | string order on sort keys is total |
| Terms.LexLeTransitive | solver.py:353-354 | string order on sort keys is transitive |
| Terms.SortByKey | solver.py:353-354 | the sort returns a permutation of its input |
| Terms.InsertPermutes | solver.py:353-354 | each insertion step adds its node and keeps the rest |
| Terms.InsertSorted | solver.py:353-354 | insertion into a key-sorted list keeps it sorted |
| Terms.SortByKeySorted | solver.py:353-354 | the sort's output is in key order |
| Terms.SortSortedUnchanged | solver.py:353-354 | a list already in key order is its own sort (stability) |
| Terms.InsertAfterAll | solver.py:353-354 | a node with a key not below any other goes last (stability) |
| Terms.InsertKeepsClean | solver.py:353-354 | insertion of a literal with a fresh variable keeps the variables pairwise distinct |
| Terms.SortByKeyClean | solver.py:353-354 | sorting literals with pairwise distinct variables keeps them distinct |
| Terms.AllTruePermutation | solver.py:353-354 | reordering a conjunction does not change its truth |
| Terms.VerdictOf | solver.py:329-343 | computes the inner loop over the left literals for one right literal: a clash on a complement, a skip on a repeated negation or, at the end, after a repeated variable, otherwise a keep (no contract of its own; see `VerdictLiterals`, `VerdictClean`) |
| Terms.Scan | solver.py:328-349 | computes the loop over the right literals: `None` when one clashes, otherwise the kept right literals in order (no contract of its own; `ScanPair` proves the loop computes it) |
| Terms.ScanPair | solver.py:323-349 | the double loop with its `skipAtom`/`skipConjunction` flags drops the conjunction exactly when `Scan` does, and otherwise collects exactly `Scan`'s literals |
| Terms.VerdictLiterals | solver.py:328-343 | on literals, a clash means some left literal is the complement, a skip that it is repeated, and a keep that neither holds |
| Terms.VerdictClean | solver.py:328-343 | against a clean left term the three verdicts are exact iffs: complement present, literal present, variable absent |
| Terms.VerdictOfComposite | solver.py:328-343 | a right term that is neither variable nor negation is never matched or dropped by the inner loop |
| Terms.ScanLiterals | solver.py:328-349 | on literals a dropped conjunction is unsatisfiable, and the added literals with the left ones mean the conjunction of both |
| Terms.ScanAllKeep | solver.py:328-349 | when every right literal is kept the scan adds all of them in order |
| Terms.Conjuncts | solver.py:321 | computes `lp`: the children of a non-empty conjunction, otherwise the node itself (no contract of its own; see `ConjunctsMeaning`) |
| Terms.Disjuncts | solver.py:322 | computes `rp`, and the list `normalizePartial` returns: the children of a non-empty disjunction, otherwise the node itself (no contract of its own; see `ConjunctsMeaning`) |
| Terms.PairTerm | solver.py:321-354 | computes one pair of the double loop: dropped, the left term itself when nothing is added, or the sorted conjunction of the left literals and the added ones, failing when the sort meets a node without a key (no contract of its own; see `PairTermLiterals`, `PairTermClean`) |
| Terms.ConjunctsMeaning | solver.py:321-322 | the `lp` and `rp` views of a node are true exactly when the node is |
| Terms.PairTermLiterals | solver.py:321-354 | on a literal term and right literals the pair step succeeds; a dropped pair is unsatisfiable, a kept one is a literal term meaning the conjunction |
| Terms.PairTermClean | solver.py:326-354 | against a clean left term and one right literal: dropped exactly when the complement is there; the left term itself when the literal is there; otherwise a conjunction with each variable once, in key order, of the left literals and the new one |
| Terms.PairTermKeepClean | solver.py:352-354 | the sorted conjunction of a clean term and a literal with a fresh variable is clean and sorted |
| Terms.PairTermAppends | solver.py:352-354 | when all right literals are kept and already in key order the new term is the left literals followed by them |
| Terms.PairTermConjunctiveRight | solver.py:322-354 | a conjunctive right term is taken whole and then has no sort key, so the step fails |
| Terms.SortedTerm | solver.py:353-354 | the sorted conjunction of literals is a literal term with the same meaning and exactly the sorted children |
| NormalForms.ToDnf | solver.py:132-356 | computes `toDNF` as written: literals unchanged, `!!F` converted with `positive` reset, De Morgan only when `positive`, a disjunction's converted children deduplicated by rendering but not flattened, a conjunction distributed over its children (no contract of its own; the lemmas below and `Findings` state its properties) |
| NormalForms.DnfAll | solver.py:267 | computes the children converted by `toDNF(positive)`, in order, the first failure being the result (no contract of its own; see `ListsConvertEach`) |
| NormalForms.NegatedDnfs | solver.py:199-206 | computes each child negated at its own position and converted by `toDNF(True)` (no contract of its own; see `NegatedVarsUnchanged`) |
| NormalForms.NormalizePartial | solver.py:94-96 | computes `normalizePartial`: the converted node's children when it is a non-empty disjunction, otherwise the converted node alone (no contract of its own; see `NormalizePartialMeaning`) |
| NormalForms.Distribute | solver.py:315-355 | computes the loop over `childNodes[1:]`: each further child's terms, normalised with `positive` true, crossed with the running list (no contract of its own; see `DistributeStep`) |
| NormalForms.CrossRight | solver.py:319-354 | computes the inner loop over the left terms for one right term, whose `rp` is its disjuncts (no contract of its own; see `CrossRightLiterals`, `CrossRightClean`) |
| NormalForms.Cross | solver.py:317-355 | computes `interm`: for each right term in order, its pairs with every left term (no contract of its own; see `CrossOneByTwo`, `CrossClean`) |
| NormalForms.ToCnf | solver.py:135-361 | computes `toCNF` as written: literals and clauses of literals unchanged, a disjunction that is not a clause through `toDNF` of its negation and `toCNF` of the negated result, a conjunction's converted children deduplicated but not flattened (no contract of its own; see `LiteralsUnchanged`, `ClauseUnchanged`) |
| NormalForms.CnfAll | solver.py:360 | computes the children converted by `toCNF(positive)`, in order (no contract of its own; see `ListsConvertEach`) |
| NormalForms.NegatedCnfs | solver.py:225-232 | computes each child negated at its own position and converted by `toCNF(True)` (no contract of its own; see `NegatedVarsUnchanged`) |
| NormalForms.LiteralsUnchanged | solver.py:158-216 | a variable or a negated variable is returned unchanged by both conversions |
| NormalForms.ClauseUnchanged | solver.py:270-281 | `toCNF` of a disjunction of literals returns it unchanged |
| NormalForms.LiteralListsUnchanged | solver.py:265-268 | converting literal children returns them unchanged |
| NormalForms.NegatedVarsUnchanged | solver.py:196-232 | De Morgan on variables gives the negated variables at their own positions, in both conversions |
| NormalForms.NormalizePartialMeaning | solver.py:94-96 | `normalizePartial` gives a non-empty list whose disjunction means the converted node |
| NormalForms.ListsConvertEach | solver.py:265-268 | converting a child list converts each child in place, keeping the length |
| NormalForms.CrossRightOne | solver.py:318-354 | one left term and one right term give the pair step's term |
| NormalForms.CrossOneByTwo | solver.py:318-355 | the outer loop runs over the right terms in order, appending each pair's term |
| NormalForms.DistributeStep | solver.py:315-355 | each later child replaces the running DNF by its cross with that child's terms |
| NormalForms.CrossConjunctiveRight | solver.py:322-354 | a conjunctive right term makes the distribution fail |
| NormalForms.CrossRightLiterals | solver.py:318-354 | on literal terms the cross succeeds, gives literal terms, and is true exactly when some left term and all right literals are |
| NormalForms.CrossRightClean | solver.py:319-354 | on left terms with each variable once in key order and one right literal, the inner loop never fails and every term it gives again has each variable once in key order |
| NormalForms.CrossClean | solver.py:317-355 | the same for a list of right literals: the cross never fails and keeps every term clean and sorted |
| Parser.PushNode | solver.py:367-391 | the `while` loop over the stacks computes `Push` |
| Parser.Push | solver.py:376-391 | computes `pushNode`: while the top pending symbol is adjacent, `&` conjoins the previous node, `!` negates (or unwraps a negation to the `!` position), then the node is pushed; a `&` without a previous node fails (no contract of its own; see `PushShape`, `PushKeepsNodesOk`) |
| Parser.Step | solver.py:399-426 | computes one pass of the token loop: `(` records the stack depth, `)` pops it and pushes the bracketed nodes as one disjunction or the single node moved to the `(`, `&` and `!` are stacked, `+` is skipped, any other character is a variable (no contract of its own; see `StepKeepsNodesOk`) |
| Parser.Run | solver.py:398-426 | computes the three stacks after the token loop has read a formula, or its first failure (no contract of its own; see `RunInvariant`, `RunErrorPersists`) |
| Parser.Finish | solver.py:429-433 | computes the end of `parse`: several nodes become a disjunction at -1, one node is the result, none is a failure (no contract of its own; see `ParseEmptyFormula`) |
| Parser.ParseSpec | solver.py:393-433 | computes `parse`: the token loop followed by its end (no contract of its own; `Parse` is proved to compute it and `ParseWellFormed` states its shape) |
| Parser.PushNodesShape | solver.py:376-391 | the only failure is a missing operand for `&`; the node stack grows by at most one and keeps its lower part |
| Parser.PushSymbolsShape | solver.py:376-391 | the symbol stack only shrinks from the top, and afterwards its top is not adjacent to the pushed node |
| Parser.PushShape | solver.py:376-391 | both shapes together |
| Parser.PushKeepsNodesOk | solver.py:376-391 | pushing keeps every stacked node well-formed over the formula's operands: `&` builds a flat conjunction, and `!` on a negation unwraps it instead of nesting |
| Parser.StepKeepsNodesOk | solver.py:398-426 | one token keeps the stack invariant; a failing token never fails for an empty formula |
| Parser.RunInvariant | solver.py:398-426 | after any prefix: the nodes are well-formed over the operands read, the bracket stack has the depth of unclosed `(`, no `)` was unmatched, and the node stack is empty exactly when no operand was read |
| Parser.RunErrorPersists | solver.py:398-426 | a failure in a prefix is the failure of the whole formula |
| Parser.ParseToken | solver.py:399-426 | one pass of the token loop computes `Step` on the three stacks, including its three failures |
| Parser.Parse | solver.py:393-433 | the token loop and the end of `parse` compute `ParseSpec` |
| Parser.ParseWellFormed | solver.py:393-433 | a successful parse is a well-formed tree over the formula's operands (never a double negation), and no `)` was unmatched |
| Parser.ParseEmptyFormula | solver.py:433 | the end fails for want of a node exactly when the loop succeeded and read no operand |
| Parser.ParseEmptyBrackets | solver.py:409-416 | `()` anywhere makes the parse fail |
| Parser.ParseTrailingPlus | solver.py:419-422 | a trailing `+` changes nothing |
| Parser.ParseTrailingOpen | solver.py:429-433 | an unclosed trailing `(` is ignored |
| Examples.StepCloseMany | solver.py:403-411 | `)` over several nodes pushes their disjunction at the `(` position |
| Examples.StepCloseOne | solver.py:412-416 | `)` over one node pushes that node again at the `(` position |
| Examples.ParseConjunctionThenDisjunction | solver.py:367-433 | `a&b+c` parses to `DForm(-1, [CForm(0,[a,b]), c])`, where several nodes at the end become one disjunction at -1 |
| Examples.ParseNested | solver.py:367-433 | `a&(b+!(c&d))` parses to the expected tree |
| Examples.ParseNegated | solver.py:367-433 | `a&!(!b+!c)` parses to the expected tree |
| Examples.ParseDoubleNegation | solver.py:383-388 | `!!a` parses to the variable itself, moved to the first `!` |
| Examples.ParseUnclosedBracket | solver.py:429-433 | `(a` parses to `a`, and the unclosed bracket is ignored |
| Examples.ParseUnmatchedClose | solver.py:403-405 | `a)` fails with an unmatched `)` |
| Examples.ParseContradiction | solver.py:367-433 | `a&!a` parses to a two-child conjunction |
| Findings.NestedDisjunctionUnsound | solver.py:265-322 | the as-written DNF of `a&(b+!(c&d))` exists but is false under `{a, d}`, where the formula is true |
| Findings.ConjunctiveRightFails | solver.py:322-354 | the as-written DNF of `a&!(!b+!c)` fails at the sort key |
| Findings.ContradictionFinding | solver.py:356 | the as-written DNF of `a&!a` fails because the term list is empty |
| Findings.PairOrderSensitive | solver.py:328-349 | the pair step depends on the order of the left literals: `!e` against `a&e&!e` drops the term, and against `a&!e&e` keeps it unchanged, so the order `list(set(...))` leaves decides the as-written result |
| Findings.OrderInner | solver.py:187-206 | with first-occurrence duplicate removal, `!(!e&e)` converts to `e+!e` |
| Findings.OrderDependentFailure | solver.py:313-356 | on `a&(!a+!(!e&e))&!e` the as-written `toDNF`, with children in first-occurrence order, drops every term and fails with `NoTerms` |
| Findings.ContradictionNoTerms | solver.py:356 | every `x&!x` fails the same way as written, and the corrected conversion gives the empty disjunction |
| CorrectedForms.UnplacedEval | solver.py:115-120 | dropping positions (the equality key) keeps the meaning |
| CorrectedForms.DedupKeepsTruth | solver.py:265-268 | duplicate removal keeps only input nodes and keeps both the disjunction's and the conjunction's truth value |
| CorrectedForms.Dnf | solver.py:132-356 | computes the corrected `toDNF`: children of a disjunction flattened, the right term split into conjuncts, an all-clash conjunction giving the empty disjunction, duplicates removed by structure (no contract of its own; see `DnfCorrect`, `DnfLimit`) |
| CorrectedForms.DnfAll | solver.py:267 | computes the corrected children of a disjunction, each converted, in order (no contract of its own; see `DnfAllCorrect`) |
| CorrectedForms.NegatedDnfs | solver.py:199-206 | computes each child negated at its own position and converted (no contract of its own; see `NegatedDnfsCorrect`) |
| CorrectedForms.DnfTerms | solver.py:94-96 | computes the terms of a converted node: a disjunction's children, including none for the empty disjunction, otherwise the node itself (no contract of its own; see `DnfTermsCorrect`) |
| CorrectedForms.Distribute | solver.py:315-355 | computes the corrected loop over the further children of a conjunction (no contract of its own; see `DistributeCorrect`) |
| CorrectedForms.CrossRight | solver.py:319-354 | computes the corrected inner loop, whose right term is split into its conjuncts (no contract of its own; see `CrossRightCorrect`) |
| CorrectedForms.Cross | solver.py:317-355 | computes the corrected `interm` over all right terms (no contract of its own; see `CrossCorrect`) |
| CorrectedForms.Cnf | solver.py:135-361 | computes the corrected `toCNF`: as written, except that a conjunction's converted children are flattened and deduplicated by structure (no contract of its own; see `CnfCorrect`, `CnfLimit`) |
| CorrectedForms.CnfAll | solver.py:360 | computes the corrected children of a conjunction, each converted, in order (no contract of its own; see `CnfAllCorrect`) |
| CorrectedForms.NegatedCnfs | solver.py:225-232 | computes each child negated at its own position and converted to CNF (no contract of its own; see `NegatedCnfsCorrect`) |
| CorrectedForms.CrossRightCorrect | solver.py:318-354 | the corrected pair loop gives terms that are true exactly when some left term and the right term are |
| CorrectedForms.CrossCorrect | solver.py:318-355 | the corrected cross of two DNFs means their conjunction |
| CorrectedForms.DistributeCorrect | solver.py:313-355 | the corrected distribution over all later children means the conjunction |
| CorrectedForms.DisjunctionCorrect | solver.py:265-268 | the flattened, deduplicated disjunction of child DNFs is a DNF with the disjunction's meaning |
| CorrectedForms.DnfCorrect | solver.py:132-356 | the corrected `toDNF` either gives a DNF with the same meaning or fails with a residual error: the recursion limit, or `NoChildren` on a conjunction without children (`DnfLimit` excludes the second on non-vacuous trees) |
| CorrectedForms.NegationCorrect | solver.py:187-211 | De Morgan in the corrected conversion keeps the meaning |
| CorrectedForms.ConjunctionCorrect | solver.py:313-356 | a conjunction converts to a DNF with its meaning, including the empty disjunction when every term clashes |
| CorrectedForms.DnfAllCorrect | solver.py:267 | each child converts to a DNF with its meaning |
| CorrectedForms.NegatedDnfsCorrect | solver.py:199-206 | each negated child converts to a DNF meaning its negation |
| CorrectedForms.CnfCorrect | solver.py:135-361 | the corrected `toCNF` either gives a CNF with the same meaning or fails with a residual error: the recursion limit, or `NoChildren`, which comes only from the empty conjunction that De Morgan makes of a disjunction without children inside a conversion (an input conjunction without children converts to itself); `CnfLimit` excludes it on non-vacuous trees |
| CorrectedForms.CnfDisjunctionCorrect | solver.py:270-283 | a disjunction that is not a clause goes through double De Morgan to a CNF with its meaning |
| CorrectedForms.ConjunctionCnfCorrect | solver.py:358-361 | the flattened, deduplicated conjunction of child CNFs is a CNF with the conjunction's meaning |
| CorrectedForms.CnfNegationCorrect | solver.py:213-237 | De Morgan in the corrected CNF conversion keeps the meaning |
| CorrectedForms.CnfAllCorrect | solver.py:360 | each child converts to a CNF with its meaning |
| CorrectedForms.NegatedCnfsCorrect | solver.py:225-232 | each negated child converts to a CNF meaning its negation |
| CorrectedForms.WellFormedNonvacuous | solver.py:393-433 | a tree `parse` can give has no conjunction or disjunction without children, so it is non-vacuous asserted and denied |
| CorrectedForms.DnfLimit | solver.py:132-356 | on a tree with no conjunction without children under an even number of negations and no disjunction without children under an odd number, the corrected `toDNF` fails only at the recursion limit |
| CorrectedForms.NegationLimit | solver.py:187-206 | De Morgan on a non-vacuous denied node fails only at the recursion limit |
| CorrectedForms.ConjunctionLimit | solver.py:313-356 | a non-empty asserted conjunction of non-vacuous children converts or fails only at the recursion limit |
| CorrectedForms.DnfAllLimit | solver.py:267 | converting non-vacuous children fails only at the recursion limit |
| CorrectedForms.NegatedDnfsLimit | solver.py:199-206 | converting the negations of children that are non-vacuous when denied fails only at the recursion limit |
| CorrectedForms.DnfTermsLimit | solver.py:94-96 | taking the terms of a non-vacuous node fails only at the recursion limit |
| CorrectedForms.DistributeLimit | solver.py:315-355 | distributing terms over non-vacuous further children fails only at the recursion limit |
| CorrectedForms.CnfLimit | solver.py:135-361 | on a tree with no disjunction without children under an even number of negations and no conjunction without children under an odd number, the corrected `toCNF` fails only at the recursion limit, and its result has the same property |
| CorrectedForms.CnfConjunctionLimit | solver.py:358-361 | a conjunction of children that are non-vacuous when denied converts or fails only at the recursion limit |
| CorrectedForms.CnfDisjunctionLimit | solver.py:270-283 | a disjunction that is not a clause goes through `toDNF` of its negation and back, failing only at the recursion limit |
| CorrectedForms.CnfNegationLimit | solver.py:213-232 | De Morgan in the corrected `toCNF` fails only at the recursion limit on a non-vacuous operand |
| CorrectedForms.CnfAllLimit | solver.py:360 | converting children that are non-vacuous when denied fails only at the recursion limit, and the results are again non-vacuous when denied |
| CorrectedForms.NegatedCnfsLimit | solver.py:225-232 | converting the negations of non-vacuous children fails only at the recursion limit, one result per child, each non-vacuous when denied |
| CorrectedForms.ParsedConvertsUpToLimit | solver.py:132-361 | on a tree `parse` can give, both corrected conversions fail only at the recursion limit |
| CorrectedForms.EmptyConjunctionFails | solver.py:313-314 | the residual `NoChildren` does occur: an empty conjunction fails in `toDNF`, and `toCNF` fails on the disjunction of a variable and an empty disjunction |

## Left out

- `toDNF`/`toCNF` and `normalizePartial` (`NormalForms`, `CorrectedForms`) take a `depth` budget, and `RecursionLimit` stands for Python's recursion limit. Termination on every tree is not proved, because the conversions recurse on trees they have just built.
- Terms.Dedup, NormalForms.ToDnf, NormalForms.ToCnf: duplicate removal through `list(set(...))` (solver.py:263, 267, 311, 360) keeps the first node of each equality class, in order of first occurrence. Python's hash order and its choice of representative are not modelled. That order matters to the as-written conversions, not only to the order of the result. The pair loop stops at the first left literal that shares the right literal's variable (solver.py:329-343), so the order of a term's literals decides whether the term is dropped or kept (`Findings.PairOrderSensitive`). On `a&(!a+!(!e&e))&!e`, the inner disjunction comes out as `e+!e` in the model (`Findings.OrderInner`). The term `a&e&!e` built from it is then dropped against the last `!e`, every term clashes, and `ToDnf` fails with `NoTerms`, the `dnf[0]` crash at solver.py:356 (`Findings.OrderDependentFailure`). If the set gives `!e+e` instead, which depends on the interpreter's string hashes, the term is `a&!e&e`, the pair step skips `!e`, and the source returns `a&!e&e`. So on such inputs the terms of the as-written result, and whether it fails with `NoTerms`, can differ from the source's; `ToCnf` inherits this through `toDNF` of the negation (solver.py:282). The corrected conversions do not depend on the order: their contracts are about meaning and shape.
- The source's `__hash__` methods (solver.py:87-89, 114-115) are modelled only through the keys that equality compares.
- The source mutates trees in place: `toDNF`/`toCNF` reassign `childNodes` (solver.py:267, 360), and `parse`/`pushNode` move a node to a new position (solver.py:388, 415). The model returns fresh values instead, so aliasing of shared subtrees is not captured.
- `output`/`outputChildren` (solver.py:105-112, 146-148, 178-179) are debug formatting. `example.py` is a printing driver. Neither is modelled.
- The `simplify` stubs (solver.py:125-126, 150-151, 181-182, 255-256, 300-301) are not modelled. Nor are the `T_NEG` branches at solver.py:207-208 and 233-234, which cannot be reached.
- The `positive=False` branches (solver.py:209-211, 235-237) are modelled as written, with no meaning-preservation lemma. No caller passes `False`. `CorrectedForms` covers the positive conversion only.
- Crashes become distinct error tags rather than Python exceptions: `IndexError` at solver.py:380, 405, 415 and 433; `AttributeError` at 354; `IndexError` at 314 and 356. An uncaught exception is not modelled beyond its tag.
- Any character other than `()&!+` becomes a variable, as in the code (solver.py:423-426). The parser does not reject unexpected characters.
- Solver.Solve: requires every conjunction in the tree to have a child. `childNodes[0]` (solver.py:305) crashes otherwise. Trees from `parse` always meet this (`Ast.WellFormedConjunctionsNonEmpty`, `Parser.ParseWellFormed`).
- Solver.SolveCorrect: soundness and completeness are proved only where every disjunction and conjunction sits under an even number of negations. Elsewhere the source is wrong (see Findings).
- NormalForms.LiteralsUnchanged, NormalForms.ClauseUnchanged: these need a non-zero depth budget.
- Terms.PairTermClean: the "no `x` with `!x`, no repeated literal, sorted" property is proved for one right literal. That is the case of a correct DNF on the right. For several right literals (the nested-disjunction defect) a repeat inside the right list is not excluded.
- CorrectedForms.DnfCorrect, CorrectedForms.CnfCorrect: the failure they allow is the recursion limit or `NoChildren`. `NoChildren` needs a conjunction without children, or a disjunction without children that De Morgan turns into one (`EmptyConjunctionFails`); `DnfLimit`, `CnfLimit` and `ParsedConvertsUpToLimit` exclude it on every other tree, including every tree `parse` gives.
- Solutions.Solution.ContradictsWith, Solutions.Solution.Combine: they require `another` to be at least as long as `self`. The source raises `IndexError` otherwise (solver.py:64, 77). `solve` only pairs solutions built over one variable list, which have equal lengths.
- Token positions are kept in the tree, but only the parser's adjacency test reads them.
- There is no round-trip lemma between rendering and parsing. `!` over a conjunction renders without brackets, so a rendering does not always parse back to the same tree.

## Findings

| source | as written | input that shows it | evidently intended | confidence | as-written member | corrected member |
|---|---|---|---|---|---|---|
| solver.py:184-185, 258-263, 303-311 | a negation only flips the polarity. Disjunctions still take the union and conjunctions still take the combines | `!(a+b)` over `ab` gives `fa`, and `!(a&b)` gives only `ff` | under negative polarity a disjunction should conjoin and a conjunction should union | not executed | Solver.SolveNegatedDisjunctionUnsound, Solver.SolveNegatedConjunctionIncomplete | Solver.SolveDual (Solver.SolveDualCorrect) |
| solver.py:265-268, 322 | `_DForm.toDNF` does not flatten child disjunctions. `:322` then splits a right-hand disjunction into literals that are conjoined | `a&(b+!(c&d))`: the DNF is false under `{a, d}`, where the formula is true | flatten the disjunction; each right term is a conjunction of literals | not executed | Findings.NestedDisjunctionUnsound | CorrectedForms.Dnf (CorrectedForms.DnfCorrect) |
| solver.py:322, 353-354 | a conjunctive right term is kept whole as one "literal" | `a&!(!b+!c)`: the sort key reads `.negated` of a conjunction and fails | `:322` should take the children of a conjunction | not executed | Findings.ConjunctiveRightFails | CorrectedForms.Dnf (CorrectedForms.DnfCorrect) |
| solver.py:356 | `dnf[0]` on an empty term list | `a&!a`: every pair clashes and the term list is empty | an unsatisfiable conjunction is the empty disjunction | not executed | Findings.ContradictionFinding | CorrectedForms.Dnf (Findings.ContradictionNoTerms) |
