# dpll-sat in Dafny

A model of the core of dpll-sat, a small SAT solver, with proofs about the model. The solver:

1. parses a propositional formula written with `!`, `&`, `|`, `->`, `<->` and parentheses;
2. takes it to conjunctive normal form by the Tseitin transformation, or reads it directly as a CNF when it already has that shape;
3. searches for a satisfying assignment with a DPLL loop: unit propagation, then a decision, then chronological backtracking.

The model follows the program's files, one module per file:

| module | file | models |
|---|---|---|
| `Wrappers` | `wrappers.dfy` | the `Option` type |
| `Text` | `text.dfy` | decimal printing of numbers and the byte order of `std::string` |
| `VarTables` | `vartable.dfy` | the variable tables `Vmap` and `Rmap`, and `is_var_char` |
| `Formulas` | `formula.dfy` | the formula tree of `formula.h`, its printer and `find_error` |
| `Parser` | `parser.dfy` | `parse_var` and `parse_formula` of `src/parser.cpp` |
| `Cnf` | `cnf.dfy` | literals, clauses and CNFs of `src/cnf.h`, their printers and `merge_cnf` |
| `Tseitin` | `tseitin.dfy` | `src/tseitin.cpp`: Tseitin units, the unit set, the clause templates, `gen_tu`, `tseitin_transform` and `parse_into_cnf` |
| `Dpll` | `dpll.dfy` | `src/dpll.cpp`: the interpretation, clause and CNF evaluation, unit propagation, the decision stack, `dpll_main` and `dpll_sat` |
| `Pipeline` | `pipeline.dfy` | the hand-over in `src/main.cpp` of the parse result to `tseitin_transform` |

**Parser.**
- The loop of `parse_formula` is modelled in two forms:
  - a specification, the functions `Step` and `Run`;
  - the imperative method `ParseFormula`, proved equal to that specification.
- The slot pointers of the record stack (`record::loc`) become paths from the root of the tree to a null child (`Hole`).
- The stack invariant of the source's assertions is the predicate `Inv`.
- Proved properties:
  - printing a parsed formula and parsing the print gives the same tree back, with its variable ids renumbered in order of first appearance;
  - binary connectives without parentheses nest to the left;
  - every error the loop can report appears at its offset.

**Tseitin.** The sorted `std::set` of units is a sequence ordered by the units' printed keys. The proofs cover:
- the meaning of each clause template;
- what `gen_tu` generates;
- the soundness, completeness and equisatisfiability of `tseitin_transform` for formulas without `<->`;
- a formula with `<->` whose transform states more than the formula.

**DPLL.**
- The interpretation is a class with a sequence of values.
- A decision frame is a value kept in a sequence, the way the source's `std::vector<dpll_decision>` holds them.
- Proved properties of the search:
  - each step keeps a stack invariant;
  - a measure over the flip flags grows at each step, so the search ends;
  - a `sat` answer means that propagation and decision have nothing left to do.

Intentionally the model keeps two behaviours of the source as written. The first is how the search answers (see "Left out"). The second is the `<->` template of the Tseitin pass.

## Model

| member | source | states |
|---|---|---|
| Text.Decimal | src/cnf.h:16-20 | the decimal text of a variable number is non-empty and made of digits, with at least two digits from 10 up |
| Text.DecimalRoundTrip | src/cnf.h:16-20 | reading the decimal text back gives the number |
| Text.DecimalInjective | src/tseitin.cpp:44-51 | different variable numbers print differently, so unit keys can tell variables apart |
| Text.LessIrreflexive | src/tseitin.cpp:54-58 | the string order that `tseitin_unit_compare` uses is irreflexive |
| Text.LessTransitive | src/tseitin.cpp:54-58 | the string order is transitive |
| Text.LessTrichotomy | src/tseitin.cpp:54-58 | any two keys are ordered one way or are equal |
| Text.LessAsymmetric | src/tseitin.cpp:54-58 | the string order is asymmetric, so it is a strict weak order fit for `std::set` |
| VarTables.IsVarChar | src/parser.cpp:20-24 | a variable character is never a connective, a parenthesis, `;`, a space or the terminator |
| VarTables.EmptyValid | src/parser.cpp:47-48 | the fresh tables are consistent: `Vmap` and `Rmap` are inverse to each other |
| VarTables.VarTable.constructor | src/parser.cpp:47-48 | the tables start empty |
| VarTables.Interned | src/parser.cpp:34-42 | a known name keeps its id and leaves the tables unchanged; a new name gets the next id and is appended to `Rmap`; the tables stay inverse and only grow |
| VarTables.VarTable.Intern | src/parser.cpp:35-42 | the in-place table update does what `Interned` describes |
| Formulas.PrintShape | formula.h:52-111 | a print is non-empty, made of token characters, and its first character tells the kind of node |
| Formulas.CompoundPrintIsNotName | src/tseitin.cpp:67-70 | the print of a compound node is never a variable name, so its `Vmap` key never clashes with a parsed variable |
| Formulas.UniqueReadability | formula.h:92-111 | a print followed by text that does not continue a token splits in only one way |
| Formulas.PrintInjective | formula.h:92-111 | two formulas with the same print are the same tree, up to variable ids |
| Formulas.FindError | formula.h:39-138 | the result is the leftmost `Invalid` node of the tree, or none when there is no such node |
| Parser.ReplaceAt | src/parser.cpp:76 | writing through a slot puts the new subtree exactly at that slot |
| Parser.PopQuick | src/parser.cpp:96-99 | only quick records at or above the depth are popped, and the new top is not such a record |
| Parser.CleanupShape | src/parser.cpp:96-100 | after an operand, the clean-up leaves a stack of the shape the next connective needs |
| Parser.CleanupAfterOperand | src/parser.cpp:95-100 | the clean-up after an operand keeps the stack invariant |
| Parser.CleanupAfterClose | src/parser.cpp:112-118 | the clean-up after `)` keeps the stack invariant one level down |
| Parser.NegatePreserves | src/parser.cpp:71-79 | reading `!` keeps the parser invariant |
| Parser.OperandPreserves | src/parser.cpp:87-104 | reading a variable keeps the parser invariant |
| Parser.ClosePreserves | src/parser.cpp:108-118 | reading `)` inside parentheses keeps the invariant |
| Parser.WrapPreserves | src/parser.cpp:146-151 | wrapping the current subtree in a binary node keeps the invariant |
| Parser.StepPreserves | src/parser.cpp:61-156 | one pass of the loop either advances with the invariant kept or fails at an offset within the input, with an expected character `e`, `(`, `c`, `-` or `>` |
| Parser.ExpressionPreserves | src/parser.cpp:68-105 | the same, for a pass where an expression is expected; its only error is `e` |
| Parser.ScanConnective | src/parser.cpp:120-143 | a recognised connective is exactly the input's text at that point; a bad one is reported within two characters with `c`, `-` or `>` |
| Parser.ScanRecognises | src/parser.cpp:120-143 | every connective symbol in the input is recognised, ending where its symbol ends |
| Parser.RunOutcome | src/parser.cpp:61-160 | the loop ends in a tree well formed for its tables with at most one null slot, or in an error within the input; a missing `)` is reported at the end of the input |
| Parser.Parse | src/parser.cpp:46-161 | a parse gives a well-formed tree and consistent tables, or an error offset within the input |
| Parser.MoveBackUp | src/parser.cpp:112-118 | the pop loop computes the clean-up of the stack |
| Parser.ParseVar | src/parser.cpp:27-44 | the token ends at the first non-variable character, and the tables are updated as `Interned` says |
| Parser.RunUnfold | src/parser.cpp:61-66 | a failing pass decides the whole parse's error |
| Parser.SkipSpace | src/parser.cpp:61-66 | a space is skipped with nothing else changed |
| Parser.RunAtEnd | src/parser.cpp:158-160 | at the end of the input the parse is the tree so far, or a missing `)` when parentheses are open |
| Parser.ExpressionError | src/parser.cpp:83-85 | a character that cannot start an expression, where one is expected, is the parse's error `e` at its offset |
| Parser.ConnectiveError | src/parser.cpp:106-143 | where a connective is expected: a stray character is error `c`; `<` without `-` and `-` or `<-` without `>` give errors at the missing character; an unmatched `)` gives error `(` one character before it |
| Parser.ExpressionToken | src/parser.cpp:68-105 | the imperative pass for an expression token makes the same step as the specification, and keeps the tables in step |
| Parser.ConnectiveToken | src/parser.cpp:106-153 | the same, for a connective token or `)` |
| Parser.ParseFormula | src/parser.cpp:46-161 | the imperative parser returns the specified parse and the tables it built |
| Parser.Renumber | src/parser.cpp:34-42 | numbering a tree's variables in order of appearance keeps its shape and its print, and only grows the tables |
| Parser.RenumberWellFormed | src/parser.cpp:34-42 | the renumbered tree is well formed for the new tables |
| Parser.ParsePrint | src/parser.cpp:46-161 | parsing the print of a parsed formula gives the same tree, with ids in order of appearance |
| Parser.ParseLeftAssociative | src/parser.cpp:120-151 | operands joined by connectives without parentheses parse as the left-nested tree |
| Parser.ParseEmpty | src/parser.cpp:158-160 | the empty input parses to a null tree with empty tables |
| Parser.ParseTrailingConnective | src/parser.cpp:144-160 | input that ends after a connective parses to a binary node with a null right child |
| Parser.ParseUnopened | src/parser.cpp:108-110 | `a)` is error `(` at offset 0 |
| Parser.ParseUnclosed | src/parser.cpp:158 | `(a` is error `)` at offset 2 |
| Parser.ParseBrokenConnective | src/parser.cpp:128-131 | `a<-b` is error `>` at offset 3 |
| Parser.ParseMissingConnective | src/parser.cpp:141-142 | `a b` is error `c` at offset 2 |
| Cnf.LiteralTextShape | src/cnf.h:16-20 | a literal prints as its number, with a leading `!` exactly when it is negative |
| Cnf.LiteralTextInjective | src/cnf.h:16-20 | different literals print differently |
| Cnf.ClauseText | src/cnf.h:29-44 | a clause prints between parentheses, and only the empty clause prints as `()` |
| Cnf.ClauseTextInjective | src/cnf.h:29-44 | different clauses print differently |
| Cnf.CnfText | src/cnf.h:52-64 | only the empty CNF prints as the empty text |
| Cnf.CnfTextInjective | src/cnf.h:52-64 | different CNFs print differently |
| Cnf.CnfSatAppend | src/cnf.cpp:6-13 | the two CNFs joined are satisfied exactly when both are |
| Cnf.ClauseSatAppend | src/tseitin.cpp:241 | two clauses joined into one are satisfied exactly when either is |
| Cnf.CNF.constructor | src/cnf.h:51 | a CNF object holds the given clauses |
| Cnf.MergeCnf | src/cnf.cpp:6-13 | A gets B's clauses appended in order and is returned |
| Tseitin.Flip | src/tseitin.cpp:20-24 | flipping swaps the positive and negative literal |
| Tseitin.FlipInvolution | src/tseitin.cpp:20-24 | flipping twice gives the pair back |
| Tseitin.FlipValue | src/tseitin.cpp:20-24 | a flipped pair stands for the negated value |
| Tseitin.UnitKeyInjective | src/tseitin.cpp:44-51 | units with equal keys agree on their three variables' literals and on the connective |
| Tseitin.InsertUnitKeys | src/tseitin.cpp:54-58 | inserting a unit adds exactly its key to the set's keys |
| Tseitin.InsertUnitSorted | src/tseitin.cpp:54-58 | insertion keeps the units in strictly increasing key order |
| Tseitin.InsertUnitContents | src/tseitin.cpp:54-58 | a unit with a key already present changes nothing; otherwise it is added and nothing is lost |
| Tseitin.UnitSet.constructor | src/tseitin.cpp:292 | the unit set starts empty |
| Tseitin.UnitSet.Emplace | src/tseitin.cpp:168-181 | `emplace` performs the set insertion and keeps the order |
| Tseitin.LandMeaning | src/tseitin.cpp:85-109 | the `land` clauses hold exactly when C equals A and B |
| Tseitin.LorMeaning | src/tseitin.cpp:111-117 | the `lor` clauses hold exactly when C equals A or B |
| Tseitin.LnotMeaning | src/tseitin.cpp:119-133 | the `lnot` clauses hold exactly when C is the negation of A |
| Tseitin.LequivMeaning | src/tseitin.cpp:135-159 | the `lequiv` clauses hold exactly when A, B and C are all equal |
| Tseitin.LequivIsNotIff | src/tseitin.cpp:135-159 | a valuation satisfies the `lequiv` clauses although C differs from "A iff B" |
| Tseitin.TuToCnfMeaning | src/tseitin.cpp:188-209 | a unit's clauses hold exactly when the unit's meaning holds |
| Tseitin.UnitsCnfMeaning | src/tseitin.cpp:211-219 | the clauses of a whole unit set hold exactly when every unit's meaning holds |
| Tseitin.TuSetToCnf | src/tseitin.cpp:211-219 | the CNF built is a fresh object holding the units' clauses in set order |
| Tseitin.TidyKey | src/tseitin.cpp:37-42 | two units that `gen_tu` can build and that share a key are the same unit |
| Tseitin.InsertUnitMembers | src/tseitin.cpp:37-42 | for such units, insertion adds exactly the new unit |
| Tseitin.Lookup | src/tseitin.cpp:61-83 | a variable gets its own pair; a compound node gets the id stored under its print, or a new id appended to `Rmap` |
| Tseitin.LookupStable | src/tseitin.cpp:61-83 | a second lookup of the same node gives the same pair and changes nothing |
| Tseitin.LookupShared | src/tseitin.cpp:61-83 | two nodes share a pair exactly when they print alike |
| Tseitin.GenUnits | src/tseitin.cpp:162-186 | generation names every node, keeps the old units, adds the unit of every compound node and nothing else |
| Tseitin.GenSorted | src/tseitin.cpp:162-186 | generation keeps the unit set in key order |
| Tseitin.Compiler.constructor | src/tseitin.cpp:277-286 | `tseitin_init` builds the pair of every id in the tables |
| Tseitin.Compiler.FindOrAssignVar | src/tseitin.cpp:61-83 | the in-place lookup does what `Lookup` describes |
| Tseitin.Compiler.GenTu | src/tseitin.cpp:162-186 | the in-place generation does what `GenSpec` describes |
| Tseitin.Compiler.Transform | src/tseitin.cpp:288-309 | the CNF is a fresh object with the units' clauses and then the root's unit clause |
| Tseitin.UnitsRootMeaning | src/tseitin.cpp:300-306 | the transform's clauses hold exactly when every unit holds and the root's literal is true |
| Tseitin.TransformSound | src/tseitin.cpp:288-309 | for a formula without `<->`: a valuation satisfying the transform satisfies the formula |
| Tseitin.TransformComplete | src/tseitin.cpp:288-309 | for a formula without `<->`: a satisfying valuation extends to one satisfying the transform |
| Tseitin.TransformEquisatisfiable | src/tseitin.cpp:288-309 | for a formula without `<->`, formula and transform are satisfiable together |
| Tseitin.EquivExampleUnsatisfiable | src/tseitin.cpp:135-159 | `(!(a<->b))&a` is satisfiable, but its transform is not |
| Tseitin.TransformVariable | src/tseitin.cpp:303-306 | a lone variable transforms to the single unit clause of its positive literal |
| Tseitin.ParseIntoLiteralSpec | src/tseitin.cpp:222-232 | a literal is read exactly from a variable under negations, and it carries the formula's value |
| Tseitin.ParseIntoClauseSpec | src/tseitin.cpp:234-249 | a clause is read exactly from a disjunction of literals, and it carries the formula's value |
| Tseitin.ParseIntoCnfSpec | src/tseitin.cpp:252-274 | a CNF is read exactly from a conjunction of clauses, and it carries the formula's value |
| Dpll.Of | src/dpll.cpp:53 | a Boolean becomes `vtrue` or `vfalse`, never `vundef` |
| Dpll.LitInterp | src/dpll.cpp:38-47 | a literal is undefined exactly when its variable is; it is true exactly when its variable has the literal's polarity |
| Dpll.LitInterpAgrees | src/dpll.cpp:38-47 | a defined literal value is the value under any valuation that agrees with the interpretation |
| Dpll.InterpretClauseSpec | src/dpll.cpp:174-191 | `cfalse` exactly when every literal is false; `cunit` exactly when one is undefined and none is true; `ctrue` at a true literal before a second undefined one; `cundef` otherwise; the reported literal is the first undefined one |
| Dpll.InterpretClauseOrderSensitive | src/dpll.cpp:180-185 | the same literals in another order can change `cundef` into `ctrue` |
| Dpll.ClauseTrueHolds | src/dpll.cpp:174-191 | a `ctrue` clause is satisfied by every agreeing valuation |
| Dpll.ClauseFalseFails | src/dpll.cpp:174-191 | a `cfalse` clause is satisfied by no agreeing valuation |
| Dpll.UnitForced | src/dpll.cpp:174-191 | an agreeing valuation that satisfies a `cunit` clause makes its undefined literal true |
| Dpll.InterpretCnfSpec | src/dpll.cpp:193-209 | `vfalse` exactly when some clause is `cfalse`, reporting the first; `vtrue` exactly when every clause is `ctrue` |
| Dpll.CnfFalseFails | src/dpll.cpp:193-209 | a `vfalse` CNF is satisfied by no agreeing valuation |
| Dpll.CnfTrueHolds | src/dpll.cpp:193-209 | a `vtrue` CNF is satisfied by every agreeing valuation |
| Dpll.FindUnitClauseSpec | src/dpll.cpp:211-218 | the result is the first `cunit` clause and its unassigned literal, or none when there is none |
| Dpll.DecideSpec | src/dpll.cpp:258-266 | the decision is the first undefined literal of the first `cundef` clause, or none when there is none |
| Dpll.DecideUnassigned | src/dpll.cpp:258-266 | a decided variable is unassigned |
| Dpll.Interp.constructor | src/dpll.cpp:31-36 | a new interpretation has `size` variables, all `vundef` |
| Dpll.Interp.Update | src/dpll.cpp:49-51 | only the given variable changes |
| Dpll.Interp.Assign | src/dpll.cpp:52-54 | only the given variable changes, to the Boolean's value |
| Dpll.Decision.AddPropagation | src/dpll.cpp:92-94 | the propagation is recorded unless its variable is already there; the decision fields are kept |
| Dpll.Decision.FlipDecision | src/dpll.cpp:96-100 | the decided value is negated, the frame is marked flipped and its propagations are dropped |
| Dpll.PropagationGrows | src/dpll.cpp:223-254 | a conflict leaves interpretation and frame as they were; success only assigns unassigned variables and leaves no `cunit` clause |
| Dpll.PropagationRecords | src/dpll.cpp:223-254 | on success, the frame records exactly the variables propagation assigned |
| Dpll.PropagationSound | src/dpll.cpp:223-254 | a conflict means no valuation agreeing with the start satisfies the CNF; success keeps every satisfying agreeing valuation agreeing |
| Dpll.UnitPropagateAll | src/dpll.cpp:223-254 | the in-place propagation does what the propagation specification describes |
| Dpll.Backtrack | src/dpll.cpp:302-326 | success exactly when a frame above the sentinel is unflipped; the flipped frames above it are popped and their variables unassigned; the last unflipped frame is flipped and reassigned; on failure only the sentinel is left |
| Dpll.BacktrackedStack | src/dpll.cpp:306-319 | backtracking keeps the stack invariant and makes the termination measure grow |
| Dpll.PropagatedStack | src/dpll.cpp:300 | propagation keeps the stack invariant and the flip flags |
| Dpll.DecidedStack | src/dpll.cpp:334-335 | a decision keeps the stack invariant and makes the termination measure grow |
| Dpll.Completion | src/dpll.cpp:269-286 | the assignment has one entry per variable |
| Dpll.CompletionAgrees | src/dpll.cpp:269-286 | assigned variables keep their value and unassigned ones become true |
| Dpll.SatInterpToAssignment | src/dpll.cpp:269-286 | the completed interpretation is appended to the result |
| Dpll.SettledVerdict | src/dpll.cpp:329-339 | when nothing is left to propagate or decide, the CNF is `vtrue` or `vfalse`; the completed assignment satisfies it exactly when it is `vtrue`; `vfalse` means no agreeing valuation satisfies it |
| Dpll.DpllMain | src/dpll.cpp:288-340 | the search ends; `sat` means nothing is left to propagate or decide |
| Dpll.DpllSat | src/dpll.cpp:342-357 | `unsat` leaves the result alone; `sat` appends the completion of a settled interpretation |
| Dpll.EmptyClauseSettled | src/dpll.cpp:298-339 | the CNF made of the empty clause alone, with no variables, is settled although `interpret_cnf` calls it `vfalse` |
| Dpll.DecisionFalsifiesSettled | src/dpll.cpp:298-339 | for the two clauses "not x or not x" and "x or x" no clause is unit, the decision sets x false, and the state after it is settled with the second clause false |
| Pipeline.WellFormedNamed | src/main.cpp:49 | a parsed tree with no null child is a finished tree whose variables the parser's tables name, which is what the Tseitin lemmas require |
| Pipeline.ParsedTransform | src/main.cpp:15-49 | a successful parse with no null child meets the transform's requirements, and without `<->` the transform is satisfiable exactly when the formula is |

## Left out

- Input and output are left out: the reading and printing in `src/main.cpp`, the logger of `src/dpll.cpp`, `print_vinterp`, `quick_print`, `print_rmap` and `print_assignment`, `print_tree`, and the `std::ostream` parameter of `dpll_sat`. They only write text.
- `tools/verifier.py` and the copies of `parser.cpp`, `tseitin.cpp`, `main.cpp` and `formula.cpp` at the top of the repository are left out. They are an external checker and older duplicates of the `src/` files.
- Memory management and pointer identity are left out:
  - literals, clauses and formula nodes are values, and the `new`/`delete` calls disappear;
  - sharing of `Literal` pointers between clauses is not modelled, since nothing writes through them after construction.
- Formulas.Print, Formulas.FindError, Tseitin.Lookup, Tseitin.GenSpec, Tseitin.TransformSpec, Tseitin.Compiler.FindOrAssignVar, Tseitin.Compiler.GenTu and Tseitin.Compiler.Transform: a tree with a null child (`Hole`) is outside their domain, because `Binary::print`, `find_error` and `gen_tu` dereference the child (formula.h:92-111 and 134-138, src/tseitin.cpp:162) and `src/main.cpp` passes the parse result on unchecked. The parser produces such a tree for an empty input or one that ends after a connective (`Parser.ParseEmpty`, `Parser.ParseTrailingConnective`); `Pipeline.ParsedTransform` covers every other successful parse.
- Reads past `end`, in the lookahead of the parser and in `parse_var`, are modelled as reading the terminator. The source relies on the string's NUL there.
- Cnf.MergeCnf: requires the two CNFs to be distinct objects. Merging a CNF into itself would read a vector while it grows, and no caller does this.
- Tseitin.Compiler.GenTu: the child pairs are looked up in left-to-right order. The unspecified evaluation order of the C++ arguments is fixed this way; the ids it gives may differ from one compiler's.
- Tseitin: a unary `tseitin_unit` is given the connective `And`. The source leaves `op` uninitialised there, and the value only enters the unit's key.
- Tseitin: `std::set` with `tseitin_unit_compare` is a sequence kept in strictly increasing key order, where insertion ignores an equal key.
- Tseitin.TransformSound: stated only for formulas without `<->`. The `lequiv` template encodes "A, B and C are all equal" rather than "C iff (A iff B)", so the transform of a formula with `<->` can be unsatisfiable when the formula is not (`Tseitin.EquivExampleUnsatisfiable`).
- Tseitin.TransformComplete: stated only for formulas without `<->`, for the same reason.
- Tseitin.TransformEquisatisfiable: stated only for formulas without `<->`, for the same reason.
- Tseitin.ParseIntoLiteralSpec: the source accepts any number of leading `!` on a literal and the model follows it.
- Dpll: a decision frame is a value in a sequence, as the source's `std::vector<dpll_decision>` stores frames by value. `std::set<dpll_propagation>` becomes a map from variable to value, where insertion ignores a variable already present.
- Dpll.DpllMain: makes no claim that `sat` means the CNF is satisfiable. The source re-checks for a false clause only after a propagation, so a CNF can be answered `sat` while one of its clauses is false: for instance the empty clause alone, or `(!x|!x) & (x|x)`, where the decision sets x false through the first clause and no unit clause follows (`Dpll.EmptyClauseSettled` and `Dpll.DecisionFalsifiesSettled` give the settled states; that the loop stops there is a hand trace). An empty clause next to a unit clause is caught, since the propagation of the unit clause re-checks the CNF. `Dpll.SettledVerdict` states what the settled state does give.
- Dpll.DpllMain: makes no claim that `unsat` means the CNF is unsatisfiable. Backtracking unassigns only decision variables, never the variables propagated under a popped frame. Those stale values can make the search answer `unsat` on a satisfiable CNF. A hand trace on the clauses `(a|c)`, `(!a|b)`, `(a|!b)`, `(!a|!c|d)`, `(!a|!c|!d)`, `(!a|c|d)` and `(!a|c|!d)`, which `a`=false, `b`=false, `c`=true satisfies, ends in `unsat`; this is not a proved lemma.
- Dpll.DpllSat: inherits both limits of `Dpll.DpllMain`.
- Dpll: variable numbers are unbounded naturals rather than `int`, and there is no overflow.
