# SecVerilog, verified

SecVerilog is an Icarus Verilog front end that also checks information flow: every variable has a
security label, which may depend on the values of other variables, and a predicate analysis tells
the label checker which facts hold where. This project models the parts of the tool with the most
to go wrong and proves properties of them:

- **The predicate analysis and the label checker.** `PExpr`, `ExprText`, `Statement`, `AbsInterp`,
  `CaseFacts`, `PredicateSets`, `SecTypes`, `Typecheck`, `Noninterference` and `Precision` model a small
  Verilog of expressions, blocks, branches, case statements and both kinds of assignment, with a
  big-step semantics. The analysis is sound over all runs, and case statements have an exact condition;
  the in-place set operations compute it; the translation of ternaries keeps their meaning; the
  must-modify analysis is exact. Labels are least bounds, and an assignment under a condition is
  accepted exactly when its flows are permitted where the condition holds. A process that passes the
  label checks, and brings nothing into view by its own assignments to names that labels depend on, does
  not interfere, within a cycle and over any number of cycles; the checks alone are enough if no label
  depends on a value, and not in general.
- **Constant folding and synthesis.** `Verinum` and `VerinumArith` are four-valued vectors with their
  numeric value. `FoldBoolean`, `FoldCompare`, `FoldAdd`, `FoldAddInPlace`, `FoldShift`, `FoldConcat`,
  `FoldSelect` and `Clog2` are the folding loops, proved against what the operators mean, with the
  exact condition where folding does something else; `Netlist` is a netlist of nodes on which the
  synthesized forms are proved to carry the same vectors. `Selects` and `LvalConcat` are the index
  arithmetic that the tool writes independently for l-values, nets and parameters, and the two ways it
  splits a concatenation on the left of an assignment.
- **Three stateful pieces.** `Cprop` is constant propagation over muxes, run to a fixpoint;
  `ElabScope` is the check that bounds recursive module instantiation; `StringHeap` is the permanent
  string storage with its lossy cache.

## How to read it

Code that changes things in place is a method over classes, arrays or loop variables; it is proved
against a function or a predicate, and the lemmas are about that. `dafny verify dfyconfig.toml`
checks the whole project.

Values are two-valued numbers in the first part and vectors of 0, 1, x and z in the second.
`Wrap(a, p)` reduces a number modulo p; for 2^w it is the wrap-around of a w-bit register.

Where the code does not do what one would expect, the code is kept and a lemma says exactly when it
is right. These are:

- generating a hypothesis from an assignment ignores truncation (`AssignFactTrueExactlyWhenItFits`);
- restoring the hypotheses between case items has no effect, because assigning a `Predicate` copies
  nothing: labels leave hypotheses (`LabelFactsSoundExactly`, `CaseIsSoundExactlyWithoutLabels`), and
  so do bodies (`CaseSettlesExactly`, `TwoWayCase`, `CaseWithoutDefault`);
- weakening a conjunction inside a comparison is not an implication (`WeakeningInsideComparison`);
- a merge can lose a hypothesis that both sides have (`MergeKeepsCommonFactExactly`), which is harmless;
- a name inside a concatenation escapes the kill (`KillMissesComposites`);
- function calls are labelled at the bottom (`CallsAreNotTracked`);
- the check of an assignment does not ask which other labels it lowers (`AssignKeepsViewExactly`,
  `CheckedAssignmentCanLower`);
- == extends each operand by its own sign (`EqualitiesAgreeExactly`);
- a borrow, or a sign next to an unsigned operand, is lost between trimmed constants
  (`UnsizedFoldExactly`);
- the sign bits that are trimmed off a negative constant do not come back when it is shifted
  (`FoldedRightDividesExactly`, `UnsizedAgreeExactly`, `TrimmedShiftDiffers`);
- synthesis drops an undefined shift amount and turns a negative one round (`AgreeExactly`);
- synthesis of a select that overhangs both ends builds a concatenation of the wrong width
  (`MisfitNet`), gives x for an undefined base, which folding takes for 0 (`UndefinedBase`; both in
  `SynthesizeSelect`), and pads unknown bits with zeros (`SynthesizePadding`);
- an l-value select downwards from a vector with equal bounds starts too high (`LvalBase`);
- an l-value operand that gives no target is dereferenced (`ElaborateLval`, the predicate `Crashes`);
- the guessed value of a net with contradicting constant drivers is that of the last one
  (`GuessIsRightExactly`).

## Model

| member | source | states |
|---|---|---|
| PExpr.ContainsIsReading | tool/SecVerilog-1.0/SecVerilog/PExpr.cc:99-103 | On expressions of names, numbers, unary and binary operators, the test that kills hypotheses finds exactly the variables that are read. |
| PExpr.WellformedExactlyWhenWeakened | tool/SecVerilog-1.0/SecVerilog/PExpr.cc:105-169 | In both polarities the wellformedness test is true exactly when weakening gives an expression. |
| PExpr.WeakeningIsImplied | tool/SecVerilog-1.0/SecVerilog/PExpr.cc:121-135 | A condition that holds still holds after it has been weakened to the tracked names, whatever the unread operators mean. |
| PExpr.NegWeakeningIsImplied | tool/SecVerilog-1.0/SecVerilog/PExpr.cc:137-169 | A condition that fails still fails after the weakening that is meant for its negation. |
| PExpr.WeakeningInsideComparison | tool/SecVerilog-1.0/SecVerilog/PExpr.cc:121-135 | With a conjunction as a compared operand weakening is not an implication: (x && y) == n becomes x == n, which is implied in every state exactly when n is 2 or more, or n is 1 and x is one bit wide. |
| PExpr.WeakenedVocabulary | tool/SecVerilog-1.0/SecVerilog/PExpr.cc:121-169 | What is left of a condition without a negation speaks of tracked names only. |
| PExpr.WeakenedIsPlain | tool/SecVerilog-1.0/SecVerilog/PExpr.cc:498-515 | Every weakened condition is one on which the kill test is exact, provided what stands under a negation is. |
| PExpr.WeakeningKeepsExactly | tool/SecVerilog-1.0/SecVerilog/PExpr.cc:105-169 | In both polarities weakening leaves a condition as it is exactly when it is made of tracked names, numbers, ==, !=, <=, && and ||, and of anything under N. |
| PExpr.WeakeningDropsParts | tool/SecVerilog-1.0/SecVerilog/PExpr.cc:121-169 | Of a conjunction, however nested, weakening drops the conjuncts of which nothing is left, one by one and no others, in order; for the negation, the disjuncts. |
| ExprText.CanonKeepsText | tool/SecVerilog-1.0/SecVerilog/pform_dump.cc:195-345 | The one pair of expressions that print alike, an inequality and a negated equality, is all the normal form changes: it keeps the text. |
| ExprText.UniqueReading | tool/SecVerilog-1.0/SecVerilog/pform_dump.cc:195-345 | Printed texts can be read in one way only: equal texts, whatever follows them, come from expressions equal up to that pair. |
| ExprText.SameTextSameMeaning | tool/SecVerilog-1.0/SecVerilog/sectypes.h:235-245 | Hypotheses that the comparator takes for equal, by their text, hold in the same states. |
| ExprText.IntersectionInBoth | tool/SecVerilog-1.0/SecVerilog/absinterp.cc:96-101 | Whatever the order of the two ranges, everything the set intersection keeps is in both, up to its text. |
| ExprText.IntersectionOfSortedIsExact | tool/SecVerilog-1.0/SecVerilog/absinterp.cc:96-101 | On ranges sorted by the comparator the intersection loses nothing that is common. |
| Statement.TranslationPreservesMeaning | tool/SecVerilog-1.0/SecVerilog/PExpr.cc:458-481 | However deep the arms of a ternary nest, running the if-then-else tree made of it leaves the state that assigning its value leaves. |
| Statement.TranslationIsTernaryFree | tool/SecVerilog-1.0/SecVerilog/PExpr.cc:458-481 | The tree has only assignments to the same target, none with a ternary at the top of its right side. |
| Statement.CollectMustModify | tool/SecVerilog-1.0/SecVerilog/Statement.cc:77-213 | The traversal, which inserts into the caller's set and intersects two local sets at a branch, computes the recursive must-modify set. |
| Statement.MustModifyIsSound | tool/SecVerilog-1.0/SecVerilog/Statement.cc:77-213 | Every reported name is tracked, and every run of the statement assigns it. |
| Statement.RunsFollowPaths | tool/SecVerilog-1.0/SecVerilog/Statement.cc:129-213 | The names a run assigns are those of one of the statement's paths. |
| Statement.MustModifyIsExact | tool/SecVerilog-1.0/SecVerilog/Statement.cc:129-213 | Without case statements the reported names are precisely the tracked names that every path assigns. |
| Statement.CaseIsNotReported | tool/SecVerilog-1.0/SecVerilog/Statement.cc:100-213 | A case statement reports nothing, even if all its items, with the default, assign the name. |
| AbsInterp.InvalidatedExactly | tool/SecVerilog-1.0/SecVerilog/absinterp.cc:31-42 | A kill leaves exactly the hypotheses that do not match the name. |
| AbsInterp.KillIsSound | tool/SecVerilog-1.0/SecVerilog/absinterp.cc:31-56 | What is left after a kill is true after the assignment, whatever is assigned. |
| AbsInterp.AssignFactTrueExactlyWhenItFits | tool/SecVerilog-1.0/SecVerilog/absinterp.cc:52-60 | The hypothesis a blocking assignment generates is true after it, in every state, exactly when the source fits the width of the target: the code does not look at widths. |
| AbsInterp.AssignLeaves | tool/SecVerilog-1.0/SecVerilog/absinterp.cc:48-60 | From no hypotheses an assignment leaves one, target equals source, exactly if the target is tracked and the source is a number or a tracked name. |
| AbsInterp.BranchFactIsTrue | tool/SecVerilog-1.0/SecVerilog/absinterp.cc:81-91 | The hypothesis a branch adds is true in every state in which the branch is taken. |
| AbsInterp.EnteredUnder | tool/SecVerilog-1.0/SecVerilog/absinterp.cc:81-91 | A branch on a condition over tracked names is entered, from no hypotheses, under just that condition; the other branch under just its negation. |
| AbsInterp.MergeIsSound | tool/SecVerilog-1.0/SecVerilog/absinterp.cc:96-101 | Hypotheses true on one of the incoming paths are true after the merge. |
| AbsInterp.AnalysisIsSound | tool/SecVerilog-1.0/SecVerilog/typecheck.cc:609-824 | For any nesting of blocks, branches, case statements and assignments: from true hypotheses every run ends with all that are left true, and, if no case item is reached with what another one's body generated, finds true hypotheses at each assignment it reaches. Case statements may generate hypotheses in a lone default, where all ways through assign the same number, or where a later item's assignment kills them. |
| AbsInterp.SettledIsSound | tool/SecVerilog-1.0/SecVerilog/typecheck.cc:710-754 | When every value of the selector chooses an item that assigns the last item's number, the hypothesis that is left is true after every run. |
| AbsInterp.RunForgets | tool/SecVerilog-1.0/SecVerilog/typecheck.cc:710-754 | In a case statement whose items' hypotheses, those of labels included, are each killed by a later item's assignment, what is left is true after every run of any item, although hypotheses leak from item to item on the way. |
| AbsInterp.SkipForgets | tool/SecVerilog-1.0/SecVerilog/typecheck.cc:710-754 | The same when no item, or only an earlier one, is run: passing over items, hypotheses that may be false are forgotten by the end. |
| AbsInterp.InertFacts | tool/SecVerilog-1.0/SecVerilog/absinterp.cc:52-101 | A statement that generates no hypothesis leaves only ones that were true before it as well. |
| AbsInterp.MergeKeepsCommonFactExactly | tool/SecVerilog-1.0/SecVerilog/absinterp.cc:96-101 | A merge keeps a hypothesis that both sides have, behind another one on one side, exactly when the other one's text comes first: the sets are ordered by address, the intersection by text. |
| AbsInterp.KillMissesComposites | tool/SecVerilog-1.0/SecVerilog/absinterp.cc:31-42 | The kill never finds a name inside a concatenation under N. Leaving such a hypothesis is right, whatever the operators mean, exactly when the assigned name is not among the parts. |
| CaseFacts.LabelFactsSoundExactly | tool/SecVerilog-1.0/SecVerilog/typecheck.cc:735-752 | A case statement on a name, with number labels and bodies that generate nothing and do not assign that name, is sound exactly when every label's hypothesis that is left was implied before. (Branches inside the bodies can lose some.) |
| CaseFacts.CaseIsSoundExactlyWithoutLabels | tool/SecVerilog-1.0/SecVerilog/typecheck.cc:735-752 | From no hypotheses, and with any number of items whose bodies, in addition, have no branches, it is sound exactly when no item has labels or the selector is not tracked: restoring the old set has no effect in the code, so a label's hypothesis stays. (One that is known before is harmless, by the row above.) |
| CaseFacts.AssignedSelector | tool/SecVerilog-1.0/SecVerilog/typecheck.cc:735-752 | With any number of items and labels whose bodies generate nothing, a case statement whose last body assigns the selector is sound, from any true hypotheses: that kills the labels' hypotheses, whichever item runs. |
| CaseFacts.CaseSettlesExactly | tool/SecVerilog-1.0/SecVerilog/typecheck.cc:747-752 | With any number of items that assign numbers to a tracked name, a case statement on another name is sound from no hypotheses exactly when no label generates a hypothesis (no item has labels, or the selector is not tracked), and every value of the selector chooses an item that assigns the last item's number: a body's hypothesis outlives its item, and so does a label's. |
| CaseFacts.TwoWayCase | tool/SecVerilog-1.0/SecVerilog/typecheck.cc:747-752 | With one label and a default it is sound exactly when both assign the same number and the selector is not tracked. |
| CaseFacts.CaseWithoutDefault | tool/SecVerilog-1.0/SecVerilog/typecheck.cc:747-752 | With one label and no default it never is, whether the selector is tracked or not. |
| CaseFacts.DefaultAlone | tool/SecVerilog-1.0/SecVerilog/typecheck.cc:710-754 | A lone default item is sound exactly when its body is. |
| Precision.TakesAwayExactly | tool/SecVerilog-1.0/SecVerilog/absinterp.cc:31-101 | Where nothing generates hypotheses, and they are in the order of their texts, a statement of any nesting takes away exactly those that mention a name it assigns on some path. |
| Precision.LabelsLeaveExactly | tool/SecVerilog-1.0/SecVerilog/typecheck.cc:735-746 | The labels of an item on a tracked selector leave a hypothesis each, next to those before, and no others. |
| PredicateSets.Predicate.Invalidate | tool/SecVerilog-1.0/SecVerilog/absinterp.cc:31-42 | The loop that erases while it iterates leaves the specified set, in order. |
| PredicateSets.Predicate.Add | tool/SecVerilog-1.0/SecVerilog/absinterp.cc:52-60 | Insertion into the set ordered by address. |
| PredicateSets.AbsintpAssign | tool/SecVerilog-1.0/SecVerilog/absinterp.cc:52-60 | The in-place step of a blocking assignment is the specified one. |
| PredicateSets.AbsintpBranch | tool/SecVerilog-1.0/SecVerilog/absinterp.cc:81-91 | The in-place step on entry to a branch is the specified one. |
| PredicateSets.Merge | tool/SecVerilog-1.0/SecVerilog/absinterp.cc:96-101 | The two-cursor intersection loop computes the specified merge. |
| PredicateSets.Typecheck | tool/SecVerilog-1.0/SecVerilog/typecheck.cc:609-754 | Running the analysis over a statement with one shared predicate object gives the set of the specification. |
| PredicateSets.TypecheckBranch | tool/SecVerilog-1.0/SecVerilog/typecheck.cc:759-824 | The copies before and after the branches, and the merge into the shared object, give the set of the specification. |
| SecTypes.ConcatType | tool/SecVerilog-1.0/SecVerilog/check_expr.cc:42-52 | The loop that types a concatenation computes the join of its operands' labels in order. |
| SecTypes.LabelIsAboveItsVariables | tool/SecVerilog-1.0/SecVerilog/check_expr.cc:28-103 | The label of a call-free expression is above the label of every variable it reads. |
| SecTypes.LabelIsLeastBound | tool/SecVerilog-1.0/SecVerilog/check_expr.cc:28-103 | It is the least such label: it may flow to a level exactly when the labels of all variables read may. |
| SecTypes.UndeclaredIsTop | tool/SecVerilog-1.0/SecVerilog/check_expr.cc:66-77 | An expression that reads an undeclared name has the top label. |
| SecTypes.ExprNoninterference | tool/SecVerilog-1.0/SecVerilog/check_expr.cc:28-103 | If the label flows to a level, two states that agree on all variables at or below the level give the expression one value; labels may depend on the state. |
| SecTypes.CallsAreNotTracked | tool/SecVerilog-1.0/SecVerilog/check_expr.cc:35-40 | A function call is labelled at the bottom whatever its arguments are, so that theorem fails for calls. |
| SecTypes.SimplifyKeepsLabels | tool/SecVerilog-1.0/SecVerilog/sectypes.cc:268-281 | Simplifying a join never changes the label it stands for. |
| Typecheck.TernaryCheckedAsTranslated | tool/SecVerilog-1.0/SecVerilog/typecheck.cc:402-455 | Checking an assignment of a ternary is checking the conditional it translates to. |
| Typecheck.PcIsJoin | tool/SecVerilog-1.0/SecVerilog/typecheck.cc:759-824 | Inside a branch the process counter may flow to a level exactly when it could before and the label of the condition can. |
| Precision.GuardedAssignExactly | tool/SecVerilog-1.0/SecVerilog/typecheck.cc:759-824 | Under a condition over tracked names an assignment is accepted exactly when all it and the condition read, and the process counter, may flow to the target in every state in which the condition holds; in the other branch, in which it fails. |
| Precision.CopyThenAssignExactly | tool/SecVerilog-1.0/SecVerilog/typecheck.cc:402-455 | After a number or a tracked name has been copied to a tracked name, an assignment is accepted exactly when its flows are permitted in every state in which the two are equal. |
| Precision.LabelledAssignExactly | tool/SecVerilog-1.0/SecVerilog/typecheck.cc:710-754 | Under a number as a label of a tracked selector an assignment is accepted exactly when its flows are permitted in every state in which the selector has that value. |
| Precision.WithinIsAccepted | tool/SecVerilog-1.0/SecVerilog/typecheck.cc:402-824 | A process that reads nothing above a level and assigns nothing below it passes all checks, whatever its nesting, also if labels depend on values. |
| Typecheck.PcFlowsToTarget | tool/SecVerilog-1.0/SecVerilog/typecheck.cc:402-455 | Where its hypotheses are true, a checked assignment has a target at least as high as the process counter. |
| Noninterference.LowTargetSameValue | tool/SecVerilog-1.0/SecVerilog/typecheck.cc:402-455 | A checked assignment to a target at or below the observer's level computes the same value in states the observer cannot tell apart. The observer sees the names at or below the level, plus any names it is said to know. |
| Noninterference.Confinement | tool/SecVerilog-1.0/SecVerilog/typecheck.cc:759-824 | Under a process counter above the observer's level, a checked statement changes nothing the observer sees; high names that labels depend on may be assigned. |
| Noninterference.ProcessNoninterference | tool/SecVerilog-1.0/SecVerilog/typecheck.cc:609-824 | Let every declared label be above the labels of the names it depends on, those the observer knows aside. Then a process all of whose constraints are valid takes states an observer cannot tell apart to such states, in the present values and in the pending nonblocking updates, if, wherever the hypotheses hold, an assignment to a name that labels depend on brings no name into view when its target is low (a nonblocking one: wherever its target is in view), and known names are only assigned where they are low. |
| Noninterference.CaseNoninterference | tool/SecVerilog-1.0/SecVerilog/typecheck.cc:710-754 | The same for a case statement, whose item is chosen at run time. |
| Noninterference.CommitShowsNothing | tool/SecVerilog-1.0/SecVerilog/typecheck.cc:402-455 | If no single pending update can bring a name into the observer's view, all of them together do not. |
| Noninterference.CycleNoninterference | tool/SecVerilog-1.0/SecVerilog/typecheck.cc:341-351 | A whole cycle of such an always process, checked from no hypotheses and the bottom counter, does not leak, and keeps values within their widths. |
| Noninterference.CyclesNoninterference | tool/SecVerilog-1.0/SecVerilog/typecheck.cc:341-351 | So for any number of cycles. |
| Noninterference.StaticNoninterference | tool/SecVerilog-1.0/SecVerilog/typecheck.cc:341-351 | If no label depends on a value, passing the checks is enough for any number of cycles and an observer of any level, for a process without calls whose case labels are numbers. |
| Noninterference.AssignKeepsViewExactly | tool/SecVerilog-1.0/SecVerilog/typecheck.cc:402-417 | A cycle that assigns a number to a name that labels depend on, blocking or not, keeps what an observer sees exactly when it brings no name, of those the observer does not know, down to the observer's level. The constraint does not look at that. |
| Noninterference.IndexLoweredExactly | tool/SecVerilog-1.0/SecVerilog/typecheck.cc:402-417 | For a label that is a family of the assigned name: it is never brought down exactly when all values of the name give labels at or below the level, if the new one does. |
| Noninterference.CheckedAssignmentCanLower | tool/SecVerilog-1.0/SecVerilog/typecheck.cc:402-417 | With well-formed types, an assignment of 1 to a low name passes all checks although it turns the label of another name from high to low, and so shows it to an observer at the bottom. |
| VerinumArith.RippleLoop | tool/SecVerilog-1.0/SecVerilog/verinum.cc:942-980 | The bit-serial loop is the ripple-carry sum of the two padded vectors. |
| VerinumArith.Add | tool/SecVerilog-1.0/SecVerilog/verinum.cc:942-980 | Addition as the code runs it gives the specified sum. |
| VerinumArith.Subtract | tool/SecVerilog-1.0/SecVerilog/verinum.cc:986-1027 | Subtraction as the code runs it gives the specified difference. |
| VerinumArith.RippleIsAddition | tool/SecVerilog-1.0/SecVerilog/verinum.cc:868-914 | Sum bits and carry out together are the sum of the values. |
| VerinumArith.SumIsExact | tool/SecVerilog-1.0/SecVerilog/verinum.cc:942-980 | Addition of operands of one signedness never overflows. |
| VerinumArith.DifferenceIsExact | tool/SecVerilog-1.0/SecVerilog/verinum.cc:986-1027 | Signed subtraction never overflows; unsigned subtraction is exact if it does not borrow. |
| VerinumArith.DifferenceBorrows | tool/SecVerilog-1.0/SecVerilog/verinum.cc:986-1027 | Unsigned subtraction that borrows wraps at the width of the wider operand. |
| VerinumArith.SumLowBits | tool/SecVerilog-1.0/SecVerilog/verinum.cc:942-980 | The low w bits of a sum, of any signedness, are the sum of the low w bits modulo 2^w. |
| VerinumArith.DifferenceLowBits | tool/SecVerilog-1.0/SecVerilog/verinum.cc:986-1027 | The low w bits of a difference are the difference of the low w bits modulo 2^w. |
| VerinumArith.TrimVnum | tool/SecVerilog-1.0/SecVerilog/verinum.cc:602-657 | The trimming loop finds the length of the specification. |
| VerinumArith.TrimKeepsValue | tool/SecVerilog-1.0/SecVerilog/verinum.cc:602-657 | Trimming keeps the value, and leaves a signed number no redundant sign bit. |
| VerinumArith.TrimSparesNone | tool/SecVerilog-1.0/SecVerilog/verinum.cc:602-657 | Nothing spare is left: no redundant sign bit, of an unsigned number at most one leading zero. |
| VerinumArith.PadKeepsValue | tool/SecVerilog-1.0/SecVerilog/verinum.cc:561-592 | Padding a defined number keeps its value. |
| VerinumArith.PadUnknown | tool/SecVerilog-1.0/SecVerilog/verinum.cc:561-592 | A number with an unknown top bit goes on with that bit, unless it is unsigned and has a size: then with zeros. |
| VerinumArith.ResizeKeepsResidue | tool/SecVerilog-1.0/SecVerilog/verinum.cc:288-312 | A copy of at least w bits keeps the value modulo 2^w. |
| FoldBoolean.EvalEqEq | tool/SecVerilog-1.0/SecVerilog/eval_tree.cc:624-739 | Folding == and != runs the two passes of the code and gives the specified verdict. |
| FoldBoolean.EqualityFoldIsSound | tool/SecVerilog-1.0/SecVerilog/eval_tree.cc:624-739 | A verdict of equal or different holds however the x and z bits are filled, for operands of any lengths. |
| FoldBoolean.EqualityFoldIsComplete | tool/SecVerilog-1.0/SecVerilog/eval_tree.cc:624-739 | For operands of one length x is answered only if fills with both answers exist. |
| FoldBoolean.DefinedEquality | tool/SecVerilog-1.0/SecVerilog/eval_tree.cc:624-739 | On defined operands the verdict is equality of the two numbers, each extended by its own sign. |
| FoldBoolean.EvalCaseEq | tool/SecVerilog-1.0/SecVerilog/eval_tree.cc:741-796 | Folding === and !== decides whether the vectors are the same, x and z included, each extended as the language has it. |
| FoldBoolean.EqualitiesAgreeExactly | tool/SecVerilog-1.0/SecVerilog/eval_tree.cc:684-736 | On defined operands == and === agree except exactly when a shorter negative signed operand meets a longer unsigned one that goes on with equal bits: == extends each side by its own sign. |
| FoldBoolean.TruthOf | tool/SecVerilog-1.0/SecVerilog/eval_tree.cc:936-985 | The scan for the truth of an operand. |
| FoldBoolean.EvalLogic | tool/SecVerilog-1.0/SecVerilog/eval_tree.cc:936-1010 | Folding && and || from the truth of both operands gives the specified answer, x included. |
| FoldBoolean.LogicFoldIsExact | tool/SecVerilog-1.0/SecVerilog/eval_tree.cc:936-1010 | && and || fold to 1 or 0 exactly when every fill of the operands gives that answer. |
| FoldBoolean.EvalReduce | tool/SecVerilog-1.0/SecVerilog/eval_tree.cc:1678-1764 | Folding a reduction counts ones and unknown bits and gives the specified answer. |
| FoldBoolean.ReduceFoldIsExact | tool/SecVerilog-1.0/SecVerilog/eval_tree.cc:1678-1764 | Every reduction folds to 1 or 0 exactly when every fill gives that answer. |
| FoldCompare.BeforeIsOrder | tool/SecVerilog-1.0/SecVerilog/verinum.cc:855-864 | Comparing two vectors from the highest bit down, first difference first, is the order of their values. |
| FoldCompare.SignsDecide | tool/SecVerilog-1.0/SecVerilog/verinum.cc:773-782 | Of two signed numbers with different signs the negative one is smaller, and they are never equal. |
| FoldCompare.FirstDifference | tool/SecVerilog-1.0/SecVerilog/verinum.cc:784-814 | Above a position the operands, each continued with its padding, are the same: then a difference just below it decides, and if none is left the answer is that for equal numbers. |
| FoldCompare.Compare | tool/SecVerilog-1.0/SecVerilog/verinum.cc:767-866 | The operators < and <= on defined operands of any two lengths: the answer is the order of the numbers they stand for, two's complement only if both are signed. |
| FoldCompare.Same | tool/SecVerilog-1.0/SecVerilog/verinum.cc:739-764 | The operator == on defined operands of any two lengths: whether they stand for the same number. |
| FoldCompare.LargestIsLargest | tool/SecVerilog-1.0/SecVerilog/eval_tree.cc:424-433 | The vector of ones, or for a signed comparison of ones under a 0 in the sign place, stands for the largest number of that width. |
| FoldCompare.MustBeLeeq | tool/SecVerilog-1.0/SecVerilog/eval_tree.cc:422-440 | The test on the largest value says yes exactly when every value of that width is below (or at) the constant. |
| FoldCompare.EvalLess | tool/SecVerilog-1.0/SecVerilog/eval_tree.cc:325-361 | Folding <, with the flag <=, gives exactly: nothing if the right side is not constant, x if that has unknown bits, 1 if every value of the left width is below (or at) it; else nothing, x, or the truth for a left side that is not constant, undefined, or defined. An answer of 1 or 0 holds for every value of a side that is not constant and every fill of unknown bits. |
| FoldCompare.EvalComp | tool/SecVerilog-1.0/SecVerilog/eval_tree.cc:798-831 | All four comparisons, two of them with the sides exchanged, answer exactly so: 1 or 0 holds for all values and fills. |
| FoldCompare.Blend | tool/SecVerilog-1.0/SecVerilog/eval_tree.cc:1553-1568 | The loop that blends the operands of an undecided condition keeps the bits they share and makes the others x. |
| FoldCompare.EvalTernary | tool/SecVerilog-1.0/SecVerilog/eval_tree.cc:1465-1578 | Folding the conditional operator over constants: the chosen operand, or the blend for a condition that is neither true nor false. |
| FoldCompare.TernaryFoldIsExact | tool/SecVerilog-1.0/SecVerilog/eval_tree.cc:1465-1578 | For operands of one length a bit folds to 0 or 1 exactly when, however the condition's unknown bits are filled, the chosen operand has that bit. |
| FoldAdd.FoldKeepsMeaning | tool/SecVerilog-1.0/SecVerilog/eval_tree.cc:71-189 | Folding a tree of additions and subtractions keeps its value modulo 2^w for all signals, if every two constants it combines meet the exact condition below, or are sized with w bits. |
| FoldAdd.UniformCombines | tool/SecVerilog-1.0/SecVerilog/eval_tree.cc:71-189 | They always do if the constants are all sized with at least w bits, or all signed without a size. |
| FoldAdd.FoldConstantsKeeps | tool/SecVerilog-1.0/SecVerilog/eval_tree.cc:86-126 | Two constants that combine fold to one with their sum or difference modulo 2^w, resized or trimmed. |
| FoldAdd.FoldedShape | tool/SecVerilog-1.0/SecVerilog/eval_tree.cc:105-126 | Sized constants fold at the wider width, or one bit more if the caller asks for it, others to no more bits than needed; the result is signed if both are. |
| FoldAdd.Reassociate | tool/SecVerilog-1.0/SecVerilog/eval_tree.cc:154-163 | The four ways of moving a constant out of a sub-sum are right modulo 2^w. |
| FoldAdd.RewriteKeepsMeaning | tool/SecVerilog-1.0/SecVerilog/eval_tree.cc:128-185 | One rewrite of one node keeps its value. |
| FoldAdd.ChainFoldsToOneConstant | tool/SecVerilog-1.0/SecVerilog/eval_tree.cc:128-185 | A left-nested chain of constants of any kind, width and number on a signal folds to one constant, which adds their signed sum to the signal modulo 2^w. |
| FoldAdd.ConstantsFold | tool/SecVerilog-1.0/SecVerilog/eval_tree.cc:71-185 | A tree folds to a constant exactly when all its leaves are constants. |
| FoldAdd.NarrowSubSum | tool/SecVerilog-1.0/SecVerilog/eval_tree.cc:144-150 | If the sub-sum were narrower than the sum, merging would be right for every operand exactly when the constant is 0. |
| FoldAdd.UnsizedFoldExactly | tool/SecVerilog-1.0/SecVerilog/eval_tree.cc:105-126 | Folding two constants not both sized is right modulo 2^w exactly when both are signed, or: a negative one has w bits (or meets the borrow), and without one nothing is borrowed or the wider one has w bits. |
| FoldAddInPlace.EvalExpr | tool/SecVerilog-1.0/SecVerilog/netmisc.cc:465-484 | Evaluating through a pointer replaces what it holds by the folded expression. |
| FoldAddInPlace.NetEBAdd.EvalTree | tool/SecVerilog-1.0/SecVerilog/eval_tree.cc:71-189 | The method that replaces operand pointers in place computes the specified folding of the tree it stands for. |
| FoldAddInPlace.NetEBAdd.MergeConstants | tool/SecVerilog-1.0/SecVerilog/eval_tree.cc:128-185 | Taking over the sub-expression's operand and putting the combined constant on the right is the specified rewrite. |
| Clog2.EvaluateClog2 | tool/SecVerilog-1.0/SecVerilog/eval_tree.cc:1766-1816 | The shifting loop ends, and returns the specified logarithm in integer_width bits, or all x for an argument with unknown bits. |
| Clog2.Clog2IsCeilingLog | tool/SecVerilog-1.0/SecVerilog/eval_tree.cc:1787-1812 | The answer is the least n with 2^n at least the argument, 0 for 0; for a negative argument it is at least integer_width. |
| Clog2.ArgumentOfNegative | tool/SecVerilog-1.0/SecVerilog/eval_tree.cc:1787-1800 | A negative argument is its bits read as unsigned: all of a sized one, the fewest that stand for the number if it has no size. |
| Clog2.CeilingLogIsLeast | tool/SecVerilog-1.0/SecVerilog/eval_tree.cc:1803-1809 | Counting the shifts that bring arg - 1 to zero gives the rounded-up logarithm. |
| FoldShift.EvalShift | tool/SecVerilog-1.0/SecVerilog/eval_tree.cc:1100-1183 | The folding loops, with the width estimate, trimming and the 32-bit shift amount, give the specified vector; an undefined amount gives x throughout. |
| FoldShift.KnownWhateverAmount | tool/SecVerilog-1.0/SecVerilog/eval_tree.cc:1119-1180 | A folded bit that is 0 or 1 is the same however the unknown bits of the amount are filled. |
| FoldShift.LowWordCounts | tool/SecVerilog-1.0/SecVerilog/eval_tree.cc:1121 | Of a shift amount of 32 bits or more the low 32 count. |
| FoldShift.FoldedSized | tool/SecVerilog-1.0/SecVerilog/eval_tree.cc:1124-1173 | A sized constant folds, for every operator and every width of the expression, to a vector of that width that holds the product with 2^n, or the quotient rounded down, modulo 2^w. |
| FoldShift.LeftShiftMultiplies | tool/SecVerilog-1.0/SecVerilog/eval_tree.cc:1158-1171 | A left shift multiplies by 2^n modulo 2^w. |
| FoldShift.LeftShiftIsLossless | tool/SecVerilog-1.0/SecVerilog/eval_tree.cc:1124-1134 | With the width of an unsized operand a left shift loses no bits. |
| FoldShift.FoldedLeft | tool/SecVerilog-1.0/SecVerilog/eval_tree.cc:1124-1171 | Folding a left shift of a constant: the product with 2^n, modulo 2^w if it is sized, of the trimmed bits without loss if not. |
| FoldShift.FoldedRightDividesExactly | tool/SecVerilog-1.0/SecVerilog/eval_tree.cc:1124-1157 | Folding a logical right shift of a constant divides what its trimmed bits stand for by 2^n; that is the constant's bits divided by 2^n exactly when it is not negative, or has no sign bits to trim, or nothing is left. |
| FoldShift.FoldedArithmeticDivides | tool/SecVerilog-1.0/SecVerilog/eval_tree.cc:1124-1157 | The bits of a folded arithmetic right shift of a signed constant are its value divided by 2^n, rounding down, trimmed or not. |
| FoldShift.PrunedShift | tool/SecVerilog-1.0/SecVerilog/eval_tree.cc:1136-1137 | Pruning keeps the low bits of the result. |
| FoldShift.ArithmeticShiftDivides | tool/SecVerilog-1.0/SecVerilog/eval_tree.cc:1140-1157 | An arithmetic right shift divides the signed value by 2^n, rounding down. |
| FoldShift.SynthesizeShift | tool/SecVerilog-1.0/SecVerilog/expr_synth.cc:591-695 | The nodes built for a constant shift carry the shifted vector for all values of the signals; nothing is built if the amount is not below the width. |
| FoldShift.NonNegativeAmountsAgree | tool/SecVerilog-1.0/SecVerilog/expr_synth.cc:614-622 | For an amount that is defined and not negative the netlist and folding of a sized operand give the same vector. |
| FoldShift.AgreeExactly | tool/SecVerilog-1.0/SecVerilog/expr_synth.cc:614-622 | For amounts below the width they agree on every sized operand exactly when the amount is defined and not negative: synthesis leaves an undefined shift out and turns a negative one round, folding gives x and uses the bits. |
| FoldShift.UnsizedAgreeExactly | tool/SecVerilog-1.0/SecVerilog/eval_tree.cc:1124-1134 | On an operand of indefinite length, for amounts below its width and not negative, they give the same number modulo 2^m, for its m bits, exactly when it is not negative or the folded result has at least m bits. |
| FoldShift.TrimmedShiftDiffers | tool/SecVerilog-1.0/SecVerilog/eval_tree.cc:1124-1157 | -4 in four bits without a size, shifted right by one: folded to 2, and its net carries 6. |
| FoldConcat.PlaceAll | tool/SecVerilog-1.0/SecVerilog/eval_tree.cc:1241-1258 | The triple loop writes every bit of the result exactly once, and the result is repeated copies of the operands, the first most significant. |
| FoldConcat.SetInCopies | tool/SecVerilog-1.0/SecVerilog/eval_tree.cc:1250-1254 | The innermost loop puts one bit into every copy and touches nothing else. |
| FoldConcat.EvalConcat | tool/SecVerilog-1.0/SecVerilog/eval_tree.cc:1185-1275 | A concatenation folds exactly when every operand is constant and those just folded have a width. The result has the repeated operands as its bits; if all operands are strings it is a string, with unknown bits as 0, and one zero byte for no bytes. |
| FoldConcat.StringRoundTrip | tool/SecVerilog-1.0/SecVerilog/verinum.cc:492-525 | Writing whole defined bytes as a string, with octal escapes, and reading it back gives the same bits; no bytes become one zero byte. |
| FoldConcat.Stringized | tool/SecVerilog-1.0/SecVerilog/eval_tree.cc:1263-1265 | Bits in whole bytes that are written as a string and read back are the same, but for unknown ones, which become 0. |
| FoldConcat.EncodeRoundTrip | tool/SecVerilog-1.0/SecVerilog/verinum.cc:60-111 | A byte as it is written, escaped or not, reads back as the byte whatever text follows. |
| FoldConcat.ConnectPins | tool/SecVerilog-1.0/SecVerilog/expr_synth.cc:766-776 | The pins are the copies of the operands, the last operand first, without those of no width. |
| FoldConcat.SynthesizeConcat | tool/SecVerilog-1.0/SecVerilog/expr_synth.cc:723-788 | The node carries the vector that folding computes; a total width other than the expected one is reported once, and then no values agree with the netlist. |
| FoldConcat.CopiesCarryTimes | tool/SecVerilog-1.0/SecVerilog/expr_synth.cc:766-776 | Copies of the pins carry copies of the vector. |
| Netlist.BuiltDetermines | tool/SecVerilog-1.0/SecVerilog/expr_synth.cc:591-788 | Nodes whose pins fit determine the vectors on all nets from those on the inputs, uniquely. |
| FoldSelect.EvalSelect | tool/SecVerilog-1.0/SecVerilog/eval_tree.cc:1395-1442 | The bit loop selects from the base on, with x outside, or pads with the extension bit if there is no base. |
| FoldSelect.SynthesizeSelect | tool/SecVerilog-1.0/SecVerilog/expr_synth.cc:988-1087 | The net built for a select from a signal can be wired up and carries what folding gives, for all values, exactly when the base is defined and the select does not overhang both ends of the vector. |
| FoldSelect.UndefinedBase | tool/SecVerilog-1.0/SecVerilog/expr_synth.cc:1003-1008 | With an undefined base the net carries x, while folding selects from 0 on. |
| FoldSelect.MisfitNet | tool/SecVerilog-1.0/SecVerilog/expr_synth.cc:1030-1087 | With unknown bits at both ends the pins are wider than the concatenation, by the bits below, and no values agree with it. |
| FoldSelect.SynthesizePadding | tool/SecVerilog-1.0/SecVerilog/expr_synth.cc:1107-1160 | A padding net agrees with folding exactly when there is nothing to pad, the padding is signed, or the top bit is known. A select narrower than its net is an error unsigned, and signed gives a sign extension that fits no values. |
| Selects.CalculateWidth | tool/SecVerilog-1.0/SecVerilog/elab_expr.cc:1916-1950 | The width of an indexed select is a positive constant, or 1 and an error. |
| Selects.LvalBase | tool/SecVerilog-1.0/SecVerilog/elab_lval.cc:478-494 | The l-value covers exactly the bits of the named indices, except for a descending select of several bits of a vector with equal bounds, where it starts wid - 1 bits too high. |
| Selects.EvalPartSelect | tool/SecVerilog-1.0/SecVerilog/elab_net.cc:284-326 | The net form, with its swap of the end points, covers exactly the bits of the named indices, and is dropped exactly when none of them is in the vector. |
| Selects.LvalAgreesWithNet | tool/SecVerilog-1.0/SecVerilog/elab_lval.cc:481-494 | The two forms give the same lowest bit except in that one case. |
| Selects.IndicesArePositions | tool/SecVerilog-1.0/SecVerilog/netlist.cc:779-785 | Declared indices and bit positions are in one-to-one correspondence, in both range orders. |
| Selects.ParamPartSelectBits | tool/SecVerilog-1.0/SecVerilog/elab_expr.cc:2301-2326 | The copying loop gives the declared bits, with x below, and above it zeros for a string, x for a sized and the sign for an unsized value; a string on byte boundaries is a string again. |
| Selects.UnsizedParamBit | tool/SecVerilog-1.0/SecVerilog/elab_expr.cc:2301-2326 | Any bit selected from a parameter without a size, however far up, is that binary digit of its value, in two's complement. |
| Selects.SizedParamBit | tool/SecVerilog-1.0/SecVerilog/elab_expr.cc:2301-2326 | From a sized parameter the bits are selected with x outside, from a string with zeros above. |
| Selects.ParamOffsetUp | tool/SecVerilog-1.0/SecVerilog/elab_expr.cc:2492-2517 | The offset of an ascending select makes result bit k the bit of the k-th named index, in both range orders. |
| Selects.ParamOffsetDown | tool/SecVerilog-1.0/SecVerilog/elab_expr.cc:2571-2597 | The offset of a descending select does the same. |
| Selects.ParamSelect | tool/SecVerilog-1.0/SecVerilog/elab_expr.cc:2478-2597 | Together: bit k of a constant indexed select of a parameter is the declared bit of the k-th named index; an undefined base gives x. |
| LvalConcat.ElaborateLnet | tool/SecVerilog-1.0/SecVerilog/elab_net.cc:39-158 | An l-value without errors becomes a net that carries its operands, nested ones included, joined in order; a net of real type stays itself, and is an error as an operand; otherwise nothing is made. One error is counted for each operand in error, at every depth. |
| LvalConcat.ConnectParts | tool/SecVerilog-1.0/SecVerilog/elab_net.cc:139-152 | The offsets go down operand by operand, and the width that remains ends at 0. |
| LvalConcat.TiledIsBody | tool/SecVerilog-1.0/SecVerilog/elab_net.cc:139-152 | Operands at these offsets tile the vector: disjoint, in order, and with nothing left over. |
| LvalConcat.ElaborateLval | tool/SecVerilog-1.0/SecVerilog/elab_lval.cc:97-144 | The chain of targets holds the nested operands, the least significant first, without missing and real ones. |
| LvalConcat.Link | tool/SecVerilog-1.0/SecVerilog/elab_lval.cc:134-140 | Walking to the last target and relinking it joins the two chains. |
| LvalConcat.LnetAgreesWithChain | tool/SecVerilog-1.0/SecVerilog/elab_lval.cc:108-143 | Both forms give every operand the same bits of the source: those after the bits of the less significant operands. |
| LvalConcat.LnetTakesAllBits | tool/SecVerilog-1.0/SecVerilog/elab_net.cc:139-153 | Together the operands take all the bits. |
| Cprop.ScanDriversConstant | tool/SecVerilog-1.0/SecVerilog/link_const.cc:30-100 | The scan of a net's links finds it constant exactly if every driver that is not constant comes behind a supply. |
| Cprop.ScanDrivenValue | tool/SecVerilog-1.0/SecVerilog/link_const.cc:102-174 | The scan for the value of a net with constant drivers finds that of the first supply, else of the last constant or pull, else z. |
| Cprop.GuessIsRightExactly | tool/SecVerilog-1.0/SecVerilog/link_const.cc:102-174 | A net with constant drivers carries a known value exactly when its drivers agree on it; so a guess is right exactly when they agree on that. |
| Cprop.AgreedIsGuessed | tool/SecVerilog-1.0/SecVerilog/link_const.cc:102-174 | If some constant, pull or supply says v and none says anything else, v is guessed, and the net carries it. |
| Cprop.ConstantExactly | tool/SecVerilog-1.0/SecVerilog/link_const.cc:30-100 | Drivers behind the first supply do not matter; without a supply none may vary. |
| Cprop.ReplacedIsDelThenAdd | tool/SecVerilog-1.0/SecVerilog/net_design.cc:731-775 | Deleting a node from the circular list and adding another gives the list from its new front, the others in their order. |
| Cprop.RewriteKeepsSolutions | tool/SecVerilog-1.0/SecVerilog/cprop.cc:824-852 | Replacing a mux with a constant select by a buffer changes no solution of the netlist, whatever the rest of the design does, if the constant drivers of that select's net agree on the value of its first supply or last driver. |
| Cprop.SelectDecides | tool/SecVerilog-1.0/SecVerilog/cprop.cc:829-846 | A two-way mux with one select bit can be rewritten exactly if the value found for the select is 0 or 1, and the input taken over is data 1 exactly for a 1. |
| Cprop.RewriteKeepsWellformed | tool/SecVerilog-1.0/SecVerilog/cprop.cc:824-852 | A rewrite keeps each mux the one driver of its result and each node once in the list. |
| Cprop.Design.LpmMux | tool/SecVerilog-1.0/SecVerilog/cprop.cc:791-852 | Visiting a node rewrites it exactly when it is a two-way mux with one select bit whose net is constant 0 or 1 and not assigned. |
| Cprop.Design.Functor | tool/SecVerilog-1.0/SecVerilog/functor.cc:138-165 | A scan of the circular list, whose front moves as nodes are added, visits every node, and counts one rewrite for each mux that goes. |
| Cprop.Design.Cprop | tool/SecVerilog-1.0/SecVerilog/cprop.cc:959-967 | The loop ends and no mux that could be rewritten is left; if the drivers of each select that could be guessed agree on the value of the first supply or the last of them, every net carries what it did. |
| ElabScope.ScanExactly | tool/SecVerilog-1.0/SecVerilog/elab_scope.cc:1171-1211 | The ancestor scan accepts exactly if the module occurs at most limit times above, and a generate block comes before the innermost occurrence; and it tells the two errors apart. |
| ElabScope.Design.CheckRecursion | tool/SecVerilog-1.0/SecVerilog/elab_scope.cc:1171-1211 | The loop over the parents computes that verdict. |
| ElabScope.Design.ElaborateScopeMod | tool/SecVerilog-1.0/SecVerilog/elab_scope.cc:1126-1234 | An instance is accepted exactly when it has a name, no scope of that name beside it, and passes the scan; then it is made at once, or waits if it is an array. Every refusal is one error; so is the name of a genvar and that of a parameter, which do not stop the instance. |
| ElabScope.Design.ElaborateInstances | tool/SecVerilog-1.0/SecVerilog/elab_scope.cc:1241-1306 | One scope for each instance, numbered from the low bound towards the high one. |
| ElabScope.NumbersBetween | tool/SecVerilog-1.0/SecVerilog/elab_scope.cc:1284-1292 | The instances of an array are numbered by exactly the integers between its bounds, each once and in order, from the low bound to the high one. |
| ElabScope.Run | tool/SecVerilog-1.0/SecVerilog/elab_scope.cc:1126-1306 | However elaboration runs, no path holds more than limit + 1 instances of a module, nested instances are separated by a generate block, and waiting arrays are still acceptable. |
| ElabScope.DepthIsBounded | tool/SecVerilog-1.0/SecVerilog/elab_scope.cc:1171-1211 | With M modules no path is deeper than M * (limit + 1) modules. |
| ElabScope.Pigeonhole | tool/SecVerilog-1.0/SecVerilog/elab_scope.cc:1185-1200 | A path on which no module occurs more than n times is at most n times as deep as there are modules. |
| StringHeap.Heap.Add | tool/SecVerilog-1.0/SecVerilog/StringHeap.cc:43-70 | A string gets a fresh block inside one cell; all blocks handed out before still hold their text, and none overlap; a new cell is made exactly if the current one has no room. |
| StringHeap.IssuedReadsBack | tool/SecVerilog-1.0/SecVerilog/StringHeap.cc:43-70 | Every address ever handed out reads as its text. |
| StringHeap.HashString | tool/SecVerilog-1.0/SecVerilog/StringHeap.cc:117-126 | The hash depends on nothing but the bytes before the nul. |
| StringHeap.HashAppend | tool/SecVerilog-1.0/SecVerilog/StringHeap.cc:117-126 | The hash of a text with one more byte mixes that byte into the hash of the text. |
| StringHeap.LastByteDecidesSlot | tool/SecVerilog-1.0/SecVerilog/StringHeap.cc:117-132 | So texts that differ in their last byte only take different slots of the cache. |
| StringHeap.ByteBeforeStays | tool/SecVerilog-1.0/SecVerilog/StringHeap.cc:121 | Mixing in a byte keeps the low byte of the hash before among the bits of the slot. |
| StringHeap.HeapLex.Add | tool/SecVerilog-1.0/SecVerilog/StringHeap.cc:128-148 | An old address is returned exactly when the string cached in the slot is the same; else the new one takes the slot. Every call is a hit or an addition. |
| StringHeap.HeapLex.Lookup | tool/SecVerilog-1.0/SecVerilog/StringHeap.cc:132-138 | Comparing the cached string finds exactly the identical text. |
| StringHeap.AddAll | tool/SecVerilog-1.0/SecVerilog/StringHeap.cc:128-148 | After any number of calls every address returned on the way reads as its string, and hits and additions add up to the calls. |

## Left out

- x and z in run-time states: the statement semantics of the first part is two-valued, with unsigned values, so conditions and compared values are always defined.
- AbsInterp.AnalysisIsSound: asks, of the text of the process, that generated hypotheses fit their targets, that weakening does not drop parts of compared operands, that what stands under N is plain, and of a case statement that it generates no hypotheses, or does so in a lone default, where all ways assign one number, or where a later item kills them; the theorems of CaseFacts say what happens otherwise, for labels that are numbers.
- Noninterference.ProcessNoninterference: has no function calls and only numbers as case labels, and no case item is reached with another item's hypotheses. Declared labels are above those of the names they depend on, except names the observer is said to know. An assignment to a name that labels depend on brings no name into view: a blocking one where its target is low, a nonblocking one wherever its target is in view, whatever the other values are when the cycle ends.
- Typecheck.PcFlowsToTarget: the fresh variable and the no-sensitive-upgrade check, with the set of names not modified on all paths, that the code uses when a target's label depends on the target itself are not modelled; the theorems on whole runs leave such targets out.
- Noninterference.LowTargetSameValue: the same.
- The solver: a constraint counts as checked if it is valid over all states whose values fit, which is what the emitted query asks.
- Indexed identifiers, part-selected l-values, tasks, loops, delays, events and parallel blocks in the predicate analysis; the code handles them by name or not at all.
- Operators the analysis does not read have an arbitrary meaning; the theorems hold for all of them. min and max share their printed text and are not told apart.
- Meets of labels, and the parsing and printing of types and queries.
- Multiplication, division, powers, bitwise operators and real arithmetic in folding, and the conditional operator over operands that are not constant.
- FoldAdd.FoldKeepsMeaning: the nodes share one width w, which set_width arranges; a copied sub-expression keeps its width. For two sized constants the width of w bits is a sufficient condition; for others the condition is exact.
- VerinumArith.PadKeepsValue: strings, which padding converts to text and back, are not padded here.
- FoldSelect.SynthesizeSelect: positions and widths are below 2^31, so 32-bit sums do not wrap.
- Selects with a base that is not constant, and the whole-vector shortcut of net r-values.
- LvalConcat.ElaborateLnet: bidirectional connections, which use the same offsets with transmission nodes; and repeated concatenations, which both forms refuse.
- Cprop.Design.Cprop: nets are modelled one bit at a time, supplies and pulls included, without wired-and, wired-or and charge storage; pins that only read are not in the lists; the cached guess of a net is computed anew; the removal of flip-flops and dangling constants is not modelled. That every net carries what it did is stated for netlists in which the constant drivers of each select that could be guessed agree (`Trusted`).
- ElabScope.Design.ElaborateScopeMod: the genvars and parameters of a scope are given for each scope; parameter overrides are left out.
- StringHeap.Heap.Add: strings longer than a cell fail an assertion in the code; here that is a precondition. The cleanup for memory checkers is left out.
- Dumping, error texts, line numbers and memory ownership.
