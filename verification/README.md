# Cornelius in Dafny

Cornelius finds equivalent mutants. A Java serializer translates each method under test and each of its mutants into a program expression graph (PEG). The nodes are written to an id table, which the Rust tool loads into an e-graph. The tool saturates the graph with rewrite rules and constant folding, then groups the original and its mutants by the e-class their PEG lands in. Mutants in one class are equivalent to each other.

This project models the repository's own logic around the e-graph engine. The e-graph itself is the external `egg` crate. Where the code calls it (`add`, `find`, `union`, per-class analysis data), the model takes a function parameter or a map instead.

- **Java `int` and `long` values** (`Primitives`, from cornelius/src/primitives.rs). These are fixed-width operators. Rust's debug-build panics on overflow, zero divisors and shift distances are the preconditions.
- **The PEG language** (`PegTerm`, `RecExpr`). This covers single-node predicates and the S-expression printer.
- **Constant folds and the e-class analysis** (`PegFold`, `PegAnalysis`, from cornelius/src/peg.rs). This covers `plus` … `neg`, `eval`, and `make`/`merge`/`modify`.
- **The reference evaluator** (`Evaluator`, from cornelius/src/evaluator.rs). It is memoised over an index-ordered node list and proved equal to a recursive semantics.
- **The rewrite rules as data** (`Rewrites`), with a soundness proof against the evaluator (`RuleSoundness`). Rules the evaluator cannot judge are listed with counterexamples.
- **Equivalence relations** (`EquivRel`, `Text`, `Decimal`, from cornelius/src/util.rs). This covers parsing, lookup, refinement, restriction, counting, and the class-file format.
- **Subjects** (`Subjects`, from cornelius/src/subjects.rs). This covers the id-table entry parser, the renaming load loop, and scoring by canonical id.
- **Run configuration and run-wide counters** (`Config`, `GlobalData`).
- **Delta debugging** (`Delta`, from src/delta.rs). The model proves that `ddmin` returns a failing subsequence that is 1-minimal.
- **The first prototype** under src/ (`LegacyPeg`, `LegacyExpr`, `LegacySubjects`). This covers its folds and analysis, `ConstProp::apply_one`, `Subject::make`, and subject loading. Lemmas compare it with the later version.
- **The Java serializer's PEG machinery.** This covers:
  - the hash-consed node table (`PegNodes`);
  - translation contexts and expression results (`PegContexts`, `ExpressionResults`);
  - the expression translator (`PegExprVisitor`, with its properties in `PegExprFacts`);
  - the name and number helpers (`SerializerUtil`);
  - the mutants log (`MutantsLog`);
  - the expression-file reader and command line (`ExprSerializer`);
  - the comment readers (`TestUtil`, `CommentScraper`, `CommentLines`);
  - the Simple-Java check (`SimpleValidator`);
  - the equivalence list (`Equivalences`);
  - the structural comparison of PEGs (`StructuralEquivalence`).

  The `java.lang` behaviour they rely on is in `JavaLang`, `JavaLibrary` and `JavaCollections`.

Java exceptions, Rust `Err` values and Rust panics are modelled as values (`Outcome`, `Result`, `Option`), so error paths are part of each contract. Java's static node table is an immutable `Table`, which every node-making function takes and returns.

## Model

| member | source | states |
|---|---|---|
| Primitives.Wrap32 | cornelius/src/primitives.rs:250-297 | the 32-bit wrap-around `Wrapping` gives: congruent to the true value modulo 2^32, and the value itself when it fits |
| Primitives.Wrap64 | cornelius/src/primitives.rs:257-302 | the 64-bit wrap-around of the mixed `int op long` operators: congruent modulo 2^64, exact when in range |
| Primitives.TruncRem | cornelius/src/primitives.rs:306-318 | Rust's `%` on signed integers: quotient and remainder recompose the dividend, the remainder is smaller than the divisor and carries the dividend's sign |
| Primitives.SignedUnsigned | cornelius/src/primitives.rs:348-388 | reading a two's-complement pattern back as a signed number inverts taking the pattern |
| Primitives.UnsignedSigned | cornelius/src/primitives.rs:348-388 | taking the pattern of the signed reading of a pattern gives the pattern back |
| Primitives.BitsCommute | cornelius/src/primitives.rs:348-388 | bitwise and, or and xor are commutative on bit patterns |
| Primitives.BitsAssociate | cornelius/src/primitives.rs:348-388 | bitwise and, or and xor are associative on bit patterns |
| Primitives.BitsAndAllOnes | cornelius/src/primitives.rs:348-360 | `x & -1` keeps every bit of `x` |
| Primitives.BitsOrAllOnes | cornelius/src/primitives.rs:362-374 | bitwise or with -1 gives all ones |
| Primitives.BitsZero | cornelius/src/primitives.rs:348-374 | bitwise and with 0 gives zero and bitwise or with 0 gives `x` |
| Primitives.Bitwise32 | cornelius/src/primitives.rs:348-388 | `int` bitwise operators act bit by bit on the 32-bit two's-complement patterns |
| Primitives.Bitwise64 | cornelius/src/primitives.rs:198-239 | `long` bitwise operators act bit by bit on the 64-bit patterns |
| Primitives.Promote | cornelius/src/primitives.rs:89-93 | `promote_to_java_long` keeps the value |
| Primitives.IsZeroInt | cornelius/src/primitives.rs:36-40 | `is_zero` holds exactly of `0` |
| Primitives.IsZeroLong | cornelius/src/primitives.rs:30-34 | `is_zero` holds exactly of `0l` |
| Primitives.LongEqInt | cornelius/src/primitives.rs:71-75 | a `long` equals an `int` exactly when it equals the promoted `int` |
| Primitives.IntEqLong | cornelius/src/primitives.rs:77-81 | an `int` equals a `long` exactly when its promotion equals the `long` |
| Primitives.CrossWidthEqualitySymmetric | cornelius/src/primitives.rs:71-81 | the two cross-width equalities agree with each other, and `0 == 0l` in both directions |
| Primitives.IntInt | cornelius/src/primitives.rs:250-346 | `int op int`: `+ - * <<` are the true result modulo 2^32; `/` truncates toward zero except `MIN / -1`, which wraps to `MIN`; `%` recomposes the dividend; `>>` is a floor shift |
| Primitives.IntDiv | cornelius/src/primitives.rs:292-297 | wrapping `int` division truncates toward zero, and `MIN / -1` is `MIN` |
| Primitives.FloorShift | cornelius/src/primitives.rs:334-346 | an arithmetic right shift by `d` is the floor of division by 2^d |
| Primitives.UShr32 | cornelius/src/primitives.rs:320-346 | a logical right shift divides the unsigned pattern by 2^d, agrees with `>>` on non-negative values and is non-negative for a positive distance |
| Primitives.LongLong | cornelius/src/primitives.rs:100-197 | `long op long`: the raw `i64` operator, so `+ - * / %` give the exact result whenever they return, `<<` is modulo 2^64 and `>>` a floor shift |
| Primitives.IntLong | cornelius/src/primitives.rs:257-304 | `int op long`: `+ - *` wrap the sign-extended operands modulo 2^64 |
| Primitives.IntLongPromotes | cornelius/src/primitives.rs:257-304 | `int op long` equals `long op long` on the promoted `int` whenever the raw one returns |
| Primitives.IntIntIsLowBitsOfLong | cornelius/src/primitives.rs:250-346 | every `int op int` result is the low 32 bits of the same operation on the promoted operands |
| Primitives.MixedAdditionAsymmetry | cornelius/src/primitives.rs:107-111 | `1 + LONG_MAX` wraps to `LONG_MIN`, while `LONG_MAX + 1` (long on the left) is an overflow panic |
| Primitives.IntDivisionOverflowWraps | cornelius/src/primitives.rs:292-318 | `INT_MIN / -1` wraps to `INT_MIN`; `INT_MIN % -1` is an overflow panic |
| Primitives.IntNeg | cornelius/src/primitives.rs:390-395 | `int` negation returns the negated value |
| Primitives.LongNeg | cornelius/src/primitives.rs:240-246 | `long` negation returns the negated value |
| Primitives.ParseJavaInt | cornelius/src/primitives.rs:61-69 | an `int` literal parses exactly when its text is a signed decimal within 32 bits, and to that value |
| Primitives.ParseJavaLong | cornelius/src/primitives.rs:42-53 | a `long` literal parses exactly when it ends in `l`/`L` and the rest is a signed decimal within 64 bits, and to that value |
| Primitives.ParseShowInt | cornelius/src/primitives.rs:61-87 | displaying an `int` and parsing it back gives the same `int` |
| Primitives.ParseShowLong | cornelius/src/primitives.rs:42-59 | a displayed `long` parses back once the `l` suffix is added, and without it does not parse |
| Decimal.SignedRoundTrip | cornelius/src/primitives.rs:61-69 | writing an integer in decimal and parsing it back gives the integer |
| Decimal.ParseU32 | cornelius/src/util.rs:139-155 | a class element parses to a value below 2^32 |
| Decimal.U32RoundTrip | cornelius/src/util.rs:139-155 | a decimal numeral parses back to the number it was written from |
| Text.Split | cornelius/src/util.rs:139-155 | splitting gives one more piece than there are separators, and no piece holds a separator |
| Text.SplitJoin | cornelius/src/util.rs:139-155 | separator-free pieces joined by a separator split back into the same pieces |
| PegTerm.AsBool | cornelius/src/peg.rs:230-235 | `as_bool` gives a value exactly for a `Bool` node, and that node's flag |
| PegTerm.LongDisplaysAsNum | cornelius/src/primitives.rs:55-59 | a `long` constant is displayed without its `l` suffix, so it prints like the `int` of the same value |
| PegFold.Arith | cornelius/src/peg.rs:281-441 | a numeric fold gives a constant exactly when both operands are numbers; the result is an `int` exactly when both operands are `int`s |
| PegFold.URShift | cornelius/src/peg.rs:428-432 | `>>>` never folds |
| PegFold.RingFoldIsJavaArithmetic | cornelius/src/peg.rs:281-371 | a folded `+`, `-` or `*` is the exact result modulo the width of the result type (binary numeric promotion) |
| PegFold.LongLeftOperandIsExact | cornelius/src/primitives.rs:100-139 | with a `long` on the left, `+ - *` never wrap: where they return, the result is exact |
| PegFold.MixedWidthExample | cornelius/src/peg.rs:281-289 | `2 + 3` folds to `5`, and `1l + 5` and `1 + 5l` both fold to the `long` `6` |
| PegFold.DivisionByZeroIsError | cornelius/src/peg.rs:373-386 | `/` folds to `error` exactly when the divisor is a numeric zero, and does not fold when the divisor is not a number |
| PegFold.NequalNegatesEqual | cornelius/src/peg.rs:291-311 | `==` folds exactly on two numbers or two booleans; `!=` folds on the same pairs, to the negation, and neither panics |
| PegFold.EqualIsAnEquivalence | cornelius/src/peg.rs:291-300 | the `==` fold is symmetric and reflexive on constants, and compares `int` with `long` by value |
| PegFold.OrderingsCompareValues | cornelius/src/peg.rs:313-351 | the comparisons fold exactly on two numbers, to the mathematical comparison of their values; `<` is `>` flipped and `<=` is `>=` flipped |
| PegFold.ConnectivesOnlyFoldBooleans | cornelius/src/peg.rs:444-456 | `and`/`or` fold exactly on two booleans, to the boolean connective |
| PegFold.NegNegates | cornelius/src/peg.rs:458-464 | `neg` folds numbers to their negation of the same width, panics exactly on `INT_MIN` and `LONG_MIN`, and does not fold anything else |
| PegFold.BitwiseFoldsActOnPatterns | cornelius/src/peg.rs:388-416 | the bitwise folds of two `int`s act on their two's-complement bit patterns |
| PegFold.ShiftDistanceIsNotMasked | cornelius/src/primitives.rs:320-346 | a shift distance of 32 or a negative one panics instead of being masked as Java does; `1 << 31` is `INT_MIN` |
| PegAnalysis.OrElse | cornelius/src/peg.rs:475-480 | `Option::or` keeps the first value when there is one and otherwise takes the second |
| PegAnalysis.Eval | cornelius/src/peg.rs:486-541 | a literal evaluates to itself; any folded constant is a literal or `error`, and a fold needs every child class to have a constant |
| PegAnalysis.Make | cornelius/src/peg.rs:549-561 | a `var` node records itself as the variable and no constant; any other node records no variable and exactly the constant `eval` folds |
| PegAnalysis.Merge | cornelius/src/peg.rs:545-547 | `merge` reports a change exactly when the merged data differ from the old data |
| PegAnalysis.Modify | cornelius/src/peg.rs:563-568 | `modify` adds the class's constant as a node of the class when there is one, leaves the class alone otherwise, and keeps its data |
| PegAnalysis.MergeKeepsExisting | cornelius/src/peg.rs:475-480 | a field already set survives a merge, an unset one takes the incoming value, and a change is reported exactly when an unset field is filled |
| PegAnalysis.MergeHidesConflicts | cornelius/src/peg.rs:545-547 | a conflicting incoming constant is dropped and no change is reported |
| PegAnalysis.MergeIsASemilatticeJoin | cornelius/src/peg.rs:475-480 | merging is idempotent, never unsets a field, and the combination it performs is associative |
| PegAnalysis.ModifyIsStable | cornelius/src/peg.rs:549-568 | the literal `modify` adds has, as its own analysis data, the same constant, so the union changes nothing |
| PegAnalysis.ModifyIdempotent | cornelius/src/peg.rs:563-568 | a second `modify` changes nothing |
| PegAnalysis.MadeConstantsAreLiterals | cornelius/src/peg.rs:549-561 | every constant `make` records is a literal or `error` |
| PegAnalysis.UnfoldedOperators | cornelius/src/peg.rs:539 | `not`, `phi`, `%`, `>>>`, `var` and the heap operators never get a constant |
| PegAnalysis.MissingChildConstantBlocksFold | cornelius/src/peg.rs:486-492 | a child class without a constant blocks every fold |
| PegAnalysis.CrossWidthEqualityFoldsFalse | cornelius/src/peg.rs:514-537 | as written, `(== 0l 0)` folds to `false` and `(!= 0l 0)` to `true`, although `Peg::equal` calls the two constants equal |
| PegAnalysis.ValueEqual | cornelius/src/peg.rs:291-311 | the intended `==`/`!=` fold: numbers compare by value and booleans by flag |
| PegAnalysis.EvalByValue | cornelius/src/peg.rs:514-537 | `eval` with `==`/`!=` comparing constants by value; every other operator evaluates as before |
| PegAnalysis.EvalByValueAgreesWithEqual | cornelius/src/peg.rs:514-525 | the value comparison folds `int`/`long` equality by value and agrees with the as-written fold on constants of one kind |
| RecExpr.SexpBalanced | cornelius/src/peg.rs:578-589 | the S-expression of a node has as many `(` as `)`, one pair per inner node |
| RecExpr.ParenthesisedIffInterior | cornelius/src/peg.rs:582-588 | a node's S-expression starts with `(` exactly when the node has children |
| RecExpr.SexpExample | cornelius/src/peg.rs:571-577 | `[a, 2, (+ 0 1)]` prints as `(+ a 2)` |
| Evaluator.Literal | cornelius/src/evaluator.rs:72-75 | a literal node evaluates to itself |
| Evaluator.Negate | cornelius/src/evaluator.rs:179-185 | `not` succeeds exactly on a boolean, giving its negation |
| Evaluator.OperandKindsChecked | cornelius/src/evaluator.rs:74-222 | arithmetic, shifts and orderings are an error unless both operands are numbers, boolean and and or unless both are booleans, and `^` unless both are of one of those kinds |
| Evaluator.EqualityNeverFails | cornelius/src/evaluator.rs:223-240 | `==` and `!=` always succeed and are each other's negation; operands of different kinds (and two `null`s) compare unequal |
| Evaluator.DivisionByZeroPanics | cornelius/src/evaluator.rs:92-99 | a division by the number `0` panics |
| Evaluator.PhiSelectsOneBranch | cornelius/src/evaluator.rs:241-247 | `phi` takes the outcome of the branch its guard selects, passes on a failing guard, and is an error on a non-boolean guard |
| Evaluator.BindAllCharacterised | cornelius/src/evaluator.rs:14-37 | a `var` node is bound exactly when its child is a symbol bound to a number, boolean, `null` or unit in the environment, and then to that value |
| Evaluator.VarReadsBinding | cornelius/src/evaluator.rs:249-252 | a `var` node evaluates to its environment value, and is an error when it has none |
| Evaluator.HeapNodesAreErrors | cornelius/src/evaluator.rs:253-257 | access paths, derefs, heaps, `wr` and `rd` nodes cannot be evaluated |
| Evaluator.EvaluateAt | cornelius/src/evaluator.rs:64-274 | the memoised evaluation equals the reference semantics, keeps every memo entry sound, and memoises only successes |
| Evaluator.Eval | cornelius/src/evaluator.rs:6-46 | an empty expression panics; otherwise the result is the reference semantics of the last node under the bound variables |
| Evaluator.MinMax | cornelius/src/evaluator.rs:286-287 | the `MIN` and `MAX` terms evaluate to the smaller and larger of the two bound numbers |
| Evaluator.MinOf3Is | cornelius/src/evaluator.rs:288-292 | the `MIN_OF_3` term evaluates to the least of the three bound numbers |
| Rewrites.LegacyArithmeticIsUnguarded | src/rewrites.rs:11-20 | the prototype's arithmetic rules are cornelius's with every side condition dropped and without the `long` `mul-bot` |
| Rewrites.GuardedRules | cornelius/src/rewrites.rs:10-20 | exactly `add-ident`, both `mul-bot`s, `mul-ident` and `add-inv` carry `is_not_const("?a")`, and two rules share the name `mul-bot` |
| Rewrites.InverseRulesAreConverses | cornelius/src/rewrites.rs:56-81 | each of the 13 `inv-` rules swaps the two sides of the distribution rule at the same position |
| Rewrites.RulesWellScoped | cornelius/src/rewrites.rs:7-121 | every rule of both rule sets uses on its right-hand side and in its guard only variables its left-hand side binds |
| Rewrites.DuplicateNegationRule | cornelius/src/rewrites.rs:30-36 | `not-inv` and `not-not` are the same rewrite under two names |
| RuleSoundness.RulesSound | cornelius/src/rewrites.rs:7-94 | every rule of `rw_rules()` the evaluator can judge is sound: its two sides have the same outcome under every assignment of values that respects the rule's typing |
| RuleSoundness.LegacyRulesSound | src/rewrites.rs:8-102 | the same holds for the prototype's rules |
| RuleSoundness.AddAssociates | cornelius/src/rewrites.rs:12 | wrapping `int` addition is associative |
| RuleSoundness.MulAssociates | cornelius/src/rewrites.rs:13 | wrapping `int` multiplication is associative |
| RuleSoundness.ShuffleEquation | cornelius/src/rewrites.rs:43-44 | `a + b == c` exactly when `a == c - b`, in wrapping `int` arithmetic |
| RuleSoundness.CommuteSound | cornelius/src/rewrites.rs:10-11 | the commutation rules are sound for every commutative operator of the language |
| RuleSoundness.ArithmeticUnitsSound | cornelius/src/rewrites.rs:14-17 | `a + 0`, `a * 0` and `a * 1` rewrite soundly for an `int` `a` |
| RuleSoundness.LongMulBotSound | cornelius/src/rewrites.rs:16 | the `long` `mul-bot` is sound only because the evaluator cannot evaluate a `long` at all |
| RuleSoundness.BooleanUnitsSound | cornelius/src/rewrites.rs:26-29 | the identities and annihilators of boolean and and or are sound for a boolean `a` |
| RuleSoundness.DeMorganSound | cornelius/src/rewrites.rs:31-32 | pushing `!` through boolean and and or is sound |
| RuleSoundness.ComplementSound | cornelius/src/rewrites.rs:33-34 | `a && !a` is `false` and `a` or `!a` is `true` for a boolean `a` |
| RuleSoundness.NegatedEqualitySound | cornelius/src/rewrites.rs:37-38 | `!(a == b)` and `a != b` are interchangeable |
| RuleSoundness.ReflSound | cornelius/src/rewrites.rs:41 | `a == a` is `true` for a number or boolean `a` |
| RuleSoundness.ReflNeedsGroundOperand | cornelius/src/evaluator.rs:223-231 | without that typing `refl` is unsound, since `null == null` evaluates to `false` |
| RuleSoundness.BitwiseUnitsSound | cornelius/src/rewrites.rs:50-53 | bitwise and with -1 or 0 and bitwise or with 0 or -1 act on every `int` as the rules say |
| RuleSoundness.LeftDistributionSound | cornelius/src/rewrites.rs:57-60 | every operator applied to a `phi` on the right distributes over its branches |
| RuleSoundness.RightDistributionSound | cornelius/src/rewrites.rs:56-66 | every operator applied to a `phi` on the left distributes over its branches |
| RuleSoundness.ConverseSound | cornelius/src/rewrites.rs:69-81 | the converse of a sound rule is sound, so every `inv-` rule is |
| RuleSoundness.ComparisonComplementSound | cornelius/src/rewrites.rs:83-86 | each comparison is the negation of its complement |
| RuleSoundness.ComparisonSplitSound | cornelius/src/rewrites.rs:87-88 | `>=` is `>` or `==`, and `<=` is `<` or `==` |
| RuleSoundness.BranchSelectionSound | cornelius/src/rewrites.rs:90-92 | `phi` on a literal guard selects its branch, and negating the guard swaps the branches |
| RuleSoundness.NestingAndSound | cornelius/src/rewrites.rs:93 | a `phi` on `a && b` is a `phi` on `a` around a `phi` on `b` |
| RuleSoundness.SameBranchSound | cornelius/src/rewrites.rs:94 | a `phi` with equal branches is that branch, for a boolean guard |
| RuleSoundness.NegZeroNotConfirmed | cornelius/src/rewrites.rs:18 | the evaluator cannot confirm `neg-zero`: it has no arm for unary minus |
| RuleSoundness.AddInvNotConfirmed | cornelius/src/rewrites.rs:19 | nor `add-inv`, for the same reason |
| RuleSoundness.SubToAddNotConfirmed | cornelius/src/rewrites.rs:20 | nor `sub-to-add`, whose right-hand side panics where the left returns |
| RuleSoundness.ReadAfterWriteNotConfirmed | cornelius/src/rewrites.rs:97 | nor `rd-wr`, since the evaluator refuses heap nodes |
| RuleSoundness.ReadAfterWrite | cornelius/src/rewrites.rs:97 | under a store-and-read heap semantics, reading a path just written gives the value written |
| RuleSoundness.ReadAfterWriteNeedsValue | cornelius/src/rewrites.rs:97 | writing something that is not a value gets stuck, while the rule's right-hand side does not |
| RuleSoundness.LibraryRulesUnchecked | cornelius/src/rewrites.rs:97-117 | the heap, type-guided and string rules are exactly the ones left to the library models |
| RuleSoundness.PlusOverPhiExample | cornelius/src/tests.rs:383-388 | `(+ (phi a 3 4) 1)` and `(phi a 4 5)` agree whatever `a` holds |
| RuleSoundness.ComparisonsOfVariablesAreNotConstant | cornelius/src/tests.rs:119-205 | a comparison of two variables, or of `1` with a variable, is neither always `true` nor always `false` |
| JavaLibrary.IndexOf | cornelius/src/rewrites.rs:103 | `indexOf` is `-1` exactly when the pattern occurs nowhere, else the first position where it occurs |
| JavaLibrary.LastIndexOf | cornelius/src/rewrites.rs:104 | `lastIndexOf` is `-1` exactly when the pattern occurs nowhere, else the last position where it occurs |
| JavaLibrary.EmptyPrefix | cornelius/src/rewrites.rs:115-117 | every string starts with `""`, which is found at its start and at its end |
| JavaLibrary.CommonPrefixes | cornelius/src/rewrites.rs:106-113 | two prefixes of one string are comparable: one is a prefix of the other |
| JavaLibrary.StartsWithRuleAsWritten | cornelius/src/rewrites.rs:106-113 | `string-starts-with` turns the boolean or into `!=`, and for `"ab"` with `"a"` and `"ab"` the two sides differ |
| JavaLibrary.StartsWithRuleWhenIncomparable | cornelius/src/rewrites.rs:106-113 | the two sides agree for every string exactly when neither prefix is a prefix of the other |
| EquivRel.TokensOfJoin | cornelius/src/util.rs:145 | non-empty, space-free words joined by spaces split back into those words under `split_whitespace` |
| EquivRel.ParseClass | cornelius/src/util.rs:145-151 | a line parses exactly when every word is a `u32` numeral |
| EquivRel.ParseClassElements | cornelius/src/util.rs:145-151 | the class of a line holds exactly the values of its words |
| EquivRel.Parse | cornelius/src/util.rs:139-156 | a parsed relation is well formed and has one class per separator-delimited line, empty lines included |
| EquivRel.SeparatorsInterchangeable | cornelius/src/util.rs:142 | a line break and a vertical bar separate classes alike |
| EquivRel.FromClasses | cornelius/src/util.rs:158-169 | the relation built from a list of classes keeps the classes and maps each element to a class |
| EquivRel.LookupFindsClass | cornelius/src/util.rs:44-46 | `lookup` finds a class exactly for a tracked element: the last class that holds it, which does hold it |
| EquivRel.LookupInPartition | cornelius/src/util.rs:44-46 | over disjoint classes, `lookup` gives the one class that holds the element |
| EquivRel.RefinementNestsClasses | cornelius/src/util.rs:67-81 | over disjoint classes, `is_refinement_of` holds exactly when every class lies inside a class of the other relation |
| EquivRel.RefinementPreorder | cornelius/src/util.rs:67-81 | refinement is reflexive and transitive |
| EquivRel.RestrictValid | cornelius/src/util.rs:96-113 | the restriction is well formed and tracks exactly the elements of the domain that the relation tracks |
| EquivRel.RestrictRefines | cornelius/src/util.rs:96-113 | the restriction refines the relation it came from |
| EquivRel.RestrictPartition | cornelius/src/util.rs:96-113 | restricting disjoint classes gives disjoint, non-empty classes |
| EquivRel.NumEquivalences | cornelius/src/util.rs:130-132 | the `usize` subtraction returns exactly when there are at least as many elements as classes |
| EquivRel.NumEquivalencesOfPartition | cornelius/src/util.rs:115-132 | for disjoint, non-empty classes the count is the sum over the classes of one less than their size |
| EquivRel.CountEquivalences | cornelius/src/util.rs:115-132 | the intended count, elements minus non-empty classes, returns exactly when that is not negative |
| EquivRel.CountAgreesWithoutEmptyClasses | cornelius/src/util.rs:115-132 | without empty classes the two counts agree |
| EquivRel.CountEquivalencesOfPartition | cornelius/src/util.rs:115-129 | for disjoint classes, empty ones included, the intended count is the documented one |
| EquivRel.Sorted | cornelius/src/util.rs:244 | `itertools::sorted` lists exactly the class's elements, strictly ascending |
| EquivRel.LineParses | cornelius/src/util.rs:244-248 | a written class line reads back as the class |
| EquivRel.ParseRendered | cornelius/src/util.rs:139-156 | lines of numerals joined by either separator read back as the relation of their classes |
| EquivRel.ParseOfFormat | cornelius/src/util.rs:238-253 | the file written for a run reads back as its classes without the lone `{0}`, plus one empty class from the final line break |
| EquivRel.NumEquivalencesOfWrittenFile | cornelius/src/util.rs:130-132 | read back from its file, a run's equivalences are counted one short, or the subtraction underflows |
| EquivRel.CountEquivalencesOfWrittenFile | cornelius/src/util.rs:115-132 | the intended count of a written file is the run's number of equivalences |
| EquivRel.WrittenFileUndercounts | cornelius/src/util.rs:130-132 | a run with the classes `{0}` and `{1, 2}` has one equivalence; its file `1 2` plus a line break reads back with `num_equivalences` 0, and the corrected count gives 1 |
| EquivRel.WrittenFileUnderflows | cornelius/src/util.rs:130-132 | a run with the classes `{1}` and `{2}` is written as `1`, line break, `2`, line break, which reads back as two elements in three classes, so `num_equivalences` underflows while the corrected count gives 0 |
| EquivRel.ThreeClassesText | cornelius/src/util.rs:34 | the text `0 1 2`, bar, `3 4`, bar, `5 6 7` parses to its three classes |
| EquivRel.LookupExample | cornelius/src/util.rs:34-42 | on that relation `lookup` finds each element's class and nothing for other ids |
| EquivRel.NumEquivalencesExample | cornelius/src/util.rs:125-126 | that relation has 5 equivalences |
| Subjects.ParseIds | cornelius/src/subjects.rs:95-101 | the children parse exactly when every token after the operator is a decimal `u32`, and then each child is that token's value, in order |
| Subjects.ParseApplication | cornelius/src/subjects.rs:93-102 | an application body splits at single spaces into the operator and the child ids; it succeeds exactly when every child token parses and otherwise panics, never returning `Err` |
| Subjects.ParseEntryErrors | cornelius/src/subjects.rs:77-92 | an entry is refused with `Err` exactly for an unclosed parenthesis or an unclosed quote of more than one character; a lone `"` panics on its slice; a closed quote is a symbol holding whatever was between the quotes |
| Subjects.ApplicationExamples | cornelius/src/subjects.rs:93-101 | a bare operator is an application with no children, and two spaces in a row yield an empty token whose `u32` parse panics |
| Subjects.MapRun | cornelius/src/subjects.rs:38-42 | a loop with `?` succeeds exactly when every step does, keeps the results in order, and otherwise returns the first failure |
| Subjects.ComputeRecExpr | cornelius/src/subjects.rs:34-45 | the RecExpr holds one node per id-table entry, in table order, and fails with the failure of the first entry that cannot be parsed |
| Subjects.GroupIndex | cornelius/src/subjects.rs:336-344 | the lookup of a canonical id in `rev_can_id_lookup` finds an entry with that key, and reports none exactly when no entry has it |
| Subjects.GroupByGroups | cornelius/src/subjects.rs:326-345 | after inserting every tagged member, each member sits in the group of its canonical id, and every group holds only the members tagged with its key |
| Subjects.ScoreIsEquivalences | cornelius/src/subjects.rs:350-355 | the score adds the size of each class less one, the number of equivalences the classes define |
| Subjects.GroupByScore | cornelius/src/subjects.rs:306-312 | the classes are non-empty and partition the members, the score plus the number of classes is the number of members, and the score agrees with `EqRel` counting on the same classes |
| Subjects.GroupBySameClass | cornelius/src/subjects.rs:326-345 | two tagged members land in the same class exactly when their canonical ids agree |
| Subjects.MutantTags | cornelius/src/subjects.rs:337-345 | every mutant's PEG id is parsed, mapped through `id_update` and canonicalised; the pass panics exactly when one of these steps fails for some mutant |
| Subjects.TagsDistinct | cornelius/src/subjects.rs:335-345 | with distinct mutant ids, the original (member 0) and the mutants are distinct members |
| Subjects.AnalyzeSubjectPanics | cornelius/src/subjects.rs:314-362 | `analyze_subject` panics exactly when the subject's or some mutant's PEG id is malformed or unloaded, and otherwise changes nothing but the analysis result |
| Subjects.AnalyzeSubjectScore | cornelius/src/subjects.rs:346-361 | the classes are non-empty and disjoint, the score is the number of mutants plus one minus the number of classes, never more than the number of mutants, and it equals the `EqRel` count of the classes |
| Subjects.OriginalSharesClass | cornelius/src/subjects.rs:325-345 | the original and a mutant share a class exactly when their PEGs have the same canonical id in the e-graph |
| Subjects.MutantsShareClass | cornelius/src/subjects.rs:337-345 | two mutants share a class exactly when their PEGs have the same canonical id in the e-graph |
| Subjects.AnalyzeAll | cornelius/src/subjects.rs:277-301 | the subjects are analysed in order, each independently; the run completes exactly when no subject's analysis panics |
| Subjects.NumMutants | cornelius/src/subjects.rs:47-53 | the count is the number of mutants over all subjects |
| Subjects.RenameAgree | cornelius/src/subjects.rs:231-235 | renaming a node's children depends only on the entries for those children |
| Subjects.Load | cornelius/src/subjects.rs:218-242 | loading the RecExpr into the e-graph fails its `assert!` exactly when some child does not precede its parent; otherwise every index is mapped to the canonical id of its renamed node after it was added |
| Config.WithIterLimit | cornelius/src/config.rs:31-38 | only the iteration limit changes, and 0 means `usize::MAX` |
| Config.WithTimeLimit | cornelius/src/config.rs:40-43 | only the time limit changes, to the given seconds |
| Config.WithNodeLimit | cornelius/src/config.rs:45-52 | only the node limit changes, and 0 means `usize::MAX` |
| Config.WithVerbosity | cornelius/src/config.rs:54-57 | only the verbosity flag changes |
| Config.WithRunDetails | cornelius/src/config.rs:59-62 | only the run-details flag changes |
| Config.WithIterDetails | cornelius/src/config.rs:64-67 | only the iteration-details flag changes |
| Config.WithWriteToSingleFile | cornelius/src/config.rs:69-72 | only the single-file flag changes |
| Config.WithStopOnError | cornelius/src/config.rs:74-77 | only the stop-on-error flag changes |
| Config.FromArgs | cornelius/src/config.rs:104-116 | every setting of the run comes from the command line, the two limits are never 0, and an argument of 0 lifts its limit |
| Config.LimitMeaning | cornelius/src/config.rs:31-52 | a limit of 0 admits every count below `usize::MAX`; any other limit admits exactly the counts below it; normalising twice changes nothing |
| Config.BuildersOverride | cornelius/src/config.rs:31-52 | a later call to the same builder overrides an earlier one, and builders of different settings commute |
| Config.DefaultArgsDiffer | cornelius/src/cli.rs:12-46 | the command line's defaults give the default configuration except that the single-file flag is off, where `RunConfig::default` has it on |
| Config.FromArgsIgnores | cornelius/src/config.rs:104-116 | the Java files and the no-equiv-files flag have no effect on the configuration |
| Config.FromArgsOnto | cornelius/src/config.rs:104-116 | the configurations reachable from the command line are exactly those whose two limits are non-zero |
| GlobalData.HandleStopReason | cornelius/src/global_data.rs:18-31 | a stop reason increments exactly the counter of its kind, and no stop reason changes nothing |
| GlobalData.AddDiscoveredEquivalences | cornelius/src/global_data.rs:33-35 | only the equivalence count changes, growing by the given number |
| GlobalData.AddSubjects | cornelius/src/global_data.rs:37-39 | only the subject count changes, growing by the given number |
| GlobalData.IncSubjectsFiles | cornelius/src/global_data.rs:41-43 | only the subjects-file count changes, growing by one |
| GlobalData.AddMutants | cornelius/src/global_data.rs:45-47 | only the mutant count changes, growing by the given number |
| GlobalData.TallyCounts | cornelius/src/global_data.rs:18-31 | handling a run of stop reasons avoids a `u32` overflow exactly when no kind occurs more than `u32::MAX` times, and then each counter holds the number of reasons of its kind |
| Delta.Chunks | src/delta.rs:23-24 | the chunks concatenate back to the configuration, and each holds between one element and the chunk size |
| Delta.DdMin2 | src/delta.rs:12-49 | the result is a non-empty subsequence of the input; a failing input gives a failing result; and the result is 1-minimal, or a single failing element |
| Delta.Dd | src/delta.rs:51-57 | with fewer than two elements `dd` panics; otherwise it returns what `ddmin2` from granularity 2 does |
| Delta.AllComplementsPass | src/delta.rs:36-48 | when every piece is one element and every complement passes, the configuration is 1-minimal |
| Delta.AvoidOne | src/delta.rs:72-91 | when the oracle fails exactly on configurations containing `x`, `dd` returns `[x]` |
| Delta.AllSatisfy | src/delta.rs:93-104 | when the oracle asks every element to be acceptable, `dd` returns one unacceptable element |
| Delta.AvoidPair | src/delta.rs:106-117 | when the oracle fails exactly on configurations holding both `x` and `y`, `dd` returns two elements, `x` and `y` |
| LegacyExpr.Make | src/expr.rs:70-85 | the prototype's first analysis records a number literal as the class's constant and a `var` node as its variable, and nothing for any other node, booleans included |
| LegacyExpr.MakeVersusPegPrototype | src/expr.rs:70-85 | on variables and numbers the first analysis agrees with the later prototype's; it drops the constant of a boolean literal, and any constant it records the later one records too |
| LegacyExpr.MergeMadeData | src/expr.rs:51-69 | merging a new node's data keeps a class's existing constant and variable, adopts a number or variable the class lacked, and reports a change exactly when it adopted something |
| LegacyExpr.ConstsMembers | src/expr.rs:305-317 | the nodes `apply_one` iterates over are exactly the class's number and boolean literals |
| LegacyExpr.ApplyOne | src/expr.rs:301-324 | `apply_one` returns the id of the fold of every pair of constant nodes of the two classes, the left node in the outer loop |
| LegacyExpr.ApplyRow | src/expr.rs:311-321 | the inner loop returns the ids of the folds of one left node with each constant node of the right class, in order |
| LegacyExpr.ApplyOneResult | src/expr.rs:301-324 | `apply_one` returns one id per pair of constant nodes, none when either class has no constant node, and its ids are exactly those of folds of such pairs |
| LegacyExpr.ResultIsFold | src/expr.rs:301-324 | every id `apply_one` returns is the id of the fold of a pair of constant nodes of the two classes |
| LegacyExpr.FoldIsResult | src/expr.rs:301-324 | the id of the fold of every pair of constant nodes of the two classes is among those `apply_one` returns |
| LegacyExpr.UnguardedPropagationPanics | src/expr.rs:374-455 | the applier's constant test admits booleans but `plus` does not, `equal` refuses a number against a boolean, `div` refuses a zero divisor, and the first language has no `error` node |
| LegacyExpr.MakeSubject | src/expr.rs:534-551 | the first input is the original and the rest are the mutants, in order, with their ids |
| LegacyExpr.MakeSubjectRoundTrip | src/expr.rs:534-551 | making a subject loses only the original's id: listing a made subject's inputs gives them back, and making a subject from its inputs gives the subject |
| LegacyPeg.AsInt | src/peg.rs:75-80 | a class's constant reads as an `i32` exactly when it is a number literal, and then it is that number |
| LegacyPeg.Apply | src/peg.rs:132-272 | the tests give a boolean and the rest a number; `+`, `-`, `*` and `/` give the exact result; `srshift` shifts the 32-bit pattern with zeros; `urshift` keeps the sign; `lshift` drops the bits shifted out |
| LegacyPeg.FoldsAgreeWithCornelius | src/peg.rs:132-272 | where a prototype fold returns, the later fold of the same name gives the same literal, except that the two right shifts swap; where the prototype panics, the later folds wrap, give `error` or give no constant |
| LegacyPeg.ArithmeticFoldsAgree | src/peg.rs:132-212 | without overflow, the prototype's `plus`, `minus` and `mult` fold to the same literal as the later ones |
| LegacyPeg.OtherFoldsAgree | src/peg.rs:140-272 | on their domain, the prototype's division, tests, bitwise and boolean folds give the same literal as the later ones, left shift included |
| LegacyPeg.ShiftFoldsAgree | src/peg.rs:230-248 | the prototype's `urshift` is the later `srshift`, and the later `urshift` never folds |
| LegacyPeg.PanicsFoldInCornelius | src/peg.rs:132-212 | where the prototype panics on an overflow, a zero divisor or a number against a boolean, the later folds wrap, give `error` or give no constant |
| LegacyPeg.ShiftNamesSwapped | src/peg.rs:230-248 | the prototype's two right shifts agree on non-negative values and differ on every negative value shifted by a positive distance |
| LegacyPeg.SRShiftExample | src/peg.rs:230-240 | `srshift` of -8 by 1 is 2147483644 |
| LegacyPeg.URShiftExample | src/peg.rs:242-248 | `urshift` of -8 by 1 is -4 |
| LegacyPeg.NequalNegatesEqual | src/peg.rs:140-156 | `nequal` is defined exactly where `equal` is and negates it; `equal` compares values and is symmetric |
| LegacyPeg.Eval | src/peg.rs:294-347 | literals are their own constant; any other constant is a literal or `error`; only `+`, `-`, `*`, `/` and unary `-` can panic |
| LegacyPeg.EvalAgreesWithFolds | src/peg.rs:300-318 | on two number constants with a nonzero divisor, `eval` folds exactly where the fold of the same operator returns, to the same literal, and panics where that fold would |
| LegacyPeg.DivisionByKnownZero | src/peg.rs:303-310 | a division by a class whose constant is 0 is `error` even when the dividend has no constant, where the later `eval` gives none |
| LegacyPeg.ComparisonsFold | src/peg.rs:315-343 | the orderings fold exactly when both constants are numbers, `==` and `!=` exactly when both are constants of either kind, and `!=` negates `==` |
| LegacyPeg.EvalAgreesWithCornelius | src/peg.rs:300-318 | where the prototype's `eval` folds `+`, `-`, `*` or an ordering, the later `eval` gives the same constant, and where it panics on overflow the later one still folds |
| LegacyPeg.Make | src/peg.rs:355-361 | a `var` node records itself as the variable; any other node records its `eval` constant when it has one |
| LegacyPeg.Modify | src/peg.rs:363-368 | a class with a constant gains that literal as a node and keeps its data; a class without one is unchanged |
| LegacyPeg.ModifyIsStable | src/peg.rs:349-368 | the literal `modify` adds is a node whose own data merges into the class without change, so `modify` is stable after one step |
| LegacyPeg.MadeConstantsAreLiterals | src/peg.rs:294-361 | what `make` records as a constant is a well-formed literal or `error`, something `modify` can add |
| LegacySubjects.ParseEntry | src/subjects.rs:57-78 | the prototype never reads a quoted symbol; an entry is refused with `Err` exactly for an unclosed parenthesis |
| LegacySubjects.ParseEntryAsCornelius | src/subjects.rs:57-78 | on entries that do not start with a quote the prototype parses as the later version does |
| LegacySubjects.QuotedSymbolPanics | src/subjects.rs:68-76 | a quoted symbol with a space, which the later version reads as a symbol, makes the prototype panic on a `u32` parse |
| LegacySubjects.EntryNode | src/subjects.rs:34-36 | an entry's node is what `from_op_str` makes of its operator and children, and a parse failure is passed on |
| LegacySubjects.ComputeRecExpr | src/subjects.rs:29-39 | the RecExpr holds one node per entry, in order, and fails with the failure of the first entry that cannot be parsed |
| LegacySubjects.PegId | src/subjects.rs:236-248 | a PEG id reads exactly when it is a decimal `u32`, and otherwise the `unwrap` panics |
| LegacySubjects.Tags | src/subjects.rs:235-255 | the original is member 0 and each mutant its Major id, each tagged with the canonical id of its PEG; the pass panics exactly when some PEG id does not read |
| LegacySubjects.Analyze | src/subjects.rs:224-278 | analysing a subject panics exactly when some PEG id does not read, and it always returns an empty list of classes |
| LegacySubjects.AnalyzeScore | src/subjects.rs:257-261 | with distinct mutant ids, the score is the number of members minus the number of distinct canonical ids, so at most the number of mutants |
| LegacySubjects.AnalyzeAsCornelius | src/subjects.rs:224-278 | under the identity renaming, where the prototype's analysis completes, the later one completes with the same score |
| LegacySubjects.TagsAsCornelius | src/subjects.rs:231-255 | under the identity renaming the later version tags the members exactly as the prototype does |
| LegacySubjects.RunOnSubjects | src/subjects.rs:182-211 | the first failing entry of the id table ends the run; otherwise every subject is analysed in order against the saturated e-graph, and the run panics exactly when some analysis does |
| PegNodes.Clear | serializer/src/main/java/serializer/peg/PegNode.java:27-32 | after `clear` no id is stored and every cache is empty, so the table is consistent |
| PegNodes.IdLookup | serializer/src/main/java/serializer/peg/PegNode.java:16-18 | in a consistent table a lookup finds a node exactly for a stored id, and the node it finds carries that id |
| PegNodes.FirstBadChild | serializer/src/main/java/serializer/peg/PegNode.java:45-49 | the constructor's check finds a child exactly when some child id is not below the new node's id |
| PegNodes.NewNode | serializer/src/main/java/serializer/peg/PegNode.java:43-52 | a new node takes the next id whatever happens; it throws `IllegalStateException` exactly when a child id is not below its own, and otherwise it is stored under its id |
| PegNodes.OpNodeOf | serializer/src/main/java/serializer/peg/PegNode.java:463-469 | `opNode` returns the cached node for a known symbol and children without touching the table, and builds a new node otherwise |
| PegNodes.LiteralOf | serializer/src/main/java/serializer/peg/PegNode.java:475-494 | a literal is cached by its value: a known value returns the cached node, a new one takes the next id |
| PegNodes.BlankOf | serializer/src/main/java/serializer/peg/PegNode.java:496-498 | `blank` always makes a new node with the next id |
| PegNodes.SpecialOf | serializer/src/main/java/serializer/peg/PegNode.java:508-521 | a cached theta or heap node of the right class is returned; a cached node of another class makes the call throw; a miss builds a new node |
| PegNodes.HeapOf | serializer/src/main/java/serializer/peg/PegNode.java:596-609 | a null state or status throws; otherwise `heap` is the cached-or-new heap node over the state and the status |
| PegNodes.HeapOfIsHeap | serializer/src/main/java/serializer/peg/PegNode.java:596-609 | every node `heap` returns is a heap over the given state and status |
| PegNodes.HeapHashConsed | serializer/src/main/java/serializer/peg/PegNode.java:596-609 | asking for the same heap again returns the same node and leaves the table alone |
| PegNodes.WithState | serializer/src/main/java/serializer/peg/PegNode.java:427-429 | replacing a heap's state gives a heap |
| PegNodes.WithStatus | serializer/src/main/java/serializer/peg/PegNode.java:431-433 | replacing a heap's status gives a heap |
| PegNodes.WrHeapOf | serializer/src/main/java/serializer/peg/PegNode.java:623-625 | a write to the heap gives a heap |
| PegNodes.InitialHeapOf | serializer/src/main/java/serializer/peg/PegNode.java:619-621 | the initial heap is a heap |
| PegNodes.OpNodeIdempotent | serializer/src/main/java/serializer/peg/PegNode.java:463-469 | asking `opNode` again for the same symbol and children returns the same node and consumes no id |
| PegNodes.OpNodeFresh | serializer/src/main/java/serializer/peg/PegNode.java:463-469 | a miss whose children are all older makes exactly one node, with the next id |
| PegNodes.OpNodeRejectsYoungChild | serializer/src/main/java/serializer/peg/PegNode.java:43-49 | a miss with a child at or above the next id throws after the counter has advanced |
| PegNodes.LiteralCached | serializer/src/main/java/serializer/peg/PegNode.java:475-494 | asking for the same literal again returns the first node |
| PegNodes.BlanksAreFresh | serializer/src/main/java/serializer/peg/PegNode.java:496-498 | two blanks are two different nodes |
| PegNodes.ClearRestartsIds | serializer/src/main/java/serializer/peg/PegNode.java:27-32 | after `clear` ids start again from 0 |
| PegNodes.Replace | serializer/src/main/java/serializer/peg/PegNode.java:695-698 | `replace` makes the blank's id look up the value's node, or nothing when the value is unknown, and changes no other id, the counter or the caches |
| PegNodes.ReplaceValid | serializer/src/main/java/serializer/peg/PegNode.java:695-698 | `replace` keeps the table well formed |
| PegNodes.EqualsIsIdentity | serializer/src/main/java/serializer/peg/PegNode.java:340-350 | in a consistent table two stored nodes are `equals` exactly when they are the same node |
| PegNodes.Strs | serializer/src/main/java/serializer/peg/PegNode.java:326-329 | each child id is written in decimal, in order |
| PegNodes.ShowOpRoundTrip | serializer/src/main/java/serializer/peg/PegNode.java:319-332 | reading back `toString` of an operator node gives its symbol and children |
| PegNodes.ExitConditions | serializer/src/main/java/serializer/peg/PegNode.java:674-693 | a null condition makes `exitConditions` throw; otherwise it is the combination of the conditions |
| PegNodes.ExitConditionsOf | serializer/src/main/java/serializer/peg/PegNode.java:680-693 | no condition gives the literal `false` |
| PegNodes.ExitConditionsChain | serializer/src/main/java/serializer/peg/PegNode.java:674-693 | stored conditions combine without error: none give `false`, one gives itself, and more give the chain of `or` nodes over their ids in ascending order |
| PegNodes.ExitConditionsNull | serializer/src/main/java/serializer/peg/PegNode.java:675-679 | a null condition makes `exitConditions` throw and leaves the table alone |
| PegContexts.Lookup | serializer/src/main/java/serializer/peg/PegContext.java:100-102 | a key is found exactly when it is among the map's keys, and the value found is its entry |
| PegContexts.Without | serializer/src/main/java/serializer/peg/PegContext.java:125-130 | dropping a key removes it and keeps every other key's entry |
| PegContexts.SetLocalVar | serializer/src/main/java/serializer/peg/PegContext.java:119-135 | a null key or value throws `IllegalArgumentException`; otherwise the key maps to the value, every other key keeps its entry, keys stay unique and nothing else in the context changes |
| PegContexts.GetLocalVar | serializer/src/main/java/serializer/peg/PegContext.java:99-111 | a local is returned as it is, and a name that is neither a local, `this` nor a field is `unit` |
| PegContexts.ThisResolves | serializer/src/main/java/serializer/peg/PegContext.java:103-105 | `this` without a local of that name is a two-child `var` node |
| PegContexts.FieldResolves | serializer/src/main/java/serializer/peg/PegContext.java:106-109 | an unshadowed field is a `rd` of a path in the context's heap |
| PegContexts.GetLocalVarResolves | serializer/src/main/java/serializer/peg/PegContext.java:99-111 | `getLocalVar` tries a local, then `this`, then an unshadowed field, then gives `unit`, building only nodes whose children are already stored |
| PegContexts.SetThenGet | serializer/src/main/java/serializer/peg/PegContext.java:90-135 | after setting a key, looking it up gives the value, and a field of that name is shadowed |
| PegContexts.AddNode | serializer/src/main/java/serializer/peg/PegContext.java:199-203 | adding to the exit conditions keeps the old ones in order, adds the new one and nothing else |
| PegContexts.AddAll | serializer/src/main/java/serializer/peg/PegContext.java:62-64 | adding a sequence of conditions keeps the old ones and adds each new one and nothing else |
| PegContexts.WithExitCondition | serializer/src/main/java/serializer/peg/PegContext.java:199-205 | the new condition is present, the old ones stay, no other condition appears, and nothing else in the context changes |
| PegContexts.WithHeap | serializer/src/main/java/serializer/peg/PegContext.java:186-188 | only the heap changes |
| PegContexts.WithReturnNode | serializer/src/main/java/serializer/peg/PegContext.java:26-28 | only the return node changes |
| PegContexts.WithTypeMap | serializer/src/main/java/serializer/peg/PegContext.java:190-192 | only the type map changes |
| PegContexts.WithersCommute | serializer/src/main/java/serializer/peg/PegContext.java:186-205 | setting the heap commutes with adding an exit condition and with setting the return node |
| PegContexts.WithExceptionCondition | serializer/src/main/java/serializer/peg/PegContext.java:213-233 | raising keeps the context but for a new heap and the added exit condition |
| PegContexts.ExceptionUnitStatus | serializer/src/main/java/serializer/peg/PegContext.java:216-218 | with no exception raised yet the heap status becomes `phi(cond, exc, unit)` and its state is kept |
| PegContexts.ExceptionPendingStatus | serializer/src/main/java/serializer/peg/PegContext.java:224-231 | with an exception possibly raised, the new status keeps the old one whenever it is not `unit`, and the state is kept |
| PegContexts.SharedKeys | serializer/src/main/java/serializer/peg/PegContext.java:54-55 | the domain of `combine` is exactly the keys both contexts map |
| PegContexts.Combine | serializer/src/main/java/serializer/peg/PegContext.java:52-79 | a combined context is over a heap and keeps the first context's fields and type map |
| PegContexts.CombinedHeap | serializer/src/main/java/serializer/peg/PegContext.java:57-60 | the combined heap is a heap |
| PegContexts.CombineMerges | serializer/src/main/java/serializer/peg/PegContext.java:52-79 | `combine` maps exactly the shared keys, each to the `phi` of the guard over the two values; its heap is the `phi` of the two states and of the two statuses; its exit conditions are the union; it keeps the one return node |
| PegContexts.CombineInvalidReturn | serializer/src/main/java/serializer/peg/PegContext.java:66 | two return nodes make `combine` throw `InvalidReturn` |
| PegContexts.PerformAssignLocalVar | serializer/src/main/java/serializer/peg/PegContext.java:144-149 | without exit conditions an assignment is `setLocalVar`; in every case only the locals change |
| PegContexts.AssignUnderExits | serializer/src/main/java/serializer/peg/PegContext.java:144-149 | under exit conditions the stored value is a `phi` whose else branch is the new value, and other keys keep theirs |
| PegContexts.InitWithParamsBinds | serializer/src/main/java/serializer/peg/PegContext.java:268-284 | the entry context binds every parameter, in order, to its `var` node, with a heap, no exit conditions, no return node and the given fields and type map |
| PegContexts.InitWithParamsDuplicate | serializer/src/main/java/serializer/peg/PegContext.java:271-275 | a parameter named twice makes the map builder throw `IllegalArgumentException` |
| PegContexts.AsPegPairs | serializer/src/main/java/serializer/peg/PegContext.java:290-295 | the method's result pairs the return value, or `unit` when there is none, with the final heap |
| PegContexts.SortedLocals | serializer/src/main/java/serializer/peg/PegContext.java:310-320 | the locals are listed by ascending name, each once, each with its value |
| ExpressionResults.WithHeapOf | serializer/src/main/java/serializer/peg/ExpressionResult.java:34-41 | only the context's heap changes; the value and the rest of the context are kept |
| ExpressionResults.WithContext | serializer/src/main/java/serializer/peg/ExpressionResult.java:43-50 | only the context changes |
| ExpressionResults.WithPeg | serializer/src/main/java/serializer/peg/ExpressionResult.java:52-59 | only the value changes |
| ExpressionResults.WithExitConditionOf | serializer/src/main/java/serializer/peg/ExpressionResult.java:61-69 | the value is kept, the condition is added to the exit conditions, the old ones stay and nothing else changes |
| ExpressionResults.WithExceptionConditionOf | serializer/src/main/java/serializer/peg/ExpressionResult.java:71-73 | the value is kept and the context is the context's own `withExceptionCondition` |
| ExpressionResults.WithersLaws | serializer/src/main/java/serializer/peg/ExpressionResult.java:34-59 | a later `withPeg` overrides an earlier one, `withPeg` commutes with the other withers, and setting a part to what it already is changes nothing |
| ExpressionResults.ExceptionConditionRaises | serializer/src/main/java/serializer/peg/ExpressionResult.java:71-73 | from the `unit` status the result's heap status is the raised `phi` and the condition is added |
| PegExprVisitor.AsInteger | serializer/src/main/java/serializer/peg/PegNode.java:66-68 | a node has an `int` value exactly when it is an `int` literal, and the value is that literal's |
| PegExprVisitor.AsBoolean | serializer/src/main/java/serializer/peg/PegNode.java:70-72 | a node has a boolean value exactly when it is a boolean literal, and the value is that literal's |
| PegExprVisitor.JavaIntOp | serializer/src/main/java/serializer/peg/PegExprVisitor.java:121-146 | `+`, `-` and `*` agree with the exact result modulo 2^32, `/` with the quotient truncated toward zero modulo 2^32, and `%` leaves the remainder of that truncated quotient |
| PegExprVisitor.JavaIntOpAgrees | serializer/src/main/java/serializer/peg/PegExprVisitor.java:121-160 | folding agrees with the evaluator's `int` arithmetic wherever that is defined, and `MIN % -1` folds to 0 |
| PegExprVisitor.ComplementInvolutive | serializer/src/main/java/serializer/peg/PegExprVisitor.java:204-208 | `~` undoes itself, never maps a value to itself, and flips the sign |
| PegExprVisitor.HandleBinExpr | serializer/src/main/java/serializer/peg/PegExprVisitor.java:43-173 | every operator except `or` and `and` yields its value in the right operand's context, and the heap stays a heap |
| PegExprVisitor.DivByZeroCheck | serializer/src/main/java/serializer/peg/PegExprVisitor.java:18-31 | the division check keeps the operand's PEG and only adds an exception condition to its context |
| PegExprVisitor.IntegerLiteralOf | serializer/src/main/java/serializer/peg/PegExprVisitor.java:286-291 | digits that parse give that `int` literal, and digits that do not give an IllegalStateException naming the literal |
| PegExprVisitor.Base | serializer/src/main/java/serializer/peg/PegContext.java:171-176 | the base of a field chain is not a field access and is a proper part of the chain |
| PegExprVisitor.DerefLoopJoins | serializer/src/main/java/serializer/peg/PegContext.java:168-175 | the corrected dereference loop over a chain gives the chain's field names joined by dots |
| PegExprVisitor.DerefsJoinFields | serializer/src/main/java/serializer/peg/PegContext.java:165-177 | the corrected path of `base.f1...fn` names every field, in order, separated by dots |
| PegExprVisitor.DerefsAsWrittenDoubles | serializer/src/main/java/serializer/peg/PegContext.java:168-175 | as written, one field gives the right path, but `x.a.b` gives `.bb` where `a.b` is meant |
| PegExprVisitor.WriteThrough | serializer/src/main/java/serializer/peg/PegContext.java:151-158 | a write keeps the path as its value and changes nothing in the context but the heap |
| PegExprVisitor.Visit | serializer/src/main/java/serializer/peg/PegExprVisitor.java:14-332 | a visit that returns leaves a heap and keeps the field names and the type map |
| PegExprVisitor.PerformSideEffectingUnary | serializer/src/main/java/serializer/peg/PegExprVisitor.java:221-243 | a postfix increment or decrement yields the operand's old value |
| PegExprVisitor.PerformAssign | serializer/src/main/java/serializer/peg/PegExprVisitor.java:433-452 | a target that is neither a name nor a field access throws UnrecognizedAssignmentTarget, and a field access yields the assigned value |
| PegExprVisitor.VisitDeclarators | serializer/src/main/java/serializer/peg/PegExprVisitor.java:246-252 | declarators are visited in order and keep the field names and the type map |
| PegExprVisitor.VisitDeclarator | serializer/src/main/java/serializer/peg/PegExprVisitor.java:255-265 | a declarator keeps the field names and the type map |
| PegExprFacts.CombineIsMerged | serializer/src/main/java/serializer/peg/PegContext.java:52-79 | combining two contexts keeps only the locals both have, each bound to the `phi` of the two under the guard, and the heap's state and status become `phi` nodes of the two heaps' |
| PegExprFacts.OrTranslation | serializer/src/main/java/serializer/peg/PegExprVisitor.java:48-59 | `a or b` over two boolean literals folds to their disjunction in the right operand's context, and otherwise merges the two contexts under `a` |
| PegExprFacts.AndTranslation | serializer/src/main/java/serializer/peg/PegExprVisitor.java:60-68 | `a and b` over two boolean literals folds to their conjunction, and otherwise merges the right context, taken when `a` holds, with the left |
| PegExprFacts.PhiThenCombine | serializer/src/main/java/serializer/peg/PegExprVisitor.java:56-67 | the `phi` of a short-circuit operator followed by the merge grows the table and yields the merged context |
| PegExprFacts.DivisionTranslation | serializer/src/main/java/serializer/peg/PegExprVisitor.java:142-169 | two literals fold with Java's truncating division when the divisor is not zero and give `unit` when it is; otherwise the value is `phi(b == 0, unit, a op b)` |
| PegExprFacts.DivisionGuarded | serializer/src/main/java/serializer/peg/PegExprVisitor.java:152-154 | over an operand that is not a literal the value is the guarded quotient in the right operand's context |
| PegExprFacts.GuardedQuotient | serializer/src/main/java/serializer/peg/PegExprVisitor.java:166-168 | the guarded quotient is a `phi` over the test `b == 0`, `unit` and `a op b` |
| PegExprFacts.DivByZeroRaises | serializer/src/main/java/serializer/peg/PegExprVisitor.java:18-31 | with no exit condition pending, `b == 0` becomes the one exit condition and the heap status raises DivideByZeroError under it |
| PegExprFacts.RaisedUnder | serializer/src/main/java/serializer/peg/PegContext.java:213-233 | adding the first exception condition to a context whose status is `unit` raises the exception under that condition |
| PegExprFacts.FirstRaised | serializer/src/main/java/serializer/peg/PegContext.java:213-233 | the first exit condition raised from the `unit` status is the only one, and the heap's state is kept |
| PegExprFacts.DivByZeroNodes | serializer/src/main/java/serializer/peg/PegExprVisitor.java:20-30 | the division check makes the literal 0, the test `b == 0` and the exception node |
| PegExprFacts.DivisionChain | serializer/src/main/java/serializer/peg/PegExprVisitor.java:152-154 | the steps of the guarded quotient thread one table through to the next |
| PegExprFacts.DivByZeroChain | serializer/src/main/java/serializer/peg/PegExprVisitor.java:20-29 | the steps of the division check thread one table through to the next when no exit condition is pending |
| PegExprFacts.IntFoldWraps | serializer/src/main/java/serializer/peg/PegExprVisitor.java:69-140 | two `int` literals under bitwise and, or and xor, plus, minus or times fold to Java's 32-bit result in the right operand's context |
| PegExprFacts.ComparisonsNeverFold | serializer/src/main/java/serializer/peg/PegExprVisitor.java:93-120 | equality, inequality, the comparisons and the shifts never fold, even over two equal literals |
| PegExprFacts.PathCached | serializer/src/main/java/serializer/peg/PegContext.java:165-177 | the path of a field access is the node cached for its base and dereference string |
| PegExprFacts.WriteThroughMade | serializer/src/main/java/serializer/peg/PegContext.java:151-158 | a write makes the heap's state the `wr` node over the path, the value and the old heap, and keeps its status |
| PegExprFacts.LocalAssign | serializer/src/main/java/serializer/peg/PegExprVisitor.java:433-442 | assigning a name that is not an unshadowed field binds it to the value, leaves every other local, and yields the value |
| PegExprFacts.ImplicitFieldAssign | serializer/src/main/java/serializer/peg/PegExprVisitor.java:437-440 | assigning a name that is an unshadowed field writes through `this` and yields the path |
| PegExprFacts.WritePath | serializer/src/main/java/serializer/peg/PegContext.java:151-177 | a write through `path(base, derefs)` updates the heap's state and yields the path |
| PegExprFacts.FieldAssign | serializer/src/main/java/serializer/peg/PegExprVisitor.java:443-445 | assigning `scope.field` writes through its path and yields the value |
| PegExprFacts.FieldTarget | serializer/src/main/java/serializer/peg/PegContext.java:165-177 | a field-access target is written through the dereference string of its chain, as written or as intended |
| PegExprFacts.TwoFieldWrite | serializer/src/main/java/serializer/peg/PegContext.java:168-175 | `this.a.b = v` writes to `.bb` as written and to `a.b` as intended, and the two always differ |
| PegExprFacts.VisitLocal | serializer/src/main/java/serializer/peg/PegExprVisitor.java:299-301 | a local name visits to the node it holds, with the context unchanged |
| PegExprFacts.VisitIntLiteral | serializer/src/main/java/serializer/peg/PegExprVisitor.java:286-291 | the decimal text of a non-negative `int` visits to that literal |
| PegExprFacts.CompoundAssignAsWritten | serializer/src/main/java/serializer/peg/PegExprVisitor.java:268-273 | as written, `x op= n` leaves `x` holding `n`, whatever `op` is |
| PegExprFacts.CompoundAssignIntended | serializer/src/main/java/serializer/peg/PegExprVisitor.java:268-273 | as intended, `x op= n` leaves `x` holding `a op n` in Java's `int` arithmetic |
| PegExprFacts.PlusOneDiffers | serializer/src/main/java/serializer/peg/PegExprVisitor.java:268-273 | `x += 1` gives 1 as written and `a + 1` as intended, and these differ unless `a` is 0 |
| PegExprFacts.ParseDecimal | serializer/src/main/java/serializer/peg/Util.java:162-170 | unsigned digits parse exactly when they are below 2^31, and with a minus exactly when they are at most 2^31, to that value |
| PegExprFacts.IntegerLiterals | serializer/src/main/java/serializer/peg/PegExprVisitor.java:176-184 | a literal below 2^31 gives its value, and 2^31 behind a minus gives `Integer.MIN_VALUE`; larger literals give the error naming the digits |
| PegExprFacts.PlainLiteral | serializer/src/main/java/serializer/peg/PegExprVisitor.java:286-291 | an unsigned literal gives its value when it fits an `int` and the error otherwise |
| PegExprFacts.NegatedLiteral | serializer/src/main/java/serializer/peg/PegExprVisitor.java:177-184 | a negated literal gives its negative when that fits an `int` and the error otherwise |
| PegExprFacts.UnaryFolds | serializer/src/main/java/serializer/peg/PegExprVisitor.java:197-210 | `!` over a boolean literal folds to its negation and `~` over an `int` literal to its complement |
| PegExprFacts.UnaryBuilds | serializer/src/main/java/serializer/peg/PegExprVisitor.java:186-209 | over operands that do not fold, `-`, `!` and `~` build their node, and `+` gives the operand back |
| PegExprFacts.IncDecLocal | serializer/src/main/java/serializer/peg/PegExprVisitor.java:221-243 | increments and decrements bind a local to its value plus or minus 1; prefix forms yield the new value and postfix forms the old one |
| PegExprFacts.ConditionalSelects | serializer/src/main/java/serializer/peg/PegExprVisitor.java:311-314 | a literal condition selects its branch together with that branch's context |
| PegExprFacts.ConditionalMerges | serializer/src/main/java/serializer/peg/PegExprVisitor.java:315-316 | any other condition gives `phi(cond, thn, els)` over the two branch contexts merged under the condition |
| PegExprFacts.FieldReadValue | serializer/src/main/java/serializer/peg/PegExprVisitor.java:325-332 | `o.f` reads `rd(path(o, f), heap)` over the heap from before the read |
| PegExprFacts.FieldReadRaises | serializer/src/main/java/serializer/peg/PegExprVisitor.java:325-332 | `o.f` with no exit condition pending makes `isnull?(o)` the one exit condition and raises NullPointerException under it |
| PegExprFacts.RdKeepsRaised | serializer/src/main/java/serializer/peg/PegExprVisitor.java:331 | making the `rd` node leaves a raised exception where it was |
| SerializerUtil.TypeEntry | serializer/src/main/java/serializer/peg/Util.java:87-113 | a class type is named without its scope, a varargs parameter gets `[]`, and an array of a class type is the class's simple name with `[]` |
| SerializerUtil.TypeEntries | serializer/src/main/java/serializer/peg/Util.java:86-114 | there is one entry per parameter, in order |
| SerializerUtil.FromDecl | serializer/src/main/java/serializer/peg/Util.java:83-117 | a canonical name always ends with its closing parenthesis |
| SerializerUtil.GetParameterList | serializer/src/main/java/serializer/peg/Util.java:144-153 | an instance method lists `this` first, then its parameter names in order; a static method lists only its parameters |
| SerializerUtil.StripQualifiers | serializer/src/main/java/serializer/peg/Util.java:136-139 | each parameter keeps exactly the part after its last dot, and an unqualified parameter is unchanged |
| SerializerUtil.FromMajorSig | serializer/src/main/java/serializer/peg/Util.java:123-141 | a signature without `@` is returned as it is, and the only errors are IllegalArgumentException and an index out of bounds |
| SerializerUtil.MethodPart | serializer/src/main/java/serializer/peg/Util.java:131-140 | a method part without parentheses fails only with an index out of bounds |
| SerializerUtil.FromMajorSigRejectsTwoAts | serializer/src/main/java/serializer/peg/Util.java:124-130 | a signature with two `@` is refused with IllegalArgumentException |
| SerializerUtil.SplitOfJoin | serializer/src/main/java/serializer/peg/Util.java:135 | splitting joined entries at commas gives the entries back, when none holds a comma |
| SerializerUtil.SplitEntries | serializer/src/main/java/serializer/peg/Util.java:135-140 | unqualified entries survive splitting, stripping and rejoining unchanged |
| SerializerUtil.MethodPartReads | serializer/src/main/java/serializer/peg/Util.java:131-140 | `name(params)` reads as the name with every parameter stripped of its qualifier |
| SerializerUtil.FromMajorSigOfDecl | serializer/src/main/java/serializer/peg/Util.java:68-76 | the signature that `fromDecl` writes for a declaration reads back through `fromMajorSig` as the declaration's canonical name |
| SerializerUtil.ParseInt | serializer/src/main/java/serializer/peg/Util.java:162-170 | a missing string gives nothing, and otherwise the lower-cased string decodes as Java's `Integer.decode` does, or gives nothing |
| SerializerUtil.ParseIntShow | serializer/src/main/java/serializer/peg/Util.java:162-170 | every `int` written in decimal parses back to itself |
| SerializerUtil.ParseIntIgnoresCase | serializer/src/main/java/serializer/peg/Util.java:164 | parsing does not depend on letter case |
| SimpleValidator.Visit | serializer/src/main/java/serializer/peg/SimpleValidator.java:41-612 | a traversal only adds methods to the valid and invalid sets, and a method declaration never lets a refusal escape |
| SimpleValidator.VisitAll | serializer/src/main/java/serializer/peg/SimpleValidator.java:41-612 | visiting a list of nodes only adds to the valid and invalid sets |
| SimpleValidator.VisitRefuses | serializer/src/main/java/serializer/peg/SimpleValidator.java:75-612 | a traversal ends without a refusal exactly when every node is of an admitted kind and every expression statement is an assignment or a declaration |
| SimpleValidator.VisitAllRefuses | serializer/src/main/java/serializer/peg/SimpleValidator.java:75-612 | a list of nodes passes exactly when each of them does |
| SimpleValidator.VisitAdds | serializer/src/main/java/serializer/peg/SimpleValidator.java:41-66 | every method a traversal newly accepts is a Simple method inside the visited tree |
| SimpleValidator.VisitAllAdds | serializer/src/main/java/serializer/peg/SimpleValidator.java:41-66 | every method newly accepted over a list is a Simple method inside it |
| SimpleValidator.ValidateSimple | serializer/src/main/java/serializer/peg/SimpleValidator.java:33-66 | `validate` accepts a method exactly when it is Simple, and only Simple methods are ever recorded as valid |
| SimpleValidator.MissingReturnReason | serializer/src/main/java/serializer/peg/SimpleValidator.java:48-60 | a non-void method whose body does not end in `return` is recorded as invalid with the message naming it |
| StructuralEquivalence.CheckBijection | serializer/src/main/java/serializer/peg/StructuralEquivalence.java:80-96 | two new ids are paired both ways; otherwise the map is unchanged and there is no witness exactly when they are already paired with each other; every witness is a bijection error |
| StructuralEquivalence.Visit | serializer/src/main/java/serializer/peg/StructuralEquivalence.java:98-204 | a missing id throws NullPointerException; a literal matches only itself; an operator node that matches is paired with its partner; the bijection only grows and stays symmetric |
| StructuralEquivalence.Children | serializer/src/main/java/serializer/peg/StructuralEquivalence.java:131-139 | comparing the children only extends a symmetric bijection |
| StructuralEquivalence.CheckEquivalence | serializer/src/main/java/serializer/peg/StructuralEquivalence.java:12-17 | an id that is not in the table is refused with IllegalArgumentException |
| StructuralEquivalence.VisitSelf | serializer/src/main/java/serializer/peg/StructuralEquivalence.java:98-204 | a node compared with itself under the identity finds no witness and keeps the identity |
| StructuralEquivalence.ChildrenSelf | serializer/src/main/java/serializer/peg/StructuralEquivalence.java:131-139 | a list of children compared with itself finds no witness and keeps the identity |
| StructuralEquivalence.CheckSelf | serializer/src/main/java/serializer/peg/StructuralEquivalence.java:12-17 | every node in a closed table is equivalent to itself |
| StructuralEquivalence.LiteralsByIdentity | serializer/src/main/java/serializer/peg/StructuralEquivalence.java:99-115 | two different literal ids are never equivalent |
| Equivalences.Add | serializer/src/main/java/serializer/peg/Equivalences.java:32-42 | an id seen before or an id paired with itself is refused with IllegalStateException; otherwise the pair is appended and, as written, the set of seen ids stays as it is |
| Equivalences.Get | serializer/src/main/java/serializer/peg/Equivalences.java:47-49 | the copy holds the same pairs in the same order |
| Equivalences.Ids | serializer/src/main/java/serializer/peg/Equivalences.java:24 | the ids of a list of pairs are exactly those appearing in one of them |
| Equivalences.AddIntended | serializer/src/main/java/serializer/peg/Equivalences.java:8-42 | the corrected `addEquivalence` appends the pair and records both ids as seen, and refuses exactly what the class promises to refuse |
| Equivalences.AddIntendedKeeps | serializer/src/main/java/serializer/peg/Equivalences.java:12-13 | with the correction, every id in the list is recorded as seen |
| Equivalences.AddAllIntendedDisjoint | serializer/src/main/java/serializer/peg/Equivalences.java:12-13 | with the correction, no id appears in two pairs, as the class promises |
| Equivalences.AddAllNeverSees | serializer/src/main/java/serializer/peg/Equivalences.java:32-42 | as written, adding pairs fails only on a pair of equal ids, so an id may appear in several pairs |
| Equivalences.AddAllFrom | serializer/src/main/java/serializer/peg/Equivalences.java:32-42 | as written, adding pairs to any list fails only on a pair of equal ids |
| Equivalences.SharedIdAccepted | serializer/src/main/java/serializer/peg/Equivalences.java:32-42 | as written, `(1, 2)` then `(1, 3)` are both accepted, although they share id 1; with the correction the second pair is refused |
| MutantsLog.ParseRow | serializer/src/main/java/serializer/peg/MutantsLog.java:117-127 | a row reads exactly when it has at least seven colon-separated fields and the sixth is a decimal `int`; otherwise an index out of bounds or a NumberFormatException |
| MutantsLog.Enter | serializer/src/main/java/serializer/peg/MutantsLog.java:128-131 | entering a row appends it to the rows |
| MutantsLog.EnterIndexed | serializer/src/main/java/serializer/peg/MutantsLog.java:128-131 | entering a row keeps the id index and the method index in step with the rows |
| MutantsLog.LoadFromParses | serializer/src/main/java/serializer/peg/MutantsLog.java:48-52 | loading succeeds exactly when every line parses |
| MutantsLog.LoadFromPrefix | serializer/src/main/java/serializer/peg/MutantsLog.java:48-52 | loading keeps the rows already there and adds one row per line |
| MutantsLog.LoadFromRow | serializer/src/main/java/serializer/peg/MutantsLog.java:48-52 | the row entered for line `i` is that line's parse |
| MutantsLog.LoadFromIndexed | serializer/src/main/java/serializer/peg/MutantsLog.java:48-52 | after loading, the id and method indexes agree with the rows |
| MutantsLog.LoadRows | serializer/src/main/java/serializer/peg/MutantsLog.java:39-59 | the log loads exactly when every line parses, and is then indexed |
| MutantsLog.LoadOrder | serializer/src/main/java/serializer/peg/MutantsLog.java:39-59 | the rows of a loaded log are the lines' parses, in file order |
| MutantsLog.RowRoundTrip | serializer/src/main/java/serializer/peg/MutantsLog.java:117-127 | a row written with colons, with a non-empty transformation, reads back as itself |
| MutantsLog.TransformationTruncated | serializer/src/main/java/serializer/peg/MutantsLog.java:118-126 | a transformation that itself holds a colon is cut at it, because only the first seven fields are read |
| MutantsLog.EmptyTransformationFails | serializer/src/main/java/serializer/peg/MutantsLog.java:118-126 | a row with an empty transformation is refused with an index out of bounds, because the split drops trailing empty fields |
| ExprSerializer.ParseArgsFrom | serializer/src/main/java/serializer/ExprSerializer.java:65-85 | the only error is an index out of bounds |
| ExprSerializer.ReadDirs | serializer/src/main/java/serializer/ExprSerializer.java:69-72 | each `-d dir` adds its directory, in order |
| ExprSerializer.ReadFiles | serializer/src/main/java/serializer/ExprSerializer.java:81-82 | arguments that are not flags are recorded as files, in order |
| ExprSerializer.ReadLogFlag | serializer/src/main/java/serializer/ExprSerializer.java:73-76 | `-l` sets the error-logging flag |
| ExprSerializer.ReadVerboseFlag | serializer/src/main/java/serializer/ExprSerializer.java:77-80 | `-v` sets the verbose flag |
| ExprSerializer.ArgsRoundTrip | serializer/src/main/java/serializer/ExprSerializer.java:65-85 | a rendered command line reads back as the options it came from, when no file name is itself a flag |
| ExprSerializer.DanglingDir | serializer/src/main/java/serializer/ExprSerializer.java:69-72 | a `-d` with nothing after it is refused with an index out of bounds |
| ExprSerializer.LogAllBuckets | serializer/src/main/java/serializer/ExprSerializer.java:49-54 | each error key's bucket holds its earlier sources followed by the new ones, in order |
| ExprSerializer.UnknownStatusShared | serializer/src/main/java/serializer/ExprSerializer.java:50-52 | every error starting with `UnknownStatus:` is filed under `UnknownIdentStatus` |
| ExprSerializer.NothingUnder | serializer/src/main/java/serializer/ExprSerializer.java:50-52 | no source is ever filed under a key that starts with `UnknownStatus:` other than `UnknownIdentStatus` |
| ExprSerializer.InitCtx | serializer/src/main/java/serializer/ExprSerializer.java:343-358 | the only error is a RuntimeException with a message |
| ExprSerializer.FirstUnknown | serializer/src/main/java/serializer/ExprSerializer.java:346-356 | the first entry whose status is neither `LOCAL` nor `GLOBAL`, or the end when there is none |
| ExprSerializer.InitCtxFails | serializer/src/main/java/serializer/ExprSerializer.java:343-358 | the context is built exactly when every status is known, and otherwise the message names the first unknown identifier and its status |
| ExprSerializer.InitCtxSorts | serializer/src/main/java/serializer/ExprSerializer.java:346-358 | the locals are the `LOCAL` identifiers in order, and the globals are the `GLOBAL` ones |
| ExprSerializer.UnknownStatusLogged | serializer/src/main/java/serializer/ExprSerializer.java:49-54 | a failed context is logged under `UnknownIdentStatus` with its source |
| ExprSerializer.SetCurrent | serializer/src/main/java/serializer/ExprSerializer.java:169-219 | the expression being read becomes the given one |
| ExprSerializer.KindOf | serializer/src/main/java/serializer/ExprSerializer.java:178-226 | every line kind that is read after a colon holds a colon |
| ExprSerializer.NamespaceLine | serializer/src/main/java/serializer/ExprSerializer.java:178-180 | a bracketed line sets the namespace |
| ExprSerializer.LoneBracket | serializer/src/main/java/serializer/ExprSerializer.java:178-180 | a lone `[` fails with an index out of bounds |
| ExprSerializer.MaxExprLine | serializer/src/main/java/serializer/ExprSerializer.java:183-192 | a `maxExpr:` line that parses is filed under the namespace and becomes the current expression; one that does not parse leaves no current expression |
| ExprSerializer.MaxExprWithoutNamespace | serializer/src/main/java/serializer/ExprSerializer.java:183-189 | a `maxExpr:` line before any namespace fails with NullPointerException |
| ExprSerializer.StartPosLine | serializer/src/main/java/serializer/ExprSerializer.java:194-198 | a `startPos:` line sets the current expression's start position |
| ExprSerializer.StartPosIgnored | serializer/src/main/java/serializer/ExprSerializer.java:196 | a `startPos:` line with no current expression only counts the line |
| ExprSerializer.IdentMapLine | serializer/src/main/java/serializer/ExprSerializer.java:201-211 | an `identMap:` line adds every pair to the current expression's map |
| ExprSerializer.IdentMapWithoutComma | serializer/src/main/java/serializer/ExprSerializer.java:206 | an `identMap:` text without a comma adds nothing |
| ExprSerializer.IdentMapIgnored | serializer/src/main/java/serializer/ExprSerializer.java:203 | an `identMap:` line with no current expression only counts the line |
| ExprSerializer.PutPairs | serializer/src/main/java/serializer/ExprSerializer.java:207-210 | the pairs of an identifier map are put in order |
| ExprSerializer.IdentTextSplits | serializer/src/main/java/serializer/ExprSerializer.java:206-208 | written pairs split back at commas into the same pair texts |
| ExprSerializer.MutantLineAdds | serializer/src/main/java/serializer/ExprSerializer.java:213-219 | a `n:source` line adds the mutant to the current expression |
| ExprSerializer.MutantSkipped | serializer/src/main/java/serializer/ExprSerializer.java:214-216 | a mutant line with no current expression counts as skipped |
| ExprSerializer.SeparatorLine | serializer/src/main/java/serializer/ExprSerializer.java:222-223 | a separator line ends the current expression |
| ExprSerializer.InvalidLine | serializer/src/main/java/serializer/ExprSerializer.java:224-225 | any other non-empty line fails, naming its line number and text |
| ExprSerializer.ReadMutants | serializer/src/main/java/serializer/ExprSerializer.java:213-219 | a run of mutant lines adds those mutants, in order, and counts the lines |
| ExprSerializer.ReadEntry | serializer/src/main/java/serializer/ExprSerializer.java:173-227 | the lines written for one expression read back as that expression, filed under the namespace |
| ExprSerializer.ReadEntries | serializer/src/main/java/serializer/ExprSerializer.java:173-227 | a run of written expressions reads back as those expressions, appended to the namespace's group in order |
| ExprSerializer.AppendedState | serializer/src/main/java/serializer/ExprSerializer.java:189 | the group grows by exactly the written expressions, and the line count by the lines read |
| ExprSerializer.ReadWrittenFile | serializer/src/main/java/serializer/ExprSerializer.java:160-228 | a written file reads back as exactly its expressions under its namespace, with nothing skipped |
| ExprSerializer.StepCounts | serializer/src/main/java/serializer/ExprSerializer.java:173-174 | every line read advances the line count by one and never decreases the skipped count |
| ExprSerializer.StepTracks | serializer/src/main/java/serializer/ExprSerializer.java:169-226 | the current expression is always one that has been filed |
| ExprSerializer.CutAtMarker | serializer/src/main/java/serializer/ExprSerializer.java:438-444 | a message of one line followed by the expected-token list is cut to that line, trimmed |
| ExprSerializer.MarkerAtFront | serializer/src/main/java/serializer/ExprSerializer.java:440-443 | a message that starts with the list is only trimmed, because the index must be positive |
| ExprSerializer.OneLineMessage | serializer/src/main/java/serializer/ExprSerializer.java:438-444 | a message of one line is only trimmed |
| CommentScraper.NewScraper | serializer/src/main/java/serializer/peg/PegCommentScraperVisitor.java:26-33 | a scraper is made exactly when the tag holds neither angle brace; otherwise the constructor throws `IllegalArgumentException` with the source's message |
| CommentScraper.ScraperTags | serializer/src/main/java/serializer/peg/PegCommentScraperVisitor.java:31-32 | the open and close tags of a made scraper differ, and each encloses the tag it was made from |
| CommentScraper.DefaultScraper | serializer/src/main/java/serializer/peg/PegCommentScraperVisitor.java:22-24 | the no-argument scraper looks for `<target-peg>` and `</target-peg>` |
| CommentScraper.RemoveSpace | serializer/src/main/java/serializer/peg/PegCommentScraperVisitor.java:72-73 | removing white space leaves no white-space character and never lengthens the text |
| CommentScraper.RemoveSpaceParts | serializer/src/main/java/serializer/peg/PegCommentScraperVisitor.java:72-73 | removing white space distributes over concatenation and leaves space-free text alone |
| CommentScraper.DeclKey | serializer/src/main/java/serializer/peg/PegCommentScraperVisitor.java:71-73 | the key a method is filed under holds no white space |
| CommentScraper.DeclKeyOfSignature | serializer/src/main/java/serializer/peg/PegCommentScraperVisitor.java:71-73 | a declaration made of a space-free return type, a space and a signature is filed under the signature with its white space removed |
| CommentScraper.ScanTarget | serializer/src/main/java/serializer/peg/PegCommentScraperVisitor.java:49-80 | scanning a comment's lines only ever throws `IllegalStateException`, and on success keeps every key the map already had |
| CommentScraper.VisitMethod | serializer/src/main/java/serializer/peg/PegCommentScraperVisitor.java:44-46 | a method without a comment leaves the map unchanged |
| CommentScraper.OpenStep | serializer/src/main/java/serializer/peg/PegCommentScraperVisitor.java:55-65 | an open tag line starts collecting, but inside the tags it throws "nested tags" and after one tag pair it throws "Multiple tags" |
| CommentScraper.CloseStep | serializer/src/main/java/serializer/peg/PegCommentScraperVisitor.java:66-75 | a close tag line inside the tags files the collected text under the method's key and the scan goes on; outside the tags it throws "closing tag while not in an open tag" |
| CommentScraper.TargetFound | serializer/src/main/java/serializer/peg/PegCommentScraperVisitor.java:49-80 | a comment with one tag pair maps the key to the trimmed lines between the tags, each followed by a space |
| CommentScraper.TargetMultiple | serializer/src/main/java/serializer/peg/PegCommentScraperVisitor.java:59-61 | a second open tag after a closed pair is refused with "Encountered Multiple tags" |
| CommentScraper.TargetAbsent | serializer/src/main/java/serializer/peg/PegCommentScraperVisitor.java:53-80 | a comment with neither tag leaves the map unchanged |
| CommentScraper.VisitWrittenComment | serializer/src/main/java/serializer/peg/PegCommentScraperVisitor.java:44-82 | a javadoc written line by line with one tag pair maps the method's key to the trimmed lines between the tags |
| CommentScraper.ScrapeKeys | serializer/src/main/java/serializer/peg/PegCommentScraperVisitor.java:35-41 | scraping a file's methods in order only ever adds keys, and methods without comments add none |
| TestUtil.ScanExpected | serializer/src/main/java/serializer/peg/testing/TestUtil.java:20-40 | reading the testing comment only ever throws `IllegalStateException` |
| TestUtil.ParseTestingComment | serializer/src/main/java/serializer/peg/testing/TestUtil.java:15-16 | a missing comment yields an empty result |
| TestUtil.OpenStep | serializer/src/main/java/serializer/peg/testing/TestUtil.java:25-29 | an `<expected>` line starts collecting, and inside the tags it throws "nested tags" |
| TestUtil.CloseStep | serializer/src/main/java/serializer/peg/testing/TestUtil.java:30-34 | a `</expected>` line inside the tags returns the collected text at once; outside them it throws, naming the line |
| TestUtil.ExpectedFound | serializer/src/main/java/serializer/peg/testing/TestUtil.java:15-41 | a comment with an `<expected>` pair yields the trimmed lines between the tags, each followed by a space, whatever comes after the close tag |
| TestUtil.ExpectedNested | serializer/src/main/java/serializer/peg/testing/TestUtil.java:26-27 | a second `<expected>` before the close tag is refused with "Encountered nested tags" |
| TestUtil.ExpectedStrayClose | serializer/src/main/java/serializer/peg/testing/TestUtil.java:31-32 | a `</expected>` before any open tag is refused, and the message names the line |
| TestUtil.ExpectedUnclosed | serializer/src/main/java/serializer/peg/testing/TestUtil.java:39-40 | an open tag that is never closed yields an empty result, as does a comment with no tag at all |
| TestUtil.ParseWrittenComment | serializer/src/main/java/serializer/peg/testing/TestUtil.java:15-41 | a comment written line by line with an `<expected>` pair reads back as the trimmed lines between the tags |
| CommentLines.Run | serializer/src/main/java/serializer/peg/testing/TestUtil.java:23 | a greedy run is the longest prefix whose characters all belong to the class |
| CommentLines.MatchAt | serializer/src/main/java/serializer/peg/PegCommentScraperVisitor.java:53 | a match starts with a line break and lies within the text; the testing pattern matches exactly where the text starts with a line break |
| CommentLines.FirstMatch | serializer/src/main/java/serializer/peg/testing/TestUtil.java:23 | the first match starts at a line break, and for the testing pattern it is the first line break, with none when the text has none |
| CommentLines.NoBreakNoMatch | serializer/src/main/java/serializer/peg/PegCommentScraperVisitor.java:53 | text without a line break holds no match of either pattern |
| CommentLines.TestingSplitUnbroken | serializer/src/main/java/serializer/peg/testing/TestUtil.java:23 | no line that the testing split produces holds a line break |
| CommentLines.FirstMatchAfter | serializer/src/main/java/serializer/peg/PegCommentScraperVisitor.java:53 | the first match in a break-free line followed by a matching text is the match right after that line |
| CommentLines.BreakMatch | serializer/src/main/java/serializer/peg/PegCommentScraperVisitor.java:53 | a new line, white space and a `*` is matched whole by both patterns, provided for the testing pattern the next line does not start with `*` or a space |
| CommentLines.PiecesJoin | serializer/src/main/java/serializer/peg/PegCommentScraperVisitor.java:53 | break-free lines joined by comment line breaks are cut back into the same lines |
| CommentLines.SplitLinesJoin | serializer/src/main/java/serializer/peg/testing/TestUtil.java:23 | `split` gives back the lines a comment was written from, when the last line is not empty |
| JavaLang.Trim | serializer/src/main/java/serializer/ExprSerializer.java:175 | `trim` leaves no blank at either end, is empty exactly when the text is all blanks, and never lengthens it |
| JavaLang.TrimKeeps | serializer/src/main/java/serializer/peg/testing/TestUtil.java:24 | text with no blank at either end trims to itself |
| JavaLang.TrimIdempotent | serializer/src/main/java/serializer/peg/PegCommentScraperVisitor.java:71 | trimming twice is trimming once |
| JavaLang.TrimAround | serializer/src/main/java/serializer/peg/PegCommentScraperVisitor.java:54 | blanks put around a trimmed text are removed again |
| JavaLang.ToLowerCase | serializer/src/main/java/serializer/peg/Util.java:164 | lowering keeps the length and lowers every character on its own |
| JavaLang.ToLowerCaseIdempotent | serializer/src/main/java/serializer/peg/Util.java:164 | lowering twice is lowering once |
| JavaLang.DropTrailingEmpty | serializer/src/main/java/serializer/peg/MutantsLog.java:118 | dropping trailing empty pieces keeps a prefix that does not end in an empty piece, and only empty pieces are dropped |
| JavaLang.Split | serializer/src/main/java/serializer/peg/MutantsLog.java:118 | `split` on a character absent from the text gives the text itself, never ends with an empty piece otherwise, and no piece holds the separator |
| JavaLang.SplitJoin | serializer/src/main/java/serializer/ExprSerializer.java:207-208 | separator-free pieces, the last non-empty, joined by the separator split back into the same pieces |
| JavaLang.SplitJoinTrailing | serializer/src/main/java/serializer/peg/MutantsLog.java:118 | a trailing separator is dropped by `split` |
| JavaLang.IndexOfChar | serializer/src/main/java/serializer/peg/Util.java:131-132 | `indexOf` is `-1` exactly when the character is absent, else its first position |
| JavaLang.IndexOfCharAt | serializer/src/main/java/serializer/ExprSerializer.java:186 | a character at a position with none before it is found there |
| JavaLang.LastIndexOfChar | serializer/src/main/java/serializer/peg/Util.java:137 | `lastIndexOf` is `-1` exactly when the character is absent, else its last position |
| JavaLang.Substring | serializer/src/main/java/serializer/peg/Util.java:133-134 | `substring` returns the slice exactly when the bounds are in order and within the text, and throws `IndexOutOfBoundsException` otherwise |
| JavaLang.ParseInt | serializer/src/main/java/serializer/peg/MutantsLog.java:125 | `Integer.parseInt` returns the signed decimal value exactly when the text is one and it fits in 32 bits, and throws `NumberFormatException` otherwise |
| JavaLang.ParseIntRoundTrip | serializer/src/main/java/serializer/peg/MutantsLog.java:125 | every 32-bit integer written in decimal parses back to itself |
| JavaLang.RadixDigit | serializer/src/main/java/serializer/peg/Util.java:166 | a digit's value is below its radix |
| JavaLang.Decode | serializer/src/main/java/serializer/peg/Util.java:166 | `Integer.decode` only throws `NumberFormatException`, and always does on empty text |
| JavaLang.DecodeDecimal | serializer/src/main/java/serializer/peg/Util.java:166 | every 32-bit integer written in decimal decodes back to itself |
| JavaLang.DecodeDecimalRange | serializer/src/main/java/serializer/peg/Util.java:166 | a decimal numeral decodes exactly when it is below 2^31, and its negation exactly when it is at most 2^31, each to its value |
| JavaLang.DecodeHex | serializer/src/main/java/serializer/peg/Util.java:164-166 | `0x1f` decodes to 31 |
| JavaLang.DecodeOctal | serializer/src/main/java/serializer/peg/Util.java:166 | a leading zero means octal: `-010` is -8 and `08` is refused |
| JavaLang.DecodeSecondSign | serializer/src/main/java/serializer/peg/Util.java:166 | a second sign after the first is refused |
| JavaLang.DecodeRangeEdge | serializer/src/main/java/serializer/peg/Util.java:166 | `-0x80000000` decodes to the least 32-bit integer while `0x80000000` is refused |
| JavaCollections.Insert | serializer/src/main/java/serializer/peg/PegNode.java:680-682 | inserting into a sorted list keeps it sorted and adds exactly the one element |
| JavaCollections.Sort | serializer/src/main/java/serializer/peg/PegContext.java:311-312 | `sort` returns a sorted permutation of the list |
| JavaCollections.SortedUnique | serializer/src/main/java/serializer/peg/PegContext.java:311-312 | two sorted lists of strings with the same elements are equal, so the sorted order of the locals is determined |
| JavaCollections.StrLeTotalAt | serializer/src/main/java/serializer/peg/PegContext.java:312 | the natural order on strings relates every two strings |
| JavaCollections.StrLeAntisymmetric | serializer/src/main/java/serializer/peg/PegContext.java:312 | two strings ordered both ways are equal |
| JavaCollections.StrLeTransitive | serializer/src/main/java/serializer/peg/PegContext.java:312 | the natural order on strings is transitive |
| Decimal.NatToStringRoundTrip | cornelius/src/util.rs:145-148 | the digits written for a number have that number as their value |
| Decimal.UnsignedRoundTrip | cornelius/src/util.rs:145-148 | a number written in decimal parses back to itself as an unsigned numeral |
| Text.JoinNoneIn | cornelius/src/util.rs:142 | joining pieces free of a character class with a separator outside it leaves the result free of the class |
| EquivRel.PartitionSize | cornelius/src/util.rs:115-132 | a partition has as many elements as its classes' sizes add up to, which is its equivalences plus its non-empty classes |
| EquivRel.ValidDetermined | cornelius/src/util.rs:139-155 | a well-formed relation is determined by its classes: the element map is the one the classes induce |
| EquivRel.SegmentsIgnoreSeparatorKind | cornelius/src/util.rs:142 | replacing every line break by a vertical bar cuts the text into the same lines |
| EquivRel.ReadBackPartition | cornelius/src/util.rs:238-253 | the classes a written file reads back as still form a partition with the same number of equivalences |
| EquivRel.NumEquivalencesOfReadBack | cornelius/src/util.rs:130-132 | on a read-back file, `num_equivalences` gives the run's equivalences less one, or underflows when no class is written |
| EquivRel.ReadBackSize | cornelius/src/util.rs:238-253 | a read-back file has one class per written line plus one, at least two, and as many non-empty classes as lines |
| Evaluator.Binary | cornelius/src/evaluator.rs:74-222 | a binary operator that evaluates gives a number or a boolean |
| Subjects.TagsSameClass | cornelius/src/subjects.rs:326-345 | with distinct members, two members share a class exactly when their tags agree |
| LegacyExpr.CrossContents | src/expr.rs:301-324 | the outer loop collects exactly the folds of a left node with a right node |
| LegacyExpr.RowContents | src/expr.rs:311-321 | the inner loop collects exactly the folds of the left node with a right node |
| LegacySubjects.AsCornelius | src/subjects.rs:85-100 | a prototype subject becomes a subject with the same program id and the same mutants, in order |
| PegNodes.EnterValid | serializer/src/main/java/serializer/peg/PegNode.java:43-52 | entering a node under the next id, with children below it, keeps the node table well formed |
| PegNodes.ExitConditionsOne | serializer/src/main/java/serializer/peg/PegNode.java:685 | one exit condition is returned as it is |
| PegNodes.ExitConditionsMany | serializer/src/main/java/serializer/peg/PegNode.java:680-693 | several exit conditions become a chain of `or` nodes over their ids in ascending order |
| PegNodes.ShowIdsJoin | serializer/src/main/java/serializer/peg/PegNode.java:319-332 | a node's children are written each after a space |
| PegNodes.ReadStrs | serializer/src/main/java/serializer/peg/PegNode.java:319-332 | child ids written in decimal read back as the same ids |
| PegContexts.SortedNamesKept | serializer/src/main/java/serializer/peg/PegContext.java:310-320 | every name in a permutation of the locals' keys is a local |
| MutantsLog.LoadFromAll | serializer/src/main/java/serializer/peg/MutantsLog.java:48-52 | a log loaded from nothing holds one row per line, each that line's parse |
| PegExprFacts.PlusOneWraps | serializer/src/main/java/serializer/peg/PegExprVisitor.java:268-273 | in Java's `int` arithmetic `a + 1` is 1 exactly when `a` is 0 |
| RuleSoundness.EquivalentUnderAnyTyping | cornelius/src/rewrites.rs:7-94 | sides equivalent under the empty typing are equivalent under every typing |
| RuleSoundness.ReadAfterWriteExample | cornelius/src/rewrites.rs:97 | reading the path `a.a.b` just written with 3 gives 3 |

## Left out

- The `egg` crate: the e-graph, union-find, hash-consing, rebuild, the pattern matcher, `Runner`, `StopReason` and `from_op_str`. It is a foreign library. Its `add`, `find` and `from_op_str` are parameters of `Subjects` and `LegacySubjects`, and the child classes' analysis data is a map.
- Saturation itself is not modelled, because it is the `egg` runner. The rules are proved sound one by one against the evaluator.
- File and console I/O and drivers are not modelled. This covers `main.rs`, `cli.rs`, XML subject loading, `write_iter_file`, `translateExprFile`, `processExprsDirs`, `writeLogs`, `writeSerializationSummary`, `PegCommentScraperVisitor.scrape`'s file parsing, and the file walkers and progress bar of Util.java. In each case a file's contents enter as a string or a list of lines.
- JavaParser is not modelled, because it is a foreign library. Parsed declarations, comments, expression trees and node kinds are abstract datatypes. Whether a piece of source parses is the parameter `parses` of `ExprSerializer`.
- The files of maximal expressions are written by the mutation tool, outside this repository. `ExprSerializer` models their format as the reader accepts it, and its round-trip lemma writes them in that format. `MaxExpr.computePegNodes` and `Mutant.computePegNodes` (ExprSerializer.java:369-386, 431-435) are not modelled. They translate each expression with `PegExprVisitor`, which is modelled as PegExprVisitor.Visit, and then call `PegNode.maxExpr`, which PegNode.java does not define, so the node they build has no definition to model.
- `Display` and `toString` formatting of `Config`, `GlobalData`, `MutantsLog.Row`, `MaxExpr`, the witnesses of StructuralEquivalence.java, and the `Debug` output of a Rust panic are not modelled. Only the text that other code reads back is modelled.
- Wall-clock time is not modelled: `RunConfig.time_limit` is carried as whole seconds, and the `f64` timing sums are left out.
- GlobalData.HandleStopReason, GlobalData.AddDiscoveredEquivalences, GlobalData.AddSubjects, GlobalData.IncSubjectsFiles and GlobalData.AddMutants: these require that the `u32` counter they increment does not overflow; for HandleStopReason that is the counter of the stop reason's kind, and GlobalData.TallyCounts states exactly when a run of stop reasons stays clear of it. In a debug build an overflow is a panic, and in a release build it wraps; neither outcome is modelled.
- LegacyExpr.ApplyOne, LegacyExpr.ApplyRow, LegacyExpr.ResultIsFold and LegacyExpr.ApplyOneResult: these require `PropDefined`, that is, every pair of constants folds without panicking. The panic of an unguarded fold over a boolean constant is excluded rather than modelled, because it aborts the whole run.
- LegacyExpr.MakeSubject and LegacyExpr.MakeSubjectRoundTrip: these require at least one input. `Subject::make` panics on an empty slice (`inputs[1..]`), and that panic is not modelled.
- LegacyExpr.MakeSubject: mutant ids are `nat` where the source's are `u32`. The ids are only copied, so no arithmetic on them is lost.
- PegAnalysis.Make and LegacyPeg.Make: these require that `eval` of the node does not panic. A panicking fold aborts the e-graph run and has no analysis data to describe; the `Fold` outcome of `eval` itself keeps the panic case.
- Primitives.IntInt, Primitives.LongLong, Primitives.IntLong, Primitives.LongInt, Primitives.IntNeg and Primitives.LongNeg: the debug-build panics of the raw operators are preconditions. The predicates `IntIntDefined` and the like say exactly when each operator returns. The `Wrapping` paths are modelled as wrap-around.
- PegContexts.Combine: the locals that both contexts bind are visited in the first context's order. Java iterates a `HashSet`, whose order decides the ids the `phi` nodes receive. The set of bindings is the same either way; only the id numbering may differ.
- PegAnalysis.Modify and LegacyPeg.Modify: only the case where the constant's literal is a fresh node is modelled. When `egraph.add` finds the literal already in another e-class, the `union` of cornelius/src/peg.rs:563-567 (src/peg.rs:363-368 in the prototype) also brings in that class's nodes and, through `merge`, data the class lacked; the e-graph is not part of this model.
- PegNodes.NilOf: PegNode.java has no `nil()`. It is taken to be the childless `nil` operator node, the vocabulary of the rewrite engine's terms.
- PegNodes.VarOf: PegContext.java calls `var(name, type)`, but PegNode.java:523 defines only a one-child `var(name)`. The two-child form is taken to be `(var name type)`, which is what the rewrite engine's terms use.
- Evaluator.EvaluateAt: the `MethodRoot([val, heap])` arm of cornelius/src/evaluator.rs:258-264 is not modelled, because the `Peg` language of cornelius/src/peg.rs has no `MethodRoot` variant. A `var` node is read by its first child only: cornelius/src/peg.rs:50 declares `var` with two children, while cornelius/src/evaluator.rs:14-17 binds a `var` by a single child, the index of its name, and the model follows the evaluator.
- Delta.Dd: the oracle is a pure function. The source's oracle is an `FnMut` closure, and any state it keeps between calls is not modelled.
- JavaLang.ToLowerCase and JavaLang.RadixDigit: only ASCII letters and digits are treated specially. Java's `toLowerCase` and `Character.digit` also map other Unicode letters and digits.
- JavaLang.Trim, JavaCollections.StrLe, JavaCollections.Sort and JavaLibrary.IndexOf: strings are sequences of Unicode scalar values, so a supplementary character is one `char` here rather than a surrogate pair. Positions past such a character are one less than Java's, and Java's `compareTo` orders U+10000 (a high surrogate 0xD800 first) below U+FFFF where `StrLe` orders it above. For `Trim`, only characters up to U+0020 count as blank, as in Java.
- PegExprVisitor.Visit: method calls, object creation and casts are not modelled. They are outside the expression core this model translates: a method call or object creation stands for a callee whose effect is unknown, recorded only as an `invoke` or `new` node whose heap is projected through `projectHeap` (PegNode.java:547-573), and modelling them would need an abstract callee. A cast only wraps its operand in `cast` and raises a guarded `ClassCastException`, over a type name this model's expression tree does not carry. Array accesses are not part of the expression type either, so performAssign's `ArrayAccessExpr` exception for an array-access target is not modelled.
- PegStmtVisitor.java is not modelled. It translates statements and loops by patching the global table through `replace`, and its callees are not part of this model.
- PegOp.java and Pair.java are vocabulary only. They have no behaviour of their own.
- ExprSerializer.Step: the line counter is a `nat`, where Java's is an `int` that would wrap after 2^31 lines.
- RuleSoundness.RulesSound: pattern variables range over evaluated values. A variable bound to a sub-term that itself errors or panics is not considered, so the order in which the evaluator reports an error against a panic is outside the claim. The `int` and `boolean` typings are assumptions on the pattern variables, justified rule by rule, and not something a Java type checker guarantees: Java also accepts a `long` operand for `mul-bot`, `bin-and-bot` and `bin-or-bot`, and the typed claims of those rules say nothing about it. For the `long` `mul-bot` soundness rests only on the evaluator having no `long` values, as RuleSoundness.LongMulBotSound states. Rules whose sides the evaluator cannot evaluate are listed in `Unchecked` and shown by counterexample lemmas instead. These are `neg`, `add-inv`, `sub-to-add` (a `todo` panic), `rd-wr` (heap nodes), and the type-guided and string rules (`invoke`).
- The `string-starts-with` rule of cornelius/src/rewrites.rs:106-113 is not entirely sound, as its own comment says. JavaLibrary.StartsWithRuleAsWritten shows the input on which its two sides differ.
- Tests under cornelius/src/tests.rs, src/tests.rs and serializer/src/test/ drive the `egg` runner and JUnit. They are not modelled.

## Findings

| source | as written | input that shows it | evidently intended | confidence | as-written member | corrected member |
|---|---|---|---|---|---|---|
| serializer/src/main/java/serializer/peg/PegExprVisitor.java:268-273 | `visit(AssignExpr)` assigns the value and ignores the operator, so `x op= e` behaves like `x = e` | `x += 1` with `x` holding `a`: `x` becomes 1 | `x` becomes `a + 1` in Java's `int` arithmetic | high, not executed | PegExprFacts.CompoundAssignAsWritten | PegExprFacts.CompoundAssignIntended |
| serializer/src/main/java/serializer/peg/PegContext.java:168-175 | the loop inserts the outer access's own field name on each pass, so the inner field names are lost | `this.a.b = v` writes the path `.bb` | the path `a.b`, every field in order | high, not executed | PegExprVisitor.DerefsAsWrittenDoubles | PegExprVisitor.DerefsJoinFields |
| cornelius/src/util.rs:130-132 | `num_equivalences` subtracts the number of classes, empty ones included, from the number of elements, in `usize` | the classes `{0}` and `{1, 2}` are written as one line that reads back with a trailing empty class and counts 0 instead of 1; the classes `{1}` and `{2}` read back as two elements in three classes and the subtraction underflows | the number of elements minus the number of non-empty classes | medium, not executed | EquivRel.WrittenFileUndercounts | EquivRel.CountEquivalencesOfWrittenFile |
| cornelius/src/peg.rs:514-537 | `eval` folds `==` and `!=` on constants by comparing the `Peg` nodes, so an `int` and a `long` constant are never equal | `(== 0l 0)` folds to `false` | `true`, as `Peg::equal` and Java's binary numeric promotion say | medium, not executed | PegAnalysis.CrossWidthEqualityFoldsFalse | PegAnalysis.EvalByValueAgreesWithEqual |
| serializer/src/main/java/serializer/peg/Equivalences.java:32-42 | `addEquivalence` checks `alreadySeenIds` but never adds to it, so an id can appear in several pairs | `(1, 2)` then `(1, 3)` are both accepted | the second pair is refused, as the class comment promises | high, not executed | Equivalences.SharedIdAccepted | Equivalences.AddAllIntendedDisjoint |
