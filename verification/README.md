# Verified model of the wowlua language server's kernels

A Dafny model of the parts of the language server that decide something, with proofs of what they
decide. Each of them has a plain meaning that the code reaches by a less obvious route; the proofs
connect the two.

- **Flow merging** (`FlowProgram`, `FlowExits`, `FlowIr`, `FlowLowering`, `FlowLookups`, `FlowStaleness`,
  `FlowSoundness`, `FlowContributions`, `FlowExactness`, `FlowReads`, `FlowFreshness`, `FlowStaleReads`, `FlowStack`,
  `FlowBuilder`, `FlowTheorems`, `FlowMergeLeaks`). A small statement language with opaque conditions gets a concrete
  semantics. `IrBuilder` walks it with an explicit stack of frames, creates versions of variables per scope and merges
  them after if-chains. It is proved to compute a recursion over the program, that recursion to be sound for all
  executions, and what the versions contribute to be exactly what a collecting semantics says.
- **The type algebra** (`ValueTypes`, `Unions`, `UnionLaws`, `UnionMeaning`, `UnionStability`,
  `UnionGrouping`, `Secrecy`, `SecretMarks`, `Narrowing`, `ElseBranch`, `StrippedTwice`, `TypeGuards`, `GuardMeaning`,
  `RepeatedGuards`, `SecretGuards`, `MixedGuards`, `Assignability`, `Joins`). Every type denotes a set of runtime values, each a base value with a secret
  mark. What the names in types refer to (enum kinds, keys, generics, signatures, shapes) is an arbitrary
  environment.
- **Secret values** (`Secrets`, `SecretResults`, `LogicalTypes`, `LogicalMeaning`). The rules for operators and truth
  tests, and the types of `and` and `or`, against what the runtime does.
- **Globs and paths** (`Wildcards`, `Globs`, `Paths`). The two matchers that remember only the last star,
  and lexical normalisation, against recursive definitions and walks through directories.
- **Flavors and TOC files** (`Texts`, `Flavors`, `TocLines`, `TocGroups`). Game types, the four flavors they
  collapse into, file lines with bracketed conditions, and the TOC files of one addon.
- **The XML scanner** (`XmlFrames`, `XmlScan`, `XmlTheorems`, `XmlPublishing`, `XmlNames`, `XmlScanner`). A stack
  machine over events, as a function and as an object changed in place, against one recursion over the tree of the
  document, and what that publishes.
- **Positions** (`Positions`, `Encodings`) and **the layered map** (`LayeredMaps`).

`dafny verify dfyconfig.toml` checks everything. `hide` statements keep function bodies a proof does not
need out of the solver's sight.

## Where the code falls short of its own words

Each of these has a lemma with an input that shows it, and one that says for which inputs it happens.

- A version assigned in a branch that always exits stays visible to later reads of the enclosing scope
  (`FlowTheorems.ExitingBranchLeaks`), although the comment in `version_for_scope` leaves such assignments to
  the merge; and a merge that meets it in an arm takes it for the end of the arm
  (`FlowMergeLeaks.ExitingBranchIsMerged`). Which lookups are affected, syntax alone decides (`FlowTheorems.FreshReadsAreExact`); what they
  miss, `FlowStaleReads.StaleReadMisses` says.
- `glob_match` compares bytes before it looks for a star, so a `*` in the text can use up the star of the
  pattern (`Globs.LiteralStarMisleads`, `Globs.GlobFoundIsGlobIff`).
- `make_union` lets `table` take the place of the table of a `@enum`, which stands for numbers or strings
  (`UnionMeaning.UnionLosesEnum`, `UnionMeaning.UnionMeansMembers`).
- Normalising twice is not stable as a list once secrets collapse behind a `boolean`
  (`UnionStability.SecretsUnsettle`, `UnionStability.StableIff`), against the property
  `union_normalization_is_stable`, whose generator makes no secrets.
- With secrets, the members of a union depend on which arguments are put together first
  (`UnionGrouping.GroupingShowsInThreeWays`, `UnionGrouping.GroupingShowsIff`).
- An intersection does not flow into a union that lists it unless some part does (`Joins.IntersectionGap`,
  `Joins.IntersectionFlowsIff`, `Joins.BasicPartsFlowIff`).
- The else-branch of a truth test on `any?`, or on an opaque alias of `boolean` with `nil`, keeps only `nil`
  (`ElseBranch.OptionalHidesFalse`, `ElseBranch.StripTruthyIsSoundIff`).
- An opaque alias hides a secret boolean from `truth_test_rule`, inside the secret or around it
  (`Secrets.AliasHidesBoolean`, `Secrets.TruthTestRuleIsExact`).
- An alias hides a secret from `and_or_secrets` (`SecretResults.AliasHidesSecret`, `SecretResults.AndSecretsIff`,
  `SecretResults.OrSecretsIff`).
- `x and nil` for a boolean `x` has the type `nil` but can be `false`, and so can `x and y` for an unknown `x`
  (`LogicalMeaning.AndLosesFalse`, `LogicalMeaning.AndTypeMeaning`); `x or y` loses `y` and its secrecy where an alias
  in a union hides that `x` can be falsy (`LogicalTypes.HiddenTestLosesSecret`).
- `process_open_tag` means to handle a `KeyValue` with separate tags, but its closing tag ends the frame
  around it (`XmlTheorems.OpenKeyValueEndsFrame`, `XmlTheorems.StackReturnsIff`, `XmlTheorems.StackIsNestingIff`).
- With an allow list and an exclude list a flavor can be kept that nothing loads on
  (`Flavors.BothListsKeepTooMuch`, `Flavors.KeptInVainIff`).
- A UTF-8 column inside a character stays inside it (`Positions.Utf8PositionSplits`, `Positions.Utf8LandsIff`).

Two comments say what the code does not do, without an effect on the result: `record_inline_mixins` says that
handler elements are never pushed; they are, as containers. `child_element_type` says that containers omit the
frame type; it is always first (`XmlTheorems.ChildTypeSpec`).

## Model

| member | source | states |
|---|---|---|
| `FlowTheorems.FlowMergingIsSound` | crates/wowlua_analysis/src/analysis/build_ir.rs:680-862 | On every execution up to a statement before which reads are fresh: a read of a variable that is not stale there finds a version that contributes the value the variable has |
| `FlowTheorems.AssignmentsAreCovered` | crates/wowlua_analysis/src/analysis/build_ir.rs:2544-2589 | Up to such a statement, the version created for an assignment in any nested `do`, arm or chain contributes the value assigned by every execution that reaches it |
| `FlowTheorems.FreshReadsAreExact` | crates/wowlua_analysis/src/analysis/mod.rs:2583-2625 | Reads are fresh, which syntax alone decides, if and only if every read and every merge that some execution gets to, at every depth, looks up the version its block is in |
| `FlowFreshness.FreshIffExact` | crates/wowlua_analysis/src/analysis/mod.rs:2583-2625 | The same equivalence for any block lowered in any scope whose lookups start out fresh |
| `FlowProgram.CanReachIff` | crates/wowlua_analysis/src/analysis/build_ir.rs:186-279 | Which points executions get to, syntax decides |
| `FlowStaleReads.StaleReadIsNested` | crates/wowlua_analysis/src/analysis/mod.rs:2583-2625 | Every stale read finds the latest version there is, which a nested block made after the version the scope is in |
| `FlowStaleReads.StaleReadMisses` | crates/wowlua_analysis/src/analysis/mod.rs:2583-2625 | On every execution that gets to a stale read, the variable has the value it had before the version found was made; the read covers that value exactly if the source of that version happens to contribute it |
| `FlowProgram.FallsUnchanged` | crates/wowlua_analysis/src/analysis/build_ir.rs:782-862 | A statement that does not bind a variable leaves it unchanged on every execution that falls out, whatever it writes inside |
| `FlowReads.EveryAssignmentIsCovered` | crates/wowlua_analysis/src/analysis/build_ir.rs:186-279 | The same for any block lowered in any scope where lookups are fresh and sound, arms being lowered last one first |
| `FlowReads.BeforeArmReady` | crates/wowlua_analysis/src/analysis/build_ir.rs:724-756 | An arm starts with the versions from before its chain, although the arms after it have been lowered by then |
| `FlowTheorems.ExitingBranchLeaks` | crates/wowlua_analysis/src/analysis/mod.rs:2583-2625 | After `if c then x = a return end; y = x` the version of `y` covers the value that the only falling execution leaves there exactly if that value is `a` |
| `FlowMergeLeaks.ExitingBranchIsMerged` | crates/wowlua_analysis/src/analysis/build_ir.rs:2907-3068 | After `if c then x = a; if d then x = b return end end` the merged version covers `a`, which the execution out of the arm leaves in `x`, exactly if it is `b` or the value from before |
| `FlowSoundness.RangeSound` | crates/wowlua_analysis/src/analysis/build_ir.rs:2907-3068 | Lowering any stretch of any block in its scope keeps the versions visible there sound for every execution that falls through it, with assignments, `do`, exits and if-chains nested to any depth |
| `FlowSoundness.IfSound` | crates/wowlua_analysis/src/analysis/build_ir.rs:782-862 | After a chain the version of each variable covers every execution that falls out of some arm or past the chain; leaving always-exiting arms out of the merge loses no such execution |
| `FlowSoundness.DoSound` | crates/wowlua_analysis/src/analysis/build_ir.rs:3293-3323 | After a `do` block the versions forwarded out of it cover the executions of its body, inner merges included |
| `FlowSoundness.MergeSound` | crates/wowlua_analysis/src/analysis/build_ir.rs:2907-3068 | One contribution per merged branch, and the version before the chain when there is no `else`, cover the branch an execution took |
| `FlowContributions.MergeIsExact` | crates/wowlua_analysis/src/analysis/build_ir.rs:2907-3068 | The merged version contributes exactly what the ends of the merged branches contribute and, without an `else`, what the version before the chain does; without an assignment in a branch the version stays what it was |
| `FlowExactness.RunsAmong` | crates/wowlua_analysis/src/analysis/build_ir.rs:186-279 | The collecting semantics that joins the ends of merged arms misses no execution |
| `FlowExactness.RangeIsExact` | crates/wowlua_analysis/src/analysis/build_ir.rs:186-279 | For any stretch of any block whose lookups are fresh throughout: the versions visible after it contribute the values of the collecting semantics, no more and no less |
| `FlowTheorems.VersionsAreExact` | crates/wowlua_analysis/src/analysis/build_ir.rs:186-279 | So they do after any statement of a file |
| `FlowTheorems.ElseForgetsBefore` | crates/wowlua_analysis/src/analysis/build_ir.rs:3025-3031 | After a chain that assigns in every arm, the value from before it is contributed exactly if there is no `else` |
| `FlowStaleness.LookupIsExact` | crates/wowlua_analysis/src/analysis/mod.rs:2583-2625 | The lookup reads use agrees with the lookup of ancestors exactly at the places and variables the syntax of the block marks as fresh, for every block and every point in it |
| `FlowStaleness.StmtStaleness` | crates/wowlua_analysis/src/analysis/mod.rs:2583-2625 | How one statement changes which variables a later read looks up in a finished branch |
| `FlowStaleness.StmtWrites` | crates/wowlua_analysis/src/analysis/build_ir.rs:3293-3323 | A statement adds versions of exactly the variables assigned somewhere in it |
| `FlowStaleness.StmtBinds` | crates/wowlua_analysis/src/analysis/build_ir.rs:2907-3068 | A statement leaves a version in its own scope exactly for the variables it binds: assigned, forwarded out of a `do`, or merged from an arm that binds them |
| `FlowProgram.ExitsNeverFall` | crates/wowlua_analysis/src/analysis/checks.rs:388-444 | No execution falls through a block that is judged to always exit |
| `FlowExits.ExitsIff` | crates/wowlua_analysis/src/analysis/checks.rs:388-444 | Where exits stand last and not inside a last `do`, a block is judged to always exit exactly if no execution falls out of it |
| `FlowExits.MergedArmsIff` | crates/wowlua_analysis/src/analysis/build_ir.rs:782-862 | Merged are, in order: with an `else` the arms that do not always exit; without one all arms but the leading ones that do |
| `FlowProgram.FallingArmIsMerged` | crates/wowlua_analysis/src/analysis/build_ir.rs:782-862 | Every arm some execution falls out of is among the merged ones, in each of the cases of the selection |
| `FlowIr.LatestAroundSpec` | crates/wowlua_analysis/src/analysis/mod.rs:2704-2715 | The ancestor lookup finds a version created in the scope or around it, and no such version is later |
| `FlowIr.AncestorUnchanged` | crates/wowlua_analysis/src/analysis/mod.rs:2704-2715 | Versions outside the chain of scopes around a scope never move its ancestor lookup |
| `FlowLowering.StmtGrows` | crates/wowlua_analysis/src/analysis/build_ir.rs:186-279 | Lowering a statement only appends, and only inside the scope it is lowered in |
| `FlowStack.Resume` | crates/wowlua_analysis/src/analysis/build_ir.rs:202-219 | Whenever a frame resumes, at most one merge of its scope is pending, it is the last in the list, and applying it leaves what remains to be done unchanged |
| `FlowStack.ResumedIsYoungest` | crates/wowlua_analysis/src/analysis/build_ir.rs:186-219 | Whenever a frame resumes, its scope is the youngest of all on the stack: every block opened after it has come off again |
| `FlowStack.IfFinish` | crates/wowlua_analysis/src/analysis/build_ir.rs:724-756 | Pushing the frames of a chain and leaving its merge pending leads to the same IR as lowering the chain as a whole |
| `FlowStack.PopFinish` | crates/wowlua_analysis/src/analysis/build_ir.rs:219-234 | A finished frame comes off the stack without changing where the walk leads, also when a chain was the last statement of its block |
| `FlowBuilder.IrBuilder.BuildIr` | crates/wowlua_analysis/src/analysis/build_ir.rs:186-279 | The frame loop ends with exactly the IR of the recursion over the program, and meets every statement of every nested block exactly once |
| `FlowBuilder.IrBuilder.BuildStmtIf` | crates/wowlua_analysis/src/analysis/build_ir.rs:680-862 | One scope and one frame per branch in order, and the pending merge the arms call for: all, the non-exiting, or the rest after a prefix of exiting ones |
| `FlowBuilder.IrBuilder.ProcessPendingBranchMerges` | crates/wowlua_analysis/src/analysis/build_ir.rs:2907-3068 | Applies and removes every pending merge of the scope, though removal swaps entries during the scan |
| `FlowBuilder.IrBuilder.MergeChain` | crates/wowlua_analysis/src/analysis/build_ir.rs:2907-3068 | For every symbol assigned in a merged branch: a version in the parent scope with the contributions of all branches in order |
| `FlowBuilder.IrBuilder.ForwardVersionsToParent` | crates/wowlua_analysis/src/analysis/build_ir.rs:3293-3323 | Re-creates in the parent scope the latest version each symbol got in the popped scope, and nothing else |
| `FlowStack.DoFinish` | crates/wowlua_analysis/src/analysis/build_ir.rs:3240-3262 | Pushing a frame for the body of a `do`, and forwarding when it comes off, leads to the same IR as lowering the block in place |
| `FlowLowering.InsertsGrow` | crates/wowlua_analysis/src/analysis/mod.rs:1701-1710 | New scopes are children of their parent, younger than every scope and version so far, and change nothing else |
| `Unions.MakeUnion` | crates/wowlua_core/src/types.rs:863-910 | The loops over a growing list compute the normalisation whose laws follow |
| `Unions.CollapseScalarVariants` | crates/wowlua_core/src/types.rs:1016-1042 | The in-place retains and the push compute the collapse of literals |
| `Unions.MergeSecretMembers` | crates/wowlua_core/src/types.rs:893-904 | The in-place treatment of secret members computes the merge of secrets |
| `UnionLaws.MembersAreNormal` | crates/wowlua_core/src/types.rs:863-910 | For flat arguments the members come out without duplicates and depend only on the set of argument types, by a definition on sets that knows no order |
| `UnionLaws.UnionIsNormal` | crates/wowlua_core/src/types.rs:863-910 | The result has no literal beside its generic type, no plain twin of a secret member, `any` only alone or with `nil`; and a second normalisation yields the same members |
| `UnionLaws.NormalFormIsFixed` | crates/wowlua_core/src/types.rs:863-910 | The normal forms are exactly the sets that normalisation leaves alone |
| `UnionLaws.UnionIgnoresOrder` | crates/wowlua_core/src/types.rs:863-910 | Order and repetition of the arguments do not matter |
| `UnionMeaning.UnionMeansMembers` | crates/wowlua_core/src/types.rs:863-910 | The exact meaning of a union, for every list of types: the values of the arguments but for those only a swallowed enum table had |
| `UnionMeaning.UnionKeepsMeaning` | crates/wowlua_core/src/types.rs:863-910 | Without an enum table beside `table`, a union means exactly its arguments |
| `UnionMeaning.UnionLosesEnum` | crates/wowlua_core/src/types.rs:1033-1036 | With one, the numbers of the enum are lost |
| `UnionStability.StableIff` | crates/wowlua_analysis/src/analysis/proptests.rs:438-444 | Normalising twice gives back the same list unless `boolean` comes out plain while a secret literal stands beside its secret generic type: a condition on the arguments |
| `UnionStability.SecretFreeIsStable` | crates/wowlua_analysis/src/analysis/proptests.rs:438-444 | It is always so without secrets |
| `UnionStability.SecretsUnsettle` | crates/wowlua_core/src/types.rs:896-904 | `boolean`, a secret text and `secret<string>` are such arguments |
| `UnionGrouping.GroupingShowsIff` | crates/wowlua_analysis/src/analysis/proptests.rs:409-416 | Putting some arguments through `make_union` first changes the members exactly if it drops a plain twin that a type of the rest would have collapsed with, or that outlives its secret |
| `UnionGrouping.GroupingIsInvisible` | crates/wowlua_analysis/src/analysis/proptests.rs:409-416 | So never if the arguments grouped first have no secrets |
| `UnionGrouping.GroupingShowsInThreeWays` | crates/wowlua_core/src/types.rs:893-904 | And it does for booleans, for generic types and for literals with secret twins |
| `UnionStability.UnionOfOneType` | crates/wowlua_core/src/types.rs:905-909 | A single type comes out exactly if it is the whole normal form |
| `Assignability.BasicFlow` | crates/wowlua_core/src/types.rs:579-634 | Between types without parts: exactly the same type, or one family with one side that may be any of it |
| `Assignability.AliasFlow` | crates/wowlua_core/src/types.rs:650-653 | An opaque alias flows to and from a type without parts as what it stands for |
| `Assignability.AliasesApart` | crates/wowlua_core/src/types.rs:648-649 | Two differently named aliases never flow into each other |
| `Assignability.SecretActual` | crates/wowlua_core/src/types.rs:588-591 | Secrecy never changes where a value flows |
| `Assignability.SecretExpected` | crates/wowlua_core/src/types.rs:588-591 | Secrecy never changes what flows into a place |
| `Assignability.FlowIntoUnion` | crates/wowlua_core/src/types.rs:592-645 | Into a union exactly if into a member; `nil` only if the union lists it |
| `Assignability.FlowOutOfUnion` | crates/wowlua_core/src/types.rs:640-643 | Out of a union exactly if out of all its members, into any type, intersections included |
| `Assignability.FlowIntoIntersection` | crates/wowlua_core/src/types.rs:640-641 | Into an intersection exactly if into all its parts, for everything but an intersection |
| `Assignability.FlowOutOfIntersection` | crates/wowlua_core/src/types.rs:635-639 | Out of an intersection exactly if out of some part, into everything but an intersection |
| `Assignability.IntersectionsFlow` | crates/wowlua_core/src/types.rs:635-637 | An intersection flows into another one exactly if they are the same or it flows into every part, of which `any` asks for a part to flow at all |
| `Assignability.VariableFlow` | crates/wowlua_core/src/types.rs:647-648 | A type variable flows into everything that has no parts, an alias included, and the other way round |
| `Joins.UnionIsJoin` | crates/wowlua_analysis/src/analysis/proptests.rs:425-436 | Every argument flows into the union, and the union flows wherever all its arguments do |
| `Joins.UnionFlowsWithNormal` | crates/wowlua_core/src/types.rs:863-910 | The exact converse: a union flows where all members of its normal form do |
| `Joins.UnionIsMonotone` | crates/wowlua_analysis/src/analysis/proptests.rs:425-436 | A union of fewer types flows into the union of more |
| `Joins.UnionIsCommutative` | crates/wowlua_analysis/src/analysis/proptests.rs:399-407 | Unions in either order flow into each other |
| `Joins.UnionIsAssociative` | crates/wowlua_analysis/src/analysis/proptests.rs:409-416 | So do unions grouped differently, though the relation is not transitive |
| `Joins.NotTransitive` | crates/wowlua_core/src/types.rs:603-609 | A literal flows into `string` and `string` into another literal |
| `Joins.LiteralsMeet` | crates/wowlua_core/src/types.rs:594-602 | `boolean` flows into `true` although `false` does not |
| `Joins.IntersectionFlowsIff` | crates/wowlua_analysis/src/analysis/proptests.rs:344-378 | An intersection flows into the union made of it and others exactly if some part does, or if no union comes out |
| `Joins.BasicPartsFlowIff` | crates/wowlua_analysis/src/analysis/proptests.rs:344-378 | By the arguments alone, for parts without parts of their own: exactly if some part flows into an argument, or there is none beside the intersection, plain or secret, or `any` takes all in |
| `Joins.BasicIntoUnion` | crates/wowlua_core/src/types.rs:592-645 | A type without parts flows into a union exactly if it flows into one of the arguments the union was made of |
| `Joins.IntersectionGap` | crates/wowlua_analysis/src/analysis/proptests.rs:344-378 | So `number & userdata` does not flow into its union with `nil` |
| `Assignability.BasicFlowTwice` | crates/wowlua_core/src/types.rs:579-634 | Between types without parts the relation is transitive but for two different literals, classes or the like at the ends |
| `Secrecy.StripWrappers` | crates/wowlua_core/src/types.rs:422-428 | Unwraps down to a type that is neither alias nor secret |
| `Secrecy.SecretRoundTrip` | crates/wowlua_core/src/types.rs:932-953 | Marking a secret-free type and stripping the mark gives back its members |
| `Secrecy.MarkingKeepsValues` | crates/wowlua_core/src/types.rs:958-972 | Marking reachable members changes no value but for the mark, and loses none |
| `Secrecy.SecretOfMeaning` | crates/wowlua_core/src/types.rs:932-942 | Marking a type changes no value but for the mark, and loses none |
| `SecretGuards.SecretOfIsExact` | crates/wowlua_core/src/types.rs:932-942 | Exactly the scalar members get secret twins |
| `SecretGuards.MarkingIsExact` | crates/wowlua_core/src/types.rs:958-972 | Exactly the scalar members one of the secrets can be get secret twins |
| `SecretMarks.ReachesIff` | crates/wowlua_core/src/types.rs:958-966 | A secret reaches a scalar member exactly if their union is that member alone |
| `SecretMarks.SecretsAreMarked` | crates/wowlua_core/src/types.rs:958-972 | If a scalar argument of a union is the type of a listed secret, or what that is an alias of, the marked union has every value of it as a secret, whatever normalisation makes of the argument |
| `SecretMarks.WrappableIff` | crates/wowlua_core/src/types.rs:932-942 | What can be marked are booleans, numbers and strings, type variables and aliases |
| `SecretMarks.StripLeavesNoSecret` | crates/wowlua_core/src/types.rs:944-953 | Taking the marks off leaves none, however secrets and unions are nested |
| `SecretGuards.SecretBranchKeeps` | crates/wowlua_core/src/types.rs:827-837 | Where the secrecy guard holds, every value but `nil` stays, and nothing is added but marks |
| `SecretGuards.PlainBranchIsExact` | crates/wowlua_core/src/types.rs:771-788 | Where it does not hold, exactly the unmarked values are left |
| `SecretGuards.StripNilMeaning` | crates/wowlua_core/src/types.rs:659-668 | Only `nil` goes, and the result is again in normal form |
| `Narrowing.StripFalsyMeaning` | crates/wowlua_core/src/types.rs:673-695 | The then-branch of a truth test keeps every truthy value and adds none, and exactly those where members show their falsy values |
| `Narrowing.StripTruthyMeaning` | crates/wowlua_core/src/types.rs:700-722 | The else-branch adds no value, keeps every falsy one where members show them, and nothing else if there is a falsy member |
| `Narrowing.TruthTestCovers` | crates/wowlua_core/src/types.rs:673-722 | The two branches together are exactly the type |
| `ElseBranch.StripTruthyIsSoundIff` | crates/wowlua_core/src/types.rs:700-722 | For every type: the else-branch keeps every falsy value unless some member shows a falsy value and some member has one that none shows |
| `ElseBranch.OptionalHidesFalse` | crates/wowlua_core/src/types.rs:700-722 | So `any?`, and an opaque alias of `boolean` with `nil`, lose `false` |
| `StrippedTwice.StripFalsyIsIdempotent` | crates/wowlua_analysis/src/analysis/proptests.rs:492-498 | Stripping falsy values twice is stripping them once, the order of the members included |
| `StrippedTwice.StripTruthyIsIdempotent` | crates/wowlua_analysis/src/analysis/proptests.rs:492-498 | So it is for truthy values |
| `StrippedTwice.StripNilIsIdempotent` | crates/wowlua_analysis/src/analysis/proptests.rs:492-498 | And for `nil` |
| `TypeGuards.MatchDecides` | crates/wowlua_core/src/types.rs:737-765 | A concrete type matches a guard exactly if its values have a runtime type the guard names |
| `GuardMeaning.MatchIff` | crates/wowlua_core/src/types.rs:737-765 | For every type and any guards: a type matches exactly if, under secrecy and aliases, it has the kind of value some member of the guard names, or is that member; so `any`, type variables, `keyof` and shapes match no result of `type()` |
| `GuardMeaning.SecretMatchIff` | crates/wowlua_core/src/types.rs:744-746 | The guard of `issecretvalue` matches exactly what carries the mark |
| `GuardMeaning.FilterMeaning` | crates/wowlua_core/src/types.rs:827-850 | For every type and guard: where the guard holds, the values of the members that match, or of the guard if none does |
| `GuardMeaning.FilterAdmits` | crates/wowlua_core/src/types.rs:827-850 | For every type, `any` included: where `type(x)` is what a guard says, no value of another runtime type is left |
| `GuardMeaning.FilterKeepsIff` | crates/wowlua_core/src/types.rs:827-850 | A value that the guard admits stays exactly if a member that matches has it, or none matches and it is not secret |
| `GuardMeaning.StripMeaning` | crates/wowlua_core/src/types.rs:771-802 | For every type and guard: where the guard does not hold, the values of the members that do not match, or `nil` if all do |
| `GuardMeaning.StripKeeps` | crates/wowlua_core/src/types.rs:771-802 | For every type, `any` included: no value of another runtime type is lost where the guard does not hold |
| `GuardMeaning.NarrowedIff` | crates/wowlua_core/src/types.rs:804-824 | For any guard: `None` exactly if nothing but the `nil` of an emptied type is left and not all of the guard is constants |
| `MixedGuards.MixedStripIsExact` | crates/wowlua_core/src/types.rs:771-802 | A guard for secrecy and results of `type()` together takes away exactly the secret values and those of the named types |
| `TypeGuards.FilterIsExact` | crates/wowlua_core/src/types.rs:827-850 | Where a `type()` guard holds: exactly the values with an admitted runtime type, or the guard itself if no member fits |
| `TypeGuards.StripIsExact` | crates/wowlua_core/src/types.rs:771-802 | Where it does not hold: exactly the other values, or `nil` if nothing is left |
| `GuardMeaning.NarrowedGivesUp` | crates/wowlua_core/src/types.rs:811-824 | `None` exactly if all members go and `nil` was not one of them; then no value of the type reaches the branch |
| `RepeatedGuards.FilterThenStripLeavesNothing` | crates/wowlua_analysis/src/analysis/proptests.rs:517-525 | For every type: filtering and then stripping by the same guard leaves `nil` |
| `RepeatedGuards.FilterIsIdempotent` | crates/wowlua_analysis/src/analysis/proptests.rs:500-513 | For every type: filtering twice by one guard leaves the members that filtering once does |
| `RepeatedGuards.StripIsIdempotent` | crates/wowlua_analysis/src/analysis/proptests.rs:500-513 | Stripping twice by one guard does, too |
| `Secrets.TruthTestRuleIsExact` | crates/wowlua_core/src/secrets.rs:117-119 | Some value fails a truth test exactly if some secret of the type holds a boolean, under aliases and unions; the rule never reports in vain, and is right exactly if it sees one of these secrets |
| `Secrets.AliasHidesBoolean` | crates/wowlua_core/src/secrets.rs:192-198 | It misses a secret alias of a union with a boolean, and an alias of a secret boolean |
| `SecretResults.SecretsAreExact` | crates/wowlua_core/src/secrets.rs:82-88 | The secret values of a type are exactly the marked values of what its secrets wrap, under aliases, in unions and in the parts of intersections |
| `SecretResults.AndSecretsIff` | crates/wowlua_core/src/secrets.rs:73-88 | Every secret result of `and` has a listed type exactly if the left operand never passes its test as truthy, or the secret members of the right one hold all that its secrets wrap |
| `SecretResults.OrSecretsIff` | crates/wowlua_core/src/secrets.rs:73-88 | Every secret result of `or` has a listed type exactly if the listed types hold all that secrets of the right operand wrap, where the left one can be falsy, and all that secrets of the left one wrap but booleans, where there is a right one |
| `SecretResults.AndOrSecretsIsSound` | crates/wowlua_core/src/secrets.rs:73-88 | So every secret result has a listed type when all secrets of the operands are members the rule looks at, for all types |
| `SecretResults.AliasHidesSecret` | crates/wowlua_core/src/secrets.rs:82-88 | It does not look under an alias: the secret number that `true and x` yields is not listed if the type of `x` is an alias of a secret number |
| `SecretResults.AndOrSecretsIsTight` | crates/wowlua_core/src/secrets.rs:73-79 | Every truthy value of a listed type can be a secret result, given a left operand that lets the right one through, but for booleans that only the left one has |
| `SecretResults.LeftBooleansAreNotListed` | crates/wowlua_core/src/secrets.rs:73-79 | A secret boolean of the left operand is never listed for its sake: its truth test fails |
| `LogicalTypes.SecretResultsHaveType` | crates/wowlua_analysis/src/analysis/resolve.rs:4859-4966 | Every secret that `a and b` or `a or b` can be is a value of the type of the result, marks included, where the operands show their scalar secrets and the left operand of `or` shows whether it can be falsy |
| `LogicalMeaning.OrTypeMeaning` | crates/wowlua_analysis/src/analysis/resolve.rs:4884-4935 | The type of `or` has the truthy values of the left operand and, where that can be falsy, all values of the right one, and no others but for two callables, `any`, and a boolean or `true` |
| `LogicalMeaning.AndTypeMeaning` | crates/wowlua_analysis/src/analysis/resolve.rs:4936-4966 | The type of `and` has exactly the falsy values of the left operand and, unless that is only falsy, all values of the right one, but for `any` on the left and for a boolean and `nil` |
| `LogicalMeaning.AndLosesTo` | crates/wowlua_analysis/src/analysis/resolve.rs:4938-4960 | In these two cases the type has `nil` and the values of the right operand, and no others |
| `LogicalMeaning.AndLosesFalse` | crates/wowlua_analysis/src/analysis/resolve.rs:4938-4960 | In these two cases `false` is lost |
| `LogicalMeaning.OrWidensTo` | crates/wowlua_analysis/src/analysis/resolve.rs:4889-4930 | Where the type of `or` is wider: any function, and `boolean` |
| `LogicalMeaning.OrdinaryResultsHaveType` | crates/wowlua_analysis/src/analysis/resolve.rs:4859-4966 | Every ordinary value that `a and b` or `a or b` can be is a value of the type of the result, for operands with or without secrets |
| `LogicalMeaning.DecayedSpec` | crates/wowlua_analysis/src/analysis/resolve.rs:4877-4882 | An operand is taken for what it is an alias of, and a literal number for any number |
| `LogicalTypes.HiddenTestLosesSecret` | crates/wowlua_analysis/src/analysis/resolve.rs:4893-4908 | Where an alias of `boolean` hides it in a union, `x or y` can be the secret of `y` and has a type without secrets |
| `Secrets.KindsCover` | crates/wowlua_core/src/secrets.rs:174-190 | The kind mask of any type is unknown or has the kinds of all its values |
| `Secrets.EqualityIsSound` | crates/wowlua_core/src/secrets.rs:156-163 | Operands that may be compared never meet as two non-nil values of one runtime type, for all types |
| `Secrets.EqualityIsTight` | crates/wowlua_core/src/secrets.rs:156-190 | On types without parts that may be empty, an equality is reported only if such operands can meet, or a userdata and a thread, which share a bit |
| `Secrets.OperatorRuleIsSound` | crates/wowlua_core/src/secrets.rs:42-67 | No operator that is not reported fails on secrets, and a result judged ordinary is not secret |
| `Secrets.OperatorRuleIsExact` | crates/wowlua_core/src/secrets.rs:42-67 | Secrecy propagates through exactly the operators that can have a secret result; but for equality, exactly those are reported that fail on every secret |
| `Wildcards.SearchIsWild` | crates/wowlua_analysis/src/config.rs:13-37 | From every state of the loop, going back to the last star only decides the recursive definition |
| `Globs.GlobMatch` | crates/wowlua_analysis/src/config.rs:13-37 | The loop computes the search, within the product of the lengths in steps |
| `Globs.GlobFoundIsGlob` | crates/wowlua_analysis/src/config.rs:13-37 | For texts without `*`: true exactly if the glob means the text |
| `Globs.LiteralStarMisleads` | crates/wowlua_analysis/src/config.rs:18-24 | A `*` in the text at any place has a pattern that means the text and is not found |
| `Globs.GlobIsSplit` | crates/wowlua_analysis/src/config.rs:13-37 | A glob of two parts matches exactly the texts that split between them |
| `Globs.GlobOfOne` | crates/wowlua_analysis/src/config.rs:13-37 | `*` matches every text, `?` every byte, any other byte itself |
| `Globs.GlobFoundIsGlobIff` | crates/wowlua_analysis/src/config.rs:13-37 | So exactly the texts without a `*` are safe from all patterns |
| `Globs.PathGlobMatchSegs` | crates/wowlua_analysis/src/config.rs:47-70 | The loop over segments computes the search, within the product of the lengths in steps |
| `Globs.PathFoundIsPathGlob` | crates/wowlua_analysis/src/config.rs:47-70 | For every path: `**` is any number of whole segments and other segments are decided as names are |
| `Globs.PathGlobOfOne` | crates/wowlua_analysis/src/config.rs:47-70 | `**` matches every path, any other segment one segment that its glob matches |
| `Globs.PathGlobIsSplit` | crates/wowlua_analysis/src/config.rs:47-70 | A path glob of two parts matches exactly the paths that split between them |
| `Paths.NormalizeLexically` | crates/wowlua_analysis/src/config.rs:166-182 | The loop over components computes the normalisation |
| `Paths.NormalizeKeepsWalk` | crates/wowlua_analysis/src/config.rs:166-182 | From every directory the normalised path leads where the path leads |
| `Paths.NormalizeIsForm` | crates/wowlua_analysis/src/config.rs:166-182 | No `.`, `..` only in front of a relative path, the root only in front |
| `Paths.NormalizeIsIdempotent` | crates/wowlua_analysis/src/config.rs:166-182 | Normalising twice is normalising once |
| `Paths.NormalizeIsCanonical` | crates/wowlua_analysis/src/config.rs:166-182 | Two paths lead to the same place from everywhere exactly if they normalise to the same path |
| `Flavors.FullyListedFlavors` | crates/wowlua_core/src/flavor.rs:323-336 | The loop that expands names computes the flavors none of whose game types survives |
| `Flavors.FullyListedIsExact` | crates/wowlua_core/src/flavor.rs:308-336 | A flavor is removed exactly if every game type behind it is listed, itself, by its family or by alias |
| `Flavors.ParseGameTypeList` | crates/wowlua_core/src/flavor.rs:269-277 | The loop over the names computes the union of their masks |
| `Flavors.ListMaskIsExact` | crates/wowlua_core/src/flavor.rs:269-277 | A flavor is allowed exactly if some game type behind it is listed, itself, by its family or by alias |
| `Flavors.LineFlavorsAreExact` | crates/wowlua_core/src/flavor.rs:364-367 | With both lists: some game type behind the flavor is allowed and some is not excluded |
| `Flavors.LineFlavorsCoverLoads` | crates/wowlua_core/src/flavor.rs:358-367 | No flavor is lost that some game type loads on; with one list only, none is kept in vain |
| `Flavors.KeptInVainIff` | crates/wowlua_core/src/flavor.rs:364-367 | A flavor is kept in vain exactly if one game type of it is allowed and another not excluded, but all that are allowed are excluded |
| `Flavors.BothListsKeepTooMuch` | crates/wowlua_core/src/flavor.rs:364-367 | As when `tbc` is both allowed and excluded |
| `Flavors.NamesOfJoined` | crates/wowlua_analysis/src/config.rs:1160-1163 | Lists joined by a space name what they name together |
| `TocLines.ParseFileLineDirectives` | crates/wowlua_analysis/src/config.rs:1131-1171 | The scan returns the text outside condition brackets, trimmed, and the flavors of all conditions of the line |
| `TocLines.RenderOfScan` | crates/wowlua_analysis/src/config.rs:1142-1167 | No character of a line is lost or moved by the scan |
| `TocLines.ScanOfRender` | crates/wowlua_analysis/src/config.rs:1142-1167 | Every bracket that is written is found, and nothing else |
| `TocLines.ReadCondition` | crates/wowlua_analysis/src/config.rs:1147-1164 | What a bracket says, from its keyword and arguments |
| `TocLines.PathOfLine` | crates/wowlua_analysis/src/config.rs:1131-1171 | Bracket by bracket: a variable stays in the path as written, every condition vanishes, and nothing else does |
| `TocLines.PathOfText` | crates/wowlua_analysis/src/config.rs:1131-1171 | A line without brackets is its path |
| `Texts.TrimSpec` | crates/wowlua_analysis/src/config.rs:1145-1171 | Trimming takes the white space around a text, all of it and nothing else |
| `TocLines.ExclusionsAddUp` | crates/wowlua_analysis/src/config.rs:1134-1138 | Exclude conditions add up, whether their game types stand in one bracket or in several |
| `TocLines.LineLoadsOn` | crates/wowlua_analysis/src/config.rs:1131-1171 | When a line loads on a flavor, in terms of the game types its brackets name |
| `TocGroups.GroupFlavors` | crates/wowlua_analysis/src/config.rs:976-1014 | The two loops over a group give every TOC its flavors |
| `TocGroups.FlavorsAreConserved` | crates/wowlua_analysis/src/config.rs:976-1014 | TOCs with a suffix load on exactly the flavors their suffixes stand for, and the one without on exactly the others |
| `TocGroups.LeafTocKeepsItsFlavor` | crates/wowlua_analysis/src/config.rs:989-1004 | A TOC for one game type keeps its flavor, whatever its siblings are, a second spelling of it included |
| `TocGroups.FamilyTocGivesUp` | crates/wowlua_core/src/flavor.rs:317-321 | A family TOC gives up exactly the flavors all of whose game types have a TOC of their own |
| `TocGroups.MainlineKeepsRetail` | crates/wowlua_core/src/flavor.rs:282-299 | Two retail game types are no suffixes, so a `Mainline` TOC always keeps retail |
| `XmlScan.ScanIsVisit` | crates/wowlua_analysis/src/xml_scan.rs:246-364 | For every well-nested document with self-closing key values: the events leave the stack empty and find what one recursion over the tree finds, keys on the nearest enclosing frame, nested fields put into the field at every depth, classes after their content, intrinsics in document order |
| `XmlScan.PassIsVisit` | crates/wowlua_analysis/src/xml_scan.rs:262-364 | The same for any content from any stack: only the innermost open frame and the output change, as the recursion says |
| `XmlScan.ScriptIsSkipped` | crates/wowlua_analysis/src/xml_scan.rs:270-279 | The content of a script, scripts inside it included, leaves the scan as it is |
| `XmlScan.VisitKeepsFrame` | crates/wowlua_analysis/src/xml_scan.rs:376-429 | Reading the content of a frame never changes its name or whether it is a template |
| `XmlTheorems.DepthAfter` | crates/wowlua_analysis/src/xml_scan.rs:267-330 | Any content takes as many entries off the stack as it has key values with separate tags, as long as there are any |
| `XmlTheorems.StackReturnsIff` | crates/wowlua_analysis/src/xml_scan.rs:384-388 | The stack comes back as deep as it was exactly if it was empty or all key values are self-closing |
| `XmlTheorems.StackIsNestingIff` | crates/wowlua_analysis/src/xml_scan.rs:262-364 | At every place of every document the stack holds at most the open elements outside scripts, and exactly these if no key value with separate tags is around the place or comes before it in an element around it |
| `XmlTheorems.OpenKeyValueEndsFrame` | crates/wowlua_analysis/src/xml_scan.rs:384-388 | A key value with separate tags ends the frame around it |
| `XmlTheorems.NestedFieldsShow` | crates/wowlua_analysis/src/xml_scan.rs:746-782 | What a frame without a name gathered can be reached through the field that its tag makes it on the frame around it |
| `XmlTheorems.AddedFieldShows` | crates/wowlua_analysis/src/xml_scan.rs:656-695 | The first child with a key decides what the field is; other fields are left alone |
| `XmlTheorems.EnrichedFieldShows` | crates/wowlua_analysis/src/xml_scan.rs:746-782 | Enriching intersects the field of that name and no other |
| `XmlTheorems.ParentsSpec` | crates/wowlua_analysis/src/xml_scan.rs:981-992 | A class has the frame type first, then everything it inherits and mixes in, once each |
| `XmlTheorems.ChildTypeSpec` | crates/wowlua_analysis/src/xml_scan.rs:609-653 | A child's field has the child's own type first, and everything it inherits and mixes in |
| `XmlTheorems.AugmentsSpec` | crates/wowlua_analysis/src/xml_scan.rs:946-957 | Every mixin but the frame's own name is augmented, named frame or not |
| `XmlTheorems.RunPublishes` | crates/wowlua_analysis/src/xml_scan.rs:959-1034 | For any events at all: the classes have valid names and are exactly the templates and the table globals |
| `XmlPublishing.FinalizePublishesFrame` | crates/wowlua_analysis/src/xml_scan.rs:945-1152 | What the end of a frame adds and nothing else: augments of its mixins and, for a valid name, one class with the type and place of every field it gathered, `any` for the global values of a template, its parents and its span, and the globals in order or the name of the template |
| `XmlPublishing.KeyValueDeclares` | crates/wowlua_analysis/src/xml_scan.rs:521-583 | A key value declares a field of its type unless there is one, or a global value whose path is the value split at its dots |
| `XmlPublishing.ChildDeclares` | crates/wowlua_analysis/src/xml_scan.rs:656-729 | The tag of a child declares the field of its key and that of its array, unless there are fields of these names; a dotted key declares none |
| `XmlPublishing.VisitGathers` | crates/wowlua_analysis/src/xml_scan.rs:262-364 | Whatever follows in its content, a frame keeps all it has gathered; the first declaration of a field decides its type, which only gains nested fields; every field has a place |
| `XmlPublishing.ContainersVanish` | crates/wowlua_analysis/src/xml_scan.rs:418-428 | An element that is no frame counts for nothing: its content belongs to the frame around it |
| `XmlPublishing.ElementIsPublished` | crates/wowlua_analysis/src/xml_scan.rs:267-330 | An element with a valid name publishes what its frame gathers, from its opening to its closing tag, and the rest of the document takes nothing back |
| `XmlPublishing.EmptyIsPublished` | crates/wowlua_analysis/src/xml_scan.rs:404-417 | So does an empty tag, which gathers nothing |
| `XmlPublishing.ChildIsPublished` | crates/wowlua_analysis/src/xml_scan.rs:477-485 | A child with a key, anywhere in a named frame, is a field of the class of that name, with the child's own type intersected at most with fields found inside it |
| `XmlNames.ValidNameIff` | crates/wowlua_analysis/src/xml_scan.rs:119-129 | A valid name is a letter or underscore followed by letters, digits and underscores |
| `XmlNames.ParentNameIff` | crates/wowlua_analysis/src/xml_scan.rs:133-176 | `$parent` is the name of the innermost frame that has one or is a template, unless that is a template |
| `XmlNames.ParentIsReplaced` | crates/wowlua_analysis/src/xml_scan.rs:133-176 | Every `$parent`, in any case, is replaced from left to right and all else stays; without a parent the name cannot be resolved |
| `XmlNames.PlainNameStays` | crates/wowlua_analysis/src/xml_scan.rs:133-138 | A name without it stays as it is, whatever the parent |
| `XmlNames.MixinsSpec` | crates/wowlua_analysis/src/xml_scan.rs:453-463 | A tag has the mixins of both its lists, each once |
| `XmlNames.InlineMixinsAreGathered` | crates/wowlua_analysis/src/xml_scan.rs:882-902 | Mixins applied in a script text, anywhere in the content of a frame, are bound and are mixins of the frame, with those it had |
| `XmlNames.FrameTells` | crates/wowlua_analysis/src/xml_scan.rs:390-495 | The tag of a frame binds exactly its handler, if it is an `On` element, and its mixins, of valid names; it makes a name an element exactly if it is an intrinsic of that name |
| `XmlNames.IntrinsicIsElement` | crates/wowlua_analysis/src/xml_scan.rs:398-408 | Once declared, an intrinsic is an element of its own type in all that follows |
| `XmlNames.ElementHasType` | crates/wowlua_analysis/src/xml_scan.rs:398-408 | Other elements have the type that the table of elements gives them, if any |
| `XmlNames.NamedStaysApart` | crates/wowlua_analysis/src/xml_scan.rs:311-327 | A frame with a name or without fields is a field of the frame around it by its tag alone |
| `XmlScanner.ScanContext.Scan` | crates/wowlua_analysis/src/xml_scan.rs:246-373 | The event loop on the mutable context is the machine |
| `XmlScanner.ScanContext.ProcessOpenTag` | crates/wowlua_analysis/src/xml_scan.rs:376-429 | Key values, frames, intrinsics and containers, opening or self-closing |
| `XmlScanner.ScanContext.HandleFrameElement` | crates/wowlua_analysis/src/xml_scan.rs:432-518 | The fields on the frame around, the bound names, the intrinsic and the new entry |
| `XmlScanner.ScanContext.ResolveParentName` | crates/wowlua_analysis/src/xml_scan.rs:133-180 | `$parent` is the innermost named frame, unless a template comes first |
| `XmlScanner.ScanContext.HandleKeyValue` | crates/wowlua_analysis/src/xml_scan.rs:521-583 | One field or global value on the innermost open frame, by its type |
| `XmlScanner.ScanContext.RegisterFields` | crates/wowlua_analysis/src/xml_scan.rs:656-732 | Key and array fields on the innermost open frame, first come first served |
| `XmlScanner.ScanContext.EnrichParentField` | crates/wowlua_analysis/src/xml_scan.rs:746-782 | The child's fields go into the field of its key on the innermost open frame |
| `XmlScanner.ScanContext.RecordInlineMixins` | crates/wowlua_analysis/src/xml_scan.rs:882-902 | Inline mixins go to the innermost open frame, once each, and are bound |
| `XmlScanner.ScanContext.CloseElement` | crates/wowlua_analysis/src/xml_scan.rs:296-330 | The entry on top ends: enrich first, then finalize |
| `XmlScanner.ScanContext.FinalizeFrame` | crates/wowlua_analysis/src/xml_scan.rs:946-1150 | Augments before the name gate, then the class, the template or global, and the field globals |
| `Positions.LspPositionToOffset` | crates/wowlua_lsp/src/lsp.rs:114-127 | The loop over the lines computes the offset of a position |
| `Positions.Utf16ColToByteCol` | crates/wowlua_lsp/src/lsp.rs:99-108 | The loop over the characters computes the byte column of a UTF-16 column |
| `Encodings.MeasureIsLength` | crates/wowlua_lsp/src/lsp.rs:95-108 | What positions measure is the length of the text in UTF-8 and in UTF-16 |
| `Encodings.BoundaryIff` | crates/wowlua_lsp/src/lsp.rs:136-145 | An offset is a boundary exactly if no byte there continues a character |
| `Encodings.DecodedEncoded` | crates/wowlua_lsp/src/lsp.rs:95-108 | Both encodings with these lengths can be read back, so the lengths are those of the standards |
| `Positions.LspPositionIsCursor` | crates/wowlua_lsp/src/lsp.rs:61-73 | The position of an offset is where a cursor stands that has moved there character by character; offsets beyond the end count as the end |
| `Positions.PositionRoundTrip` | crates/wowlua_lsp/src/lsp.rs:61-127 | Every offset on a character boundary survives the way to its position and back, in both encodings |
| `Positions.LspPositionIsMonotone` | crates/wowlua_lsp/src/lsp.rs:61-73 | A later offset has a later position |
| `Positions.Utf16PositionLands` | crates/wowlua_lsp/src/lsp.rs:99-127 | Every UTF-16 position of a line leads to a character boundary of that line, and back to its column rounded up inside a surrogate pair and cut off at the line's end |
| `Positions.Utf8LandsIff` | crates/wowlua_lsp/src/lsp.rs:114-127 | The offset of a UTF-8 position is inside a character exactly if the column is inside a character of the line |
| `Positions.Utf8PositionLands` | crates/wowlua_lsp/src/lsp.rs:114-127 | Every other UTF-8 position of a line leads to a character boundary, and back to itself, cut off at the line's end |
| `LayeredMaps.LayerIsCopy` | crates/wowlua_analysis/src/analysis/layered_map.rs:18-58 | Under every sequence of writes a file sees what it would see in its own copy, and hides only entries of the shared map |
| `LayeredMaps.LayeredMap.Get` | crates/wowlua_analysis/src/analysis/layered_map.rs:30-35 | A lookup agrees with the visible map |
| `LayeredMaps.LayeredMap.Insert` | crates/wowlua_analysis/src/analysis/layered_map.rs:41-43 | A write changes the visible map at its name only |
| `LayeredMaps.LayeredMap.Remove` | crates/wowlua_analysis/src/analysis/layered_map.rs:45-51 | A removal takes its name out of the visible map, and out of the layer if nothing is to be hidden |
| `LayeredMaps.LayeredMap.Iter` | crates/wowlua_analysis/src/analysis/layered_map.rs:53-58 | Iteration lists the visible map, every key once |
| `LayeredMaps.LayeredMap.IsEmpty` | crates/wowlua_analysis/src/analysis/layered_map.rs:73-77 | Empty exactly if nothing is visible |

## Left out

- FlowTheorems.FlowMergingIsSound: covers variables declared before the program runs, because the symbols of locals declared inside a block are skipped when that block is merged or forwarded; loops, `repeat`, closures, upvalues, narrowing by guards, casts and annotations of `build_ir` are not modelled.
- FlowProgram.ExitsNeverFall: knows `return` and `error()`, which are one statement here; `break` and infinite loops are not modelled, because there are no loops.
- FlowBuilder.IrBuilder.MergeChain: goes through the symbols in ascending order where the source iterates over a hash map; expressions are trees where the source stores them in an arena and refers to them by index; a merge of an external symbol, symbols local to a branch, versions made by narrowing and narrowed branches are not modelled.
- FlowBuilder.IrBuilder.ForwardVersionsToParent: symbols local to the popped scope and versions made by narrowing, which the source skips, are not modelled.
- FlowBuilder.IrBuilder.FinalizePoppedFrame: the forwarding of loop bodies, which the source documents as unsound for empty loops, and everything it does for functions are not modelled.
- Assignability.BasicFlow: table shapes and function signatures are opaque; subclass tests, generics and overloads are outside the type algebra modelled here.
- TypeGuards.FilterIsExact: types whose runtime type cannot be read off them are excluded, and guards are results of `type()` and unions of these; `GuardMeaning` has the statements for all types. A union inside the union of a guard is not modelled.
- LogicalTypes.SecretResultsHaveType: concerns scalar secrets that are members, as marking makes them, and left operands of `or` whose members show whether they can be falsy; operators other than `and` and `or` have no result types here.
- LogicalMeaning.OrdinaryResultsHaveType: excludes tables of a `@enum` in unions, which normalisation can swallow, members that hide whether they are falsy, and the two cases where `and` loses values.
- XmlPublishing.ChildIsPublished: is stated at the element whose frame it is; what an element publishes is part of what any content around it does.
- Secrets.TruthTestRuleIsExact: types with parts that can hold anything are excluded (`any`, type variables, intersections); argument policies and addon restrictions are finite tables and not modelled.
- SecretResults.AndSecretsIff: excludes type variables outside secrets, as their secret values cannot be read off the type.
- SecretResults.OrSecretsIff: excludes the same.
- Secrecy.SecretRoundTrip: concerns the members, not their order.
- Globs.PathGlobMatchSegs: takes segments; splitting a path at its slashes is not modelled.
- Paths.NormalizeLexically: has no Windows prefixes.
- Flavors.FullyListedFlavors: masks are sets of flavors instead of bits of a byte, and recognised game type names are lexed into a datatype.
- TocLines.ParseFileLineDirectives: strings are sequences of characters, and an index into the line replaces the rest of it.
- TocGroups.GroupFlavors: one group at a time; reading the files, their headers, the expansion of path variables and the union per file are not modelled.
- XmlScanner.ScanContext.Scan: takes events with their attributes already split; the XML reader, the table of element names, the text search for inline mixins and the class fields that are always empty are not modelled.
- Positions.LspPositionToOffset: offsets and columns do not wrap around at 32 bits.
- LayeredMaps.LayeredMap.Iter: hash map order is an arbitrary choice; the clone of a map and the views on its keys and values are not modelled.
- Command line, configuration files, directory walking, diagnostics, documentation and editor extensions are plumbing or presentation around these kernels.
