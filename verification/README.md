# Verification model of sqlc-ydb

A Dafny model of the analyzer of sqlc-ydb: the part that types YQL expressions, infers query parameters, replays schema
DDL, rewrites SQL text, maps diagnostics back to the authored text, checks schemas and proposed queries for drift, and
writes SQL into Java sources. `dafny verify dfyconfig.toml` checks the project.

Code that computes by recursion and case analysis is modelled as functions. Code that changes things step by step is
modelled as methods with loops, arrays and classes, each proved against a function or a declarative specification; the
properties are then proved about that specification.

## The parts

* **Types** (`Types`, `CommonTypes`, `Casts`): `Type.Equal` as equality up to the order of Struct members; `CommonType`
  as the join of a chain; integer casts against the values that integers have.
* **Expressions** (`Expressions`, `TypingRules`, `Resolver`, `Comparisons`, `Evaluation`, `Conformance`, `RuleSoundness`,
  `Soundness`): the recursive resolver and, as a reference, an evaluator under three-valued logic that compares containers
  member by member. An expression typed neither Optional nor Null is never NULL, provided that its comparisons and IN have
  operands without Optional below the top; the one assumption on the engine is that comparing two scalars that are not
  NULL never gives NULL. The condition on the operands is exact (`ComparisonIsNeverNullExactly`).
  How tight the types are is said the other way round: an operator on parameters is typed Optional or Null if and only if
  some arguments make it NULL (`Witnesses`, `Exactness`, `BranchExactness`, and `ColumnResolution` for columns of padded
  rows); which operands each rule accepts, and its answer, is said by the values that types have (`Acceptance`).
* **Lambdas and scope** (`LambdaScopes`, `ScopeMarking`, `Parameters`): resolution ends because captured environments get
  shallower; calls are statically scoped; the walk over shared and cloned name maps marks lexical scope.
* **Joins** (`Joins`): the marks of outer joins against the rows that a join chain delivers; they are exact.
* **Type text** (`TypeText`, `FieldNames`, `TypeReader`, `StrictTypeText`): the printer and the cursor parser. `TypeText` gives the
  parser as functions on the text still to be read, `TypeReader` the reader with its index, and `StrictTypeText` a reader
  that takes parentheses only behind Decimal.
* **Catalog** (`Slices`, `Catalog`, `CatalogEffects`, `CatalogRuns`, `CatalogUndo`, `CatalogHeap`): CREATE, ALTER and DROP
  TABLE on values, what each declares, and the same on slices over shared arrays, where ALTER works on a clone and commits
  once.
* **Checks** (`Drift`, `VerifyQuery`): the schema drift check and the check of proposed queries.
* **Rewriting** (`SourceMaps`, `MacroLowering`, `MacroExactness`): span replacement, chained source maps, line and column
  positions, and the lowering of `sqlc.arg`, `sqlc.narg` and `sqlc.slice`.
* **Inference and projection** (`Inference`, `ImplicitNames`, `Wildcards`, `WildcardExpansion`, `Union`,
  `ResultColumns`): parameter types, implicit `columnN` names, wildcards and WITHOUT, UNION columns.
* **Java literals** (`JavaTextBlocks`, `JavaReader`, `JavaRoundTrip`): the printers and a reader that follows sections
  3.3, 3.10.6 and 3.10.7 of the Java Language Specification, Java SE 17.
* `Sorting`, `Text` and `Wrappers` hold what the others share.

## Where the code differs from what one might expect

* A comparison of two Struct, Tuple or List values is typed plain Bool although Optional parts make it NULL:
  `Struct<a:Optional<Int32>>` (`OptionalMemberIsUnsound`; exactly which types: `ComparisonIsNeverNullExactly`).
* A chain of comparisons that ends in IS [NOT] DISTINCT FROM but has another comparison in it is typed Optional when an
  operand is, although it is never NULL (`CompareIsExact`; where all or none are null-safe the type is exact).
* A CASE result is counted even if its WHEN can never hold, such as the literal NULL: the CASE is then typed Optional
  although that result is never chosen (`CaseIsExact`).
* `Type.Equal` is one-sided on types that repeat a field name (`EqualOneSidedOnRepeatedNames`; how far it is symmetric:
  `EqualIsSymmetricExactly`); parsed types never do.
* `parseType` consumes an opening parenthesis behind any type name, so `Int32(` is read as `Int32`; this never shows on
  texts whose parentheses balance, and callers pass no others (`LeftOpenIsAccepted`).
* The source-map entry of the inserted pragma is recorded in authored offsets although its place was searched in the
  rewritten text. It is right if and only if no replacement starts in the first line (`PragmaEntryIsRight`), which holds
  for every query block whose annotation ends at the first newline.
* A table created or renamed with an empty name, written as an empty quoted identifier, cannot be named by a later
  statement, so DROP and RENAME back fail exactly then (`CreateThenDrop`, `RenameBack`; such statements succeed:
  `EmptyCreateIsAccepted`, `EmptyRenameIsAccepted`).
* A Java text block loses the end of a line that ends in white space outside ASCII, such as an ideographic space, because
  only an ASCII space is escaped there (`BlockReads`, `BlockRoundTrip`).
* The common type of two integer kinds need not hold the values of both: `Int8` and `Uint16` give `Uint16`
  (`CommonIntegerHoldsBoth`).

## Model

| member | source | states |
|---|---|---|
| `Types.CheckEqual` | internal/model/model.go:60-91 | the loops of Type.Equal, with the field map filled before it is searched, decide the declarative relation Equal |
| `Types.EqualIsSameShape` | internal/model/model.go:60-91 | on types with distinct field names Equal holds exactly between types that differ at most in the order of Struct members, at every depth |
| `Types.EqualIsEquivalence` | internal/model/model.go:60-91 | on such types Equal is reflexive, symmetric and transitive |
| `Types.EqualIsSymmetricExactly` | internal/model/model.go:60-91 | for a type without repeated field names, Equal(a, b) holds exactly when Equal(b, a) does and b repeats no field name either |
| `Types.EqualOneSidedOnRepeatedNames` | internal/model/model.go:79-90 | a repeated field name makes Equal hold in one direction only |
| `CommonTypes.ComputeCommonType` | internal/yql/builtins/common.go:15-49 | the fold over `common` and `nullable` computes the specification CommonType |
| `CommonTypes.CommonConcreteIsMax` | internal/yql/builtins/common.go:51-85 | two concrete types have a common type exactly when they are comparable in the chain of numeric kinds or Equal, and it is the larger one |
| `CommonTypes.CommonTypeSucceeds` | internal/yql/builtins/common.go:15-49 | CommonType succeeds exactly on legal, pairwise comparable types of which one is concrete |
| `CommonTypes.CommonTypeIsJoin` | internal/yql/builtins/common.go:15-49 | the answer is the maximum of the concrete inputs, Optional exactly when an input is Optional or Null |
| `CommonTypes.CommonTypeDependsOnMembersOnly` | internal/yql/builtins/common.go:15-49 | success, and the answer up to Equal, depend on the set of inputs only: not on order, not on repetition |
| `CommonTypes.CommonTypeOfGroups` | internal/yql/builtins/common.go:15-49 | joining two groups and then their answers is joining all inputs |
| `Casts.IntegerCastIsExact` | internal/yql/builtins/cast.go:12-33 | the type of an integer CAST holds every converted value, and is Optional exactly when the input or the target is or some value of the input cannot be represented |
| `Casts.LosslessCastRoundTrip` | internal/yql/builtins/cast.go:78-88 | a CAST typed without an added Optional can be undone on every value |
| `Casts.CastNullability` | internal/yql/builtins/cast.go:12-33 | a supported CAST of a value has the target's type, Optional exactly when the input or the target is or the conversion may fail; CAST(NULL AS T) is always Optional |
| `Casts.CommonIntegerHoldsBoth` | internal/yql/builtins/common.go:69-85 | the common integer kind holds all values of both kinds exactly when the signs agree or the signed kind is strictly wider |
| `TypingRules.TotalCastLosesNothing` | internal/yql/builtins/cast.go:78-88 | totalIntegerCast holds exactly when every value of the source kind is a value of the target kind |
| `TypingRules.WideningLosesNothing` | internal/yql/builtins/arithmetic.go:26-36 | CanWidenInteger holds exactly when no integer and no NULL is lost |
| `TypingRules.ComputeArithmeticType` | internal/analyzer/arithmetic.go:12-48 | the left fold over operands and operators, stopping at the first error, computes the arithmetic rule |
| `TypingRules.ComputeLogicType` | internal/analyzer/boolean.go:11-67 | the loop over `result` and `optional` computes the declarative rule for AND, OR, XOR and NOT |
| `TypingRules.ComputeConcatType` | internal/analyzer/semantic.go:1182-1219 | the loop over the operands of `\|\|` computes the concatenation rule |
| `TypingRules.ComputeCaseType` | internal/analyzer/expression.go:348-412 | the loop over the arms of CASE computes the CASE rule |
| `TypingRules.ComputeCoalesceType` | internal/yql/builtins/coalesce.go:15-55 | the loop over the arguments computes the COALESCE rule, literals that fit a kind included |
| `TypingRules.ComputeMemberType` | internal/analyzer/member.go:98-120 | the loop over a member path computes the type of the last member, Optional once a base was |
| `Acceptance.IntegerLiteralKind` | internal/analyzer/literal.go:97-206 | an integer literal has the kind its suffix names, or the narrower of Int32 and Int64, and is refused exactly when that kind does not hold it |
| `Acceptance.LiteralIsExact` | internal/analyzer/literal.go:97-206 | only the literal NULL is NULL, and only it is typed so; the other literals have the kind they are written with |
| `Acceptance.LogicAccepts` | internal/analyzer/boolean.go:11-67 | AND, OR, XOR and NOT accept exactly NULL literals and types that have only truth values; the result has truth values, too, except that NOT NULL is a Null |
| `Acceptance.ArithmeticAccepts` | internal/analyzer/arithmetic.go:12-48 | two or more operands are accepted exactly when every operator is supported and every operand type has only numbers |
| `Acceptance.ConcatAccepts` | internal/analyzer/semantic.go:1182-1219 | concatenation accepts exactly NULL literals and texts of one kind; without NULL literals the result has that kind, Optional exactly when an operand is |
| `Acceptance.CompareAccepts` | internal/analyzer/expression.go:120-196 | a comparison accepts exactly two or more operands, with an operator between any two, that have a common type or are all NULL |
| `Acceptance.InAccepts` | internal/analyzer/predicate.go:148-218 | IN accepts exactly a left side that has a common type with the values, of which there is one at least, or with the items of the list |
| `Acceptance.CaseAccepts` | internal/analyzer/expression.go:348-412 | without a selector the conditions of CASE have only truth values or are NULL, with one each is comparable to it; the type is the common type of the results and ELSE |
| `Acceptance.IfAccepts` | internal/yql/builtins/resolve.go:240-257 | IF accepts exactly a condition that has only truth values; the type is the common type of its branches, and a missing third argument is NULL |
| `Acceptance.CoalesceOfTwo` | internal/yql/builtins/coalesce.go:15-55 | two arguments of COALESCE meet exactly when the second is an integer literal that fits the first, both are texts, or one type is below the other; the result is the first kind, String, or the larger type |
| `Acceptance.StructAccepts` | internal/yql/builtins/collection.go:21-41 | a struct literal needs as many values as members, distinct nonempty member names and legal types |
| `Acceptance.MemberPathsCompose` | internal/analyzer/member.go:98-120 | a member path can be followed in two parts |
| `Acceptance.MemberOfOptional` | internal/analyzer/member.go:98-120 | a member of an Optional struct has the member's type, Optional unless it already is; a name that no field has is an error |
| `Acceptance.ListApplyAccepts` | internal/yql/builtins/collection.go:94-124 | ListFilter accepts exactly callbacks with only truth values, ListMap those with a legal type that is neither Null nor Void; the result is a list of the items or of the results, Optional exactly when the list is |
| `RuleSoundness.LiteralSound` | internal/analyzer/literal.go:97-206 | the value of a literal conforms to its type; an integer without suffix gets the kind that holds it |
| `RuleSoundness.ArithmeticFoldSound` | internal/analyzer/arithmetic.go:12-48 | three-valued arithmetic on conforming operands gives a value of the folded type |
| `RuleSoundness.LogicSound` | internal/analyzer/boolean.go:11-67 | three-valued AND, OR, XOR and NOT of conforming operands give a value of the declared type |
| `RuleSoundness.ConcatSound` | internal/analyzer/semantic.go:1182-1219 | concatenation of conforming operands gives a value of the declared type |
| `RuleSoundness.CompareSound` | internal/analyzer/expression.go:120-196 | a chain of comparisons between operands that are Optional at most at the top gives NULL only where the declared Bool is Optional; IS [NOT] DISTINCT FROM never does, whatever its operands |
| `RuleSoundness.InValuesSound` | internal/analyzer/predicate.go:148-218 | IN over a value list is typed soundly for such operands, NULLs on either side included |
| `RuleSoundness.InListSound` | internal/analyzer/predicate.go:148-218 | IN over a list is typed soundly for such operands, an absent list and absent items included |
| `RuleSoundness.CaseSound` | internal/analyzer/expression.go:348-412 | whichever arm CASE chooses, its value conforms to the declared type |
| `RuleSoundness.IfSound` | internal/yql/builtins/resolve.go:240-257 | IF with two or three arguments is typed soundly |
| `RuleSoundness.CoalesceFoldSound` | internal/yql/builtins/coalesce.go:15-55 | the first argument that is not NULL conforms to the declared type |
| `RuleSoundness.CoalesceIsOptionalExactly` | internal/yql/builtins/coalesce.go:15-55 | COALESCE is Optional exactly when every argument that is not Null is Optional |
| `RuleSoundness.MemberSound` | internal/analyzer/member.go:98-120 | the value under a member path conforms to the declared type, NULL bases included |
| `RuleSoundness.StructSound` | internal/yql/builtins/collection.go:21-41 | a struct literal has a value of its declared type |
| `RuleSoundness.AsListSound` | internal/yql/builtins/collection.go:43-52 | a list literal has a value of its declared type |
| `RuleSoundness.ListApplySound` | internal/yql/builtins/collection.go:94-124 | ListMap and ListFilter give a list of the declared type, NULL for a NULL list only if that is Optional |
| `Exactness.ArithmeticIsJoin` | internal/analyzer/arithmetic.go:12-48 | a chain of two or more operands has the largest of their types, Optional exactly when one of them is |
| `Exactness.ArithmeticIsExact` | internal/analyzer/arithmetic.go:12-48 | arithmetic on parameters is typed Optional or Null if and only if some arguments of the parameters' types make it NULL |
| `Exactness.LogicIsExact` | internal/analyzer/boolean.go:44-66 | AND, OR, XOR and NOT on parameters are typed Optional or Null if and only if some truth values make them NULL |
| `Exactness.ConcatIsExact` | internal/analyzer/semantic.go:1182-1219 | concatenation of parameters is typed Optional or Null if and only if some arguments make it NULL |
| `Exactness.NullCheckIsKnown` | internal/analyzer/expression.go:120-172 | IS [NOT] NULL is never typed Optional or Null and never is NULL; IS NULL is TRUE exactly for NULL, IS NOT NULL exactly for all else |
| `Exactness.CompareIsExact` | internal/analyzer/expression.go:120-196 | a chain of comparisons is typed Optional exactly when an operand may be NULL and not every comparison is null-safe, and it can be NULL exactly when no comparison behind such an operand is null-safe |
| `Exactness.UniformComparisonIsExact` | internal/analyzer/expression.go:120-196 | where all comparisons of a chain are null-safe or none is, in particular for one comparison, the two conditions are the same: it is typed Optional if and only if it can be NULL |
| `BranchExactness.InValuesIsExact` | internal/analyzer/predicate.go:148-218 | IN over values is typed Optional if and only if some arguments make it NULL |
| `BranchExactness.InListIsExact` | internal/analyzer/predicate.go:148-218 | IN over a list is typed Optional if and only if some value and list make it NULL |
| `BranchExactness.CaseIsExact` | internal/analyzer/expression.go:348-412 | CASE is typed Optional exactly when ELSE or a result may be NULL, and it can be NULL exactly when ELSE may be or a result may be whose WHEN can hold |
| `BranchExactness.IfIsExact` | internal/yql/builtins/resolve.go:240-257 | IF is typed Optional if and only if some arguments make it NULL |
| `BranchExactness.CoalesceIsExact` | internal/yql/builtins/coalesce.go:15-55 | COALESCE is typed Optional if and only if some arguments make it NULL |
| `BranchExactness.MemberIsExact` | internal/analyzer/member.go:98-120 | a member path is typed Optional or Null if and only if some base value makes it NULL |
| `BranchExactness.StructThenMember` | internal/yql/builtins/collection.go:21-41 | a struct literal gives each member back with the type it was written with |
| `BranchExactness.ItemsOfLists` | internal/yql/builtins/collection.go:43-124 | a list literal hands callbacks the common type of its items, ListMap the type of its results, ListFilter the type of its items |
| `BranchExactness.ListApplyIsExact` | internal/yql/builtins/collection.go:94-124 | ListMap and ListFilter are typed Optional if and only if some list makes them NULL, whatever the callback |
| `ColumnResolution.ReferenceIsUnique` | internal/analyzer/semantic.go:1362-1397 | where no GROUP BY alias takes the name, a reference resolves if and only if exactly one column of the sources it qualifies has that name, and then to that column, Optional if its source is optional |
| `ColumnResolution.AliasComesFirst` | internal/analyzer/semantic.go:1362-1397 | an unqualified name means the first GROUP BY alias that has it, with its own type, whatever the sources have |
| `ColumnResolution.ColumnIsExact` | internal/analyzer/semantic.go:1362-1397 | a column is typed Optional or Null if and only if some row of the sources makes it NULL |
| `Soundness.ColumnSound` | internal/analyzer/semantic.go:1362-1397 | the value found by a column reference conforms to the resolved type, a GROUP BY alias and a padded row included |
| `Soundness.ExpressionSound` | internal/analyzer/expression.go:24-80 | every expression that resolves and whose comparisons are settled has a value in every conforming environment, and the value conforms to the resolved type |
| `Soundness.NullabilitySound` | internal/analyzer/expression.go:24-274 | a settled expression typed neither Optional nor Null is never NULL, lambdas with captured environments included |
| `Soundness.ComparisonIsNeverNullExactly` | internal/analyzer/expression.go:173-196 | at every type that is not Optional a comparison is typed plain Bool, and it is never NULL if and only if the type has no Optional, no Null and no unmodelled value inside |
| `Soundness.OptionalMemberIsUnsound` | internal/analyzer/expression.go:173-196 | under every engine the comparison of two Struct<a:Optional<Int32>> values, typed plain Bool, is NULL for a member that is NULL |
| `Comparisons.ComparisonIsKnown` | internal/analyzer/expression.go:173-196 | comparing values without NULL inside, member by member, is TRUE or FALSE when it is for scalars; null-safe comparison always is |
| `Expressions.CapturedIsShallower` | internal/analyzer/lambda.go:39-123 | calling a captured lambda moves to a strictly shallower environment, which is why resolution ends |
| `LambdaScopes.Coincidence` | internal/analyzer/expression.go:24-274 | an expression resolves alike in any two scopes that agree on its free names |
| `LambdaScopes.LambdaCoincidence` | internal/analyzer/lambda.go:39-123 | a lambda resolves alike wherever the names it takes from outside mean the same |
| `LambdaScopes.RunScript` | internal/analyzer/semantic.go:632-746 | the loop over the assignments of a script gives the locals and the number of diagnostics of the specification |
| `LambdaScopes.RunKeepsNames` | internal/analyzer/semantic.go:662-665 | no later statement changes what an assigned name means |
| `LambdaScopes.LocalsAreAssigned` | internal/analyzer/semantic.go:632-746 | the locals of a script are exactly the names that are not declared and that some statement gives a type where it stands |
| `LambdaScopes.DiagnosticsAndLocals` | internal/analyzer/semantic.go:632-746 | every statement either adds one local or gets one diagnostic |
| `LambdaScopes.FreeNamesAreBound` | internal/analyzer/expression.go:24-274 | an expression resolves only where all its free names are bound |
| `LambdaScopes.CapturedAsAssigned` | internal/analyzer/semantic.go:693-705 | a lambda captures every name with the type that an assignment from it would get at the same place, that of the local before the declared one; exactly the other names have their inferred type, if it is unambiguous |
| `LambdaScopes.CallIsAssignment` | internal/analyzer/semantic.go:693-705 | wherever an expression can be assigned, a lambda of the same body gives its type in every later call, however the script goes on |
| `LambdaScopes.CallsAreStaticallyScoped` | internal/analyzer/expression.go:485-513 | the type of a call depends on the definition's environment and the argument types, never on the place of the call |
| `LambdaScopes.OnlyUsedNamesAreCaptured` | internal/analyzer/semantic.go:693-705 | two captures of one lambda that agree on the names it uses answer every call alike |
| `LambdaScopes.AliasesCallTheSameLambda` | internal/analyzer/semantic.go:716-730 | after `$g = $f` calls of g and calls of f have the same type, however the script goes on |
| `ScopeMarking.Walk` | internal/analyzer/lambda.go:125-164 | the walk over shared and cloned maps of names marks what lexical scope says and leaves the map extended by exactly what the node declares |
| `ScopeMarking.DeclaresIsAssigned` | internal/analyzer/lambda.go:125-164 | a node adds to the names of what follows it exactly those assigned in it with no lambda around the assignment |
| `ScopeMarking.BoundIsLexical` | internal/analyzer/lambda.go:125-164 | a name is bound on a path if and only if a lambda above lists it as a parameter or an earlier assignment, with no lambda on the way down to it, binds it |
| `ScopeMarking.MarkedIsBelongs` | internal/analyzer/lambda.go:125-164 | an occurrence is marked exactly when it is a binder of a lambda or refers to a parameter around it or an earlier local of the same lambda |
| `ScopeMarking.LambdaLocalBindPositions` | internal/analyzer/lambda.go:125-164 | the positions returned are exactly those of binders in lambdas and of occurrences that such a lexical parameter or local binds |
| `ScopeMarking.ParametersAreTheFreeNames` | internal/analyzer/semantic.go:207-210 | the parameters listed for a tree are the names with a lexically free occurrence in it: one whose name no lambda above lists as a parameter and no earlier assignment in reach binds, and that no local of the script takes |
| `ScopeMarking.FreeBelongsNowhere` | internal/analyzer/lambda.go:125-164 | where every bind has its own position, a bind belongs to no lambda exactly when it is such a free occurrence |
| `Joins.MarkOptional` | internal/analyzer/semantic.go:926-941 | the join loop marks relations in place as the specification says and leaves those of earlier join sources alone |
| `Joins.UnmarkedIsNeverPadded` | internal/analyzer/semantic.go:926-941 | for every left-deep chain of joins and all data, a relation that is not marked is never padded with NULLs |
| `Joins.MarkedCanBePadded` | internal/analyzer/semantic.go:926-941 | a marked relation is padded in some row of some data, so the marks are exact |
| `Joins.JoinedNullabilitySound` | internal/analyzer/semantic.go:1362-1397 | over every combination of rows that the join sources deliver, with the aliases of GROUP BY behind them, a settled expression typed neither Optional nor Null is not NULL |
| `TypeText.ParsedIsReadable` | internal/analyzer/catalog.go:392-499 | whatever the parser accepts is a well-formed type: supported constructors, distinct nonempty field names, Decimal bounds |
| `TypeText.ReadPrinted` | internal/model/model.go:94-132 | the printed text of such a type is read back as that type, whatever punctuation follows |
| `TypeText.ReadFieldNameOf` | internal/analyzer/catalog.go:555-607 | a printed field name, with doubled backticks, is read back as that name |
| `TypeText.AliasReadsAlike` | internal/analyzer/catalog.go:538-547 | each alias (text, bytes, int, integer, bigint, smallint, tinyint), in any letter case and any context, is read as the canonical spelling of its kind is |
| `TypeText.QuestionMarksAreOptionals` | internal/analyzer/catalog.go:392-499 | a question mark behind a type means the same as Optional<...> around it, any number of times |
| `FieldNames.QuotedNameIsRead` | internal/analyzer/catalog.go:555-607 | a field name in single or double quotes is read back however its characters are written: as they are, by a letter escape, or by hexadecimal or octal digits |
| `TypeText.ParsePrintIsNormalForm` | internal/analyzer/catalog.go:375-385 | printing what was parsed and parsing again gives the same type |
| `TypeText.GuardIsExact` | internal/analyzer/database.go:196-199 | the guard `parse(print(t)) Equal t` accepts exactly the types Equal to some parser output |
| `StrictTypeText.LeftOpenIsAccepted` | internal/analyzer/catalog.go:375-499 | parseType accepts a text that a reader taking parentheses only behind Decimal rejects if and only if the text leaves a parenthesis open; on texts with balanced parentheses, as the grammar delivers them, the two are the same |
| `StrictTypeText.DanglingParenthesisIsAccepted` | internal/analyzer/catalog.go:477-494 | every simple type name followed by an open parenthesis is such a text |
| `TypeReader.Reader.Consume` | internal/analyzer/catalog.go:501-507 | the index moves over the character exactly when it is the expected one |
| `TypeReader.Reader.ReadNumber` | internal/analyzer/catalog.go:509-519 | the cursor reads the number the specification reads and stops behind it |
| `TypeReader.Reader.ReadStructFieldName` | internal/analyzer/catalog.go:555-607 | the cursor reads the quoted or plain name the specification reads and stops behind it |
| `TypeReader.Reader.ReadType` | internal/analyzer/catalog.go:392-499 | the cursor reads the type the specification reads and stops behind it |
| `TypeReader.ParseTypeText` | internal/analyzer/catalog.go:375-385 | parseType: the whole text must be read |
| `TypeReader.Unquote` | internal/analyzer/catalog.go:585-595 | the unescaping loop of quoted field names, error cases included |
| `Slices.RemoveAt` | internal/analyzer/catalog.go:185 | removal shifts elements in the same array, so that a slice of the old length sees them moved |
| `Slices.Append` | internal/analyzer/catalog.go:166 | append writes in place when there is room; the shorter slice keeps its contents |
| `CatalogHeap.CloneTable` | internal/analyzer/catalog.go:231-236 | the clone has the same contents in arrays of its own |
| `CatalogHeap.ValidateIndex` | internal/analyzer/catalog_indexes.go:34-57 | the loops with their `seen` map accept exactly the indexes with a name whose columns exist, are not repeated and are not covered twice |
| `CatalogHeap.BuildTable` | internal/analyzer/catalog.go:246-334 | catalogTable builds, in new arrays, exactly the specified table or fails |
| `CatalogHeap.DoAction` | internal/analyzer/catalog.go:131-211 | an action edits the working table in place to exactly the specified table |
| `CatalogHeap.Store.Alter` | internal/analyzer/catalog.go:102-129 | a failing ALTER leaves the array of tables as it was; succeeding or not, it never writes an array of an existing table |
| `CatalogHeap.Store.Create` | internal/analyzer/catalog.go:60-81 | CREATE TABLE appends exactly the specified table, or changes nothing |
| `CatalogHeap.Store.Drop` | internal/analyzer/catalog.go:83-100 | DROP TABLE removes exactly the first table of that name by shifting in place, or changes nothing |
| `CatalogHeap.Store.Run` | internal/analyzer/catalog.go:34-56 | the statement loop goes on after a diagnostic and leaves the catalog of the specification |
| `CatalogHeap.BuildCatalog` | internal/analyzer/catalog.go:14-58 | the catalog built from any statements is sound |
| `CatalogEffects.ColumnIsDeclared` | internal/analyzer/catalog.go:336-370 | a column definition is stored if and only if it is declared so: a serial one has its integer kind and is never Optional, any other has its parsed type, Optional exactly when NOT NULL is absent or the text itself is Optional |
| `CatalogEffects.CreateIsExact` | internal/analyzer/catalog.go:246-334 | CREATE TABLE gives a table if and only if the table is sound and its columns, key and indexes are those of the entries in written order |
| `CatalogEffects.ActionIsExact` | internal/analyzer/catalog.go:131-211 | an ALTER action gives a table if and only if it is sound and differs by that action alone: one column or index more or less, exactly one column made Optional by DROP NOT NULL, or the new name |
| `CatalogEffects.StatementIsExact` | internal/analyzer/catalog.go:34-129 | on a sound catalog a statement gives exactly the catalog in which one table comes, goes or changes by its actions and the others stay; it fails exactly when nothing sound is declared |
| `CatalogRuns.CatalogTableIsSound` | internal/analyzer/catalog.go:246-334 | every table CREATE accepts is sound |
| `CatalogRuns.DropColumnIsSound` | internal/analyzer/catalog.go:169-187 | DROP COLUMN keeps a table sound; in particular it never takes the last column |
| `CatalogRuns.ActionIsSound` | internal/analyzer/catalog.go:131-211 | every ALTER action keeps a table sound |
| `CatalogRuns.ApplyIsSound` | internal/analyzer/catalog.go:60-129 | every statement keeps a catalog sound |
| `CatalogRuns.EveryCatalogIsSound` | internal/analyzer/catalog.go:14-58 | after every DDL run: nonempty table names unique, column and index names unique, columns name their table and have readable types, keys exist and are distinct, serial columns in the key, index columns without repeats and covering columns disjoint from index and primary key, at least one column |
| `CatalogUndo.AddThenDrop` | internal/analyzer/catalog.go:131-187 | dropping an added column or index restores the catalog exactly, in one statement or in two |
| `CatalogUndo.RenameBack` | internal/analyzer/catalog.go:199-209 | renaming back restores the catalog exactly if and only if the new name was not empty |
| `CatalogUndo.CreateThenDrop` | internal/analyzer/catalog.go:60-100 | dropping a created table restores the catalog exactly if and only if its name was not empty |
| `CatalogUndo.EmptyRenameIsAccepted` | internal/analyzer/catalog.go:199-209 | RENAME TO the empty name succeeds exactly when the table exists and no other has the empty name, so the failing side is reached |
| `CatalogUndo.EmptyCreateIsAccepted` | internal/analyzer/catalog.go:60-81 | every catalog accepts some CREATE TABLE with the empty name |
| `CatalogUndo.AlterIsItsActions` | internal/analyzer/catalog.go:102-129 | a multi-action ALTER without RENAME succeeds exactly when its actions do one statement at a time, with the same catalog |
| `Drift.CompareTables` | internal/analyzer/database.go:209-254 | the early-returning loops of compareDatabaseTable decide InStep |
| `Drift.Normalize` | internal/analyzer/database.go:185-207 | the loops accept exactly tables with distinct, nonempty, guarded columns and an existing key |
| `Drift.InStepIsSameLayout` | internal/analyzer/database.go:209-254 | nothing is reported exactly when columns, serial flags, key and indexes agree up to the order of columns, indexes and covering columns |
| `Drift.DriftIsExact` | internal/analyzer/database.go:185-254 | the same for every table of every replayed schema against every accepted database table |
| `VerifyQuery.CheckQuery` | internal/cli/verify.go:101-140 | the loops of verifyQuery, parameters through a map, decide Accepted |
| `VerifyQuery.AcceptedIsSameInterface` | internal/cli/verify.go:101-140 | a proposal is accepted exactly when parameters by name and result columns in order have the same names and types |
| `VerifyQuery.AcceptedIsEquivalence` | internal/cli/verify.go:101-140 | on queries with unique parameter names acceptance is reflexive, symmetric and transitive |
| `SourceMaps.WriteSpliced` | internal/analyzer/wildcard.go:156-170 | the copying loop succeeds exactly on ascending, disjoint spans inside the text, and writes the spliced text |
| `SourceMaps.BackIsCorrect` | internal/analyzer/sqlc_macro.go:142-157 | every untouched character maps back to itself, every inserted one to the start of its span, the end to the end |
| `SourceMaps.BackIsMonotone` | internal/analyzer/sqlc_macro.go:142-157 | the map is monotone and in bounds |
| `SourceMaps.PositionIsPlace` | internal/analyzer/sqlc_macro.go:163-174 | the position of an offset is the one whose line is the first line plus the newlines in front, and whose column counts from the last newline or the start |
| `SourceMaps.ComputePosition` | internal/analyzer/sqlc_macro.go:163-174 | the walk over the text gives exactly that line and column |
| `SourceMaps.IndexOfPosition` | internal/analyzer/sqlc_macro.go:131-141 | the walk to a line and column finds the offset they came from |
| `SourceMaps.OriginalPositions` | internal/analyzer/sqlc_macro.go:124-161 | every diagnostic position is overwritten with its authored position, through the whole chain of maps |
| `SourceMaps.ChainMapsPositions` | internal/analyzer/sqlc_macro.go:124-161 | through any chain, the position of an offset maps to the line and column of its authored offset, newlines counted in the authored text |
| `SourceMaps.ChainKeepsCharacters` | internal/analyzer/sqlc_macro.go:124-161 | a character kept by every rewriting is reported at its own authored place |
| `SourceMaps.ChainIsMonotone` | internal/analyzer/sqlc_macro.go:124-161 | later offsets are never reported before earlier ones |
| `SourceMaps.PragmaEntryIsRight` | internal/analyzer/wildcard.go:57-73 | the pragma is inserted and its entry describes the executed text if and only if no replacement starts in the first line of the authored text; that line is then the first line of the rewritten text, too |
| `SourceMaps.PragmaKeepsTheChain` | internal/analyzer/wildcard.go:57-76 | for a block whose annotation is its first line the pragma is inserted and the chain of maps describes the executed text |
| `SourceMaps.PragmaIsSecondLine` | internal/analyzer/wildcard.go:57-71 | the pragma is the second line of the executed text and ends like the first one, all other lines stay; a text of one line is refused |
| `SourceMaps.SortingIsDetermined` | internal/analyzer/wildcard.go:157 | with distinct starts the sort has one result, so its instability does not matter |
| `MacroLowering.ScanTokens` | internal/analyzer/sqlc_macro.go:43-105 | the token loop collects the spans and arguments of the specification |
| `MacroLowering.ScanIsWellFormed` | internal/analyzer/sqlc_macro.go:43-119 | for every token list the collected spans are ascending, disjoint, nonempty and inside the text |
| `MacroLowering.LowerArguments` | internal/analyzer/sqlc_macro.go:26-122 | the lowered text, map and positions; the discarded error of apply cannot occur |
| `MacroLowering.SpanStandsAtShift` | internal/analyzer/sqlc_macro.go:106-119 | the shifted start of a span is where its text stands in the lowered text |
| `MacroLowering.ArgumentsAreTheMacros` | internal/analyzer/sqlc_macro.go:43-105 | the arguments are exactly the names that macros in the token list give, and all macros for a name agree on its kind |
| `MacroLowering.ArgumentsArePositioned` | internal/analyzer/sqlc_macro.go:106-119 | each argument is recorded where its parameter begins, and that position maps back to the first token of the first macro for its name |
| `MacroExactness.LoweringSucceedsExactly` | internal/analyzer/sqlc_macro.go:43-105 | a query is lowered if and only if every macro is well written and all macros for one name agree on being narg and on being slice |
| `MacroExactness.FlagsFollowMacro` | internal/analyzer/sqlc_macro.go:43-105 | an argument is nullable exactly for sqlc.narg and a slice exactly for sqlc.slice |
| `MacroExactness.ReplacementsAreTheCalls` | internal/analyzer/sqlc_macro.go:66-105 | replaced are exactly the calls, each by its parameter, and both parentheses around a slice in IN (...) |
| `MacroExactness.SliceLosesParentheses` | internal/analyzer/sqlc_macro.go:66-122 | the lowered text around such a slice: what stood in front of the parenthesis, between it and the call, the parameter, and what followed, without the parentheses |
| `Text.UndoubledDoubled` | internal/analyzer/wildcard.go:172-174 | doubled quotes of an identifier are undone by reading it |
| `Inference.Table.Infer` | internal/analyzer/semantic.go:1541-1557 | one use changes the map for its own parameter only, as the specification says |
| `Inference.Table.InferAll` | internal/analyzer/semantic.go:1541-1557 | what is known of a parameter after a script comes from its own uses, first to last |
| `Inference.InferredIsDetermined` | internal/analyzer/semantic.go:1541-1557 | conflict exactly when two uses differ in more than nullability; otherwise a used type that agrees with all, Optional only if all are |
| `Inference.InferredDependsOnSetOnly` | internal/analyzer/semantic.go:1541-1557 | up to Equal the result depends on the set of uses only |
| `Inference.RepeatedPassChangesNothing` | internal/analyzer/semantic.go:1541-1557 | repeated passes in any order change nothing, and a conflict stays one |
| `Parameters.ExternalParameters` | internal/analyzer/semantic.go:1559-1603 | the loop over the sorted occurrences lists the specified parameters or fails |
| `Parameters.ParametersAreTheExternalNames` | internal/analyzer/semantic.go:1559-1603 | the external names, each once, in the order of their first occurrences, and no other |
| `Parameters.ParameterFitsEveryUse` | internal/analyzer/semantic.go:1559-1603 | a parameter is listed exactly when its uses agree and a declared type is accepted at each; it is listed with its declared type, or else the inferred one, made Optional by sqlc.narg, and that type is accepted at every use |
| `Acceptance.CompatibleKeepsValues` | internal/analyzer/semantic.go:1670-1672 | between types that are Equal but for an Optional, a value is compatible with a use exactly when the use can take all values of its type |
| `ImplicitNames.FindOrdinal` | internal/analyzer/projection_names.go:33-36 | the search ends at the least free ordinal |
| `ImplicitNames.NameImplicitProjections` | internal/analyzer/projection_names.go:20-51 | the columns are named and sorted in place as the specification says |
| `ImplicitNames.AllocatedIsLeast` | internal/analyzer/projection_names.go:31-38 | each projection gets the least ordinal from its own on whose name is neither authored nor allocated before |
| `ImplicitNames.ShiftedExactly` | internal/analyzer/projection_names.go:30-39 | an ordinal moves exactly when an author wrote the name that a projection would get |
| `ImplicitNames.NamedDiffer` | internal/analyzer/projection_names.go:24-50 | the result names of the returned columns are distinct if and only if no authored name is repeated; the returned columns are a permutation of the named ones |
| `ImplicitNames.OrderIsKeptUnlessNamesCollide` | internal/analyzer/projection_names.go:47-50 | the written order is kept unless a name had to move; then the columns are sorted by result name |
| `Wildcards.SelectList` | internal/analyzer/semantic.go:963-1085 | the loop over a SELECT list produces the specified columns, or fails |
| `Wildcards.SelectWithoutColumns` | internal/analyzer/semantic.go:1089-1160 | exactly the wildcard columns named by WITHOUT are excluded, or a name is reported; the unordered search of the map does not matter |
| `Wildcards.UnnamedAreListed` | internal/analyzer/semantic.go:963-1085 | the computed entries without alias are exactly those of the list, each with its place in the list as ordinal and its offset among the columns |
| `Wildcards.ImplicitNameIsPlace` | internal/analyzer/projection_names.go:20-51 | where no author wrote such a name, the computed entry at place i of the list is called column i |
| `Wildcards.ReferenceColumn` | internal/analyzer/semantic.go:963-1085 | a column reference in the list gives one column with the type it resolves to; without an alias, behind a qualifier and over several sources its wire name is qualifier-dot-name |
| `Wildcards.StarShowsColumns` | internal/analyzer/semantic.go:979-1017 | a wildcard shows exactly the columns of the qualified sources that are not excluded, each once and in order, with its name, and Optional exactly when the column or its source is |
| `WildcardExpansion.ResolvesToColumn` | internal/analyzer/semantic.go:1362-1390 | a reference qualified by its source's alias resolves to that source's column |
| `WildcardExpansion.ExpandedColumns` | internal/analyzer/semantic.go:979-1017 | the expanded list has the columns of the authored one, position by position, with implicit names pinned |
| `WildcardExpansion.ExpansionKeepsMeaning` | internal/analyzer/semantic.go:963-1085 | the executed list has the result names and types of the authored one; it differs only by the sort that a colliding name causes |
| `Union.ReconcileUnionColumns` | internal/analyzer/select_semantic.go:65-138 | the nested loops over arms, names and maps give the specified columns, or fail |
| `Union.UnionIsByName` | internal/analyzer/select_semantic.go:65-138 | the columns are the result names that some arm has, each once, in order of first occurrence, with distinct column names |
| `Union.UnionSucceeds` | internal/analyzer/select_semantic.go:65-138 | a UNION is accepted if and only if no arm repeats a result name, the arms agree on every type, and no two columns get one name |
| `Union.UnionNamesColumns` | internal/analyzer/select_semantic.go:119-135 | a column has the name of the first column of its result name, unless another result name starts with that name too: then the result name with underscores for dots |
| `Union.TypeIgnoresArmOrder` | internal/analyzer/select_semantic.go:100-118 | success and type under a result name do not depend on the order or repetition of arms |
| `Union.UnionIgnoresArmOrder` | internal/analyzer/select_semantic.go:65-138 | two UNIONs of the same arms, in any order and repetition, have the same result names with Equal types |
| `Union.UnionTypeCoversArms` | internal/analyzer/select_semantic.go:100-118 | the type is above that of every arm, and Optional exactly when an arm lacks the column or may be NULL there |
| `JavaTextBlocks.Quote` | internal/codegen/java/generator.go:103-127 | the builder loop of quoted writes the specified literal |
| `JavaTextBlocks.WriteSqlLiteral` | internal/codegen/java/generator.go:132-151 | the builder loop of sqlLiteral writes the specified text block |
| `JavaTextBlocks.IndentExpression` | internal/codegen/java/generator.go:687-695 | the lines behind the first are indented in place, empty ones excepted |
| `JavaTextBlocks.NewlinesPaddedIsIndented` | internal/codegen/java/generator.go:458 | replacing every newline indents all lines behind the first, empty ones included |
| `JavaRoundTrip.StringRoundTrip` | internal/codegen/java/generator.go:103-127 | reading the string literal of any text gives the text |
| `JavaRoundTrip.BlockReads` | internal/codegen/java/generator.go:132-151 | reading a text block of any text, at any indentation, gives the text without the white space that a line but the last loses |
| `JavaRoundTrip.BlockRoundTrip` | internal/codegen/java/generator.go:132-151 | that is the text itself if and only if no line but the last ends in white space outside ASCII |
| `JavaRoundTrip.TextBlockRoundTrip` | internal/codegen/java/generator.go:132-151 | the same for the literal as written and as re-indented in either way by any number of spaces |

## Left out

* The ANTLR lexer and parser: expressions are trees, macro calls are token lists with ascending disjoint spans.
* Diagnostic wording: success, failure and positions are modelled.
* Byte offsets: texts are sequences of characters, so the conversion between rune and byte offsets is not modelled;
  `strings.ToLower` is modelled on ASCII letters.
* Machine integers: offsets and counts are unbounded; a number too large for `strconv.Atoi` in a Decimal is rejected here
  by the bounds on precision and scale.
- Conformance.Conforms: integer widths are not part of conformance in the nullability theorem; `Casts` models them.
- Comparisons.Decided: assumes of the engine that comparing two scalars that are not NULL is TRUE or FALSE. Containers are
  compared member by member. Of Dict, Set, Tagged and other values that the model does not look into nothing is assumed, so
  `Soundness.ComparisonIsNeverNullExactly` counts a type with such a value inside among those that may compare to NULL.
- Soundness.NullabilitySound: asks that comparisons and IN in the expression, lambdas it calls included, have operands
  without Optional below the top; without that it is false of the code (`OptionalMemberIsUnsound`). It does not cover CAST,
  IN subqueries, tuple comparison, aggregates, window functions, user-defined functions and chains of Callable values, whose
  values are not decided by the modelled code.
- Exactness.ArithmeticIsExact: asks that the first operand is not the zero type, which no resolved operand is.
- Exactness.CompareIsExact: asks for null-safe comparisons or operands without Optional below the top, as soundness does, and
  so do `BranchExactness.InValuesIsExact` and `BranchExactness.InListIsExact`.
- ColumnResolution.ColumnIsExact: asks that there are rows at all, that no other column of the relation has the name, and that
  no GROUP BY relation is itself padded, as the analyzer never marks one.
- Wildcards.ImplicitNameIsPlace: where an author wrote such a name the ordinals move, as `ImplicitNames` says.
- Joins.UnmarkedIsNeverPadded: INNER, CROSS, LEFT, RIGHT and FULL joins only; EXCLUSION, SEMI and ONLY joins are not modelled.
- WildcardExpansion.ExpansionKeepsMeaning: asks for sources with distinct nonempty aliases and distinct nonempty column
  names, and without a GROUP BY alias relation, which an unqualified name would find first.
- Wildcards.SelectList: entries written with `sqlc.embed` are not modelled.
- Parameters.ParameterFitsEveryUse: asks for declared types that are Optional only around a type, as every parsed type is.
- ScopeMarking.ParametersAreTheFreeNames: asks that every bind of the tree has a position of its own, as the lexer gives it.
- SourceMaps.PragmaEntryIsRight: whether the pragma is needed at all (`hasOrderedColumns`) is not modelled.
- SourceMaps.ChainMapsPositions: offsets count characters, not UTF-8 bytes.
- Casts.CastNullability: which conversions are supported and which may fail is a table of kinds; only for integers is it
  compared with the values (`Casts.IntegerCastIsExact`).
* Where CanWidenInteger is applied, in calls of user-defined functions.
* Most builtin functions and library signatures: flat lists of cases.
* `sqlc.embed`, and the check that its expansion keeps the result shape: it needs the embedded table's grammar context.
* DML projections, INSERT and UPDATE inference sites, DECLARE and configured parameters: they feed types into the
  inference and the guard that are modelled.
* Table paths and prefixes: names in DDL are resolved paths.
* Configuration, sources, database client, command line, file output, the other generators and the jOOQ renderer.
