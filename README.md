# php-reflect compatibility analysis, modelled in Dafny

php-reflect walks the syntax tree of PHP sources and reports what they need
to run. This project models the heart of its compatibility analysis:

- **The compatibility analyser** (`Analyser`). It receives the enter and
  leave events of a walk over a parsed file. It keeps a stack of open
  frames (namespace, class, interface, trait, function, method or closure).
  Its metrics table has one record per namespace, class, interface, trait,
  function, method, constant, extension and conditional guard met. A record
  holds the extension name, the extension and PHP version bands, `arg.max`,
  the excluded PHP versions, the `optional` flag and a `matches` counter.
  Records only ever grow (`Metrics.Grows`). Built-in elements are looked up
  in a reference database, modelled as the function parameter `find`.
- **The default cache storage** (`CacheStorage`). A manifest of cache
  entries is kept per data source, under the SHA-1 of the source name.
  There are operations to fetch a cached parse (dropping stale entries), to
  cache a new one (pruning the old ones) and to delete or purge a source.
  The adapter is a `map<string, Stored>`.
- **The constant model** (`ConstantModels`): a constant's name is split
  into namespace and short name, and its extension, file and string form
  are derived from it.
- **The function model** (`FunctionModels`): the name, namespace and
  parameter list of a function, method or closure, and its number of
  required parameters.
- **The console formatter of the analysis** (`Formatter`):
  - the per-group listings: title, version band, sorted and filtered rows,
    footer;
  - the final "Requires PHP" line.

Supporting modules:

- `Versions`: version strings as sequences of numbers, with
  `version_compare` order and `updateVersion`.
- `Strings`: `explode`/`implode` on a separator, `strtoupper`/`strtolower`,
  decimal printing and `strcmp` order.
- `Metrics`: the record, the table and the update rules of
  `updateElementVersion`.
- `Syntax`: the parser's node kinds, as far as the analyser looks at them.
- `Wrappers`: `Option` for PHP `null`/`false`, and `Result` for the
  exceptions thrown.

Source paths below are relative to the repository root.

## Model

| member | source | states |
|---|---|---|
| Versions.LessIrreflexive | src/Bartlett/Reflect/Analyser/CompatibilityAnalyser.php:206-211 | no version is greater than itself under version_compare's order |
| Versions.LessTransitive | src/Bartlett/Reflect/Analyser/CompatibilityAnalyser.php:206-211 | the version order is transitive |
| Versions.LessTotal | src/Bartlett/Reflect/Analyser/CompatibilityAnalyser.php:206-211 | any two versions are equal or one is greater, so "gt" always decides |
| Versions.LessAsymmetric | src/Bartlett/Reflect/Analyser/CompatibilityAnalyser.php:206-211 | no two versions are each greater than the other |
| Versions.LessEqTransitive | src/Bartlett/Reflect/Analyser/CompatibilityAnalyser.php:206-211 | "not greater" is transitive |
| Versions.UpdateVersion | src/Bartlett/Reflect/Analyser/CompatibilityAnalyser.php:206-211 | the base afterwards is one of the two versions and at least both of them; an empty current version leaves the base alone |
| Versions.UpdateVersionLeast | src/Bartlett/Reflect/Analyser/CompatibilityAnalyser.php:206-211 | the updated base is the least version above both, i.e. their maximum |
| Versions.UpdateVersionCommutes | src/Bartlett/Reflect/Analyser/CompatibilityAnalyser.php:206-211 | raising a by b gives the same as raising b by a |
| Versions.UpdateVersionIdempotent | src/Bartlett/Reflect/Analyser/CompatibilityAnalyser.php:206-211 | raising a version by itself leaves it unchanged |
| Versions.UpdateVersionAbsorbs | src/Bartlett/Reflect/Analyser/CompatibilityAnalyser.php:206-211 | raising a second time by the same version changes nothing |
| Versions.UpdateVersionAssociates | src/Bartlett/Reflect/Analyser/CompatibilityAnalyser.php:206-211 | successive raises group either way, so a band is the maximum of everything seen |
| Versions.VersionString | src/Bartlett/Reflect/Console/Formatter/CompatibilityOutputFormatter.php:80-83 | a version prints as the empty string exactly when it is unset, which is what the `empty()` tests on versions read; it prints as digits and dots, starts with its first component, and holds a dot exactly when it has two or more components |
| Versions.VersionStringInjective | src/Bartlett/Reflect/Console/Formatter/CompatibilityOutputFormatter.php:80-83 | distinct versions print differently |
| Strings.Split | src/Bartlett/Reflect/Model/ConstantModel.php:52-56 | explode always gives at least one piece, and no piece holds the separator |
| Strings.JoinSplit | src/Bartlett/Reflect/Model/ConstantModel.php:52-56 | implode undoes explode |
| Strings.JoinSnoc | src/Bartlett/Reflect/Model/AbstractFunctionModel.php:71-76 | the pieces but the last, then the separator and the last piece, make the whole name |
| Strings.SplitCount | src/Bartlett/Reflect/Model/ConstantModel.php:52-56 | a name holds a backslash exactly when explode cuts it into two or more pieces |
| Strings.SplitPrefix | src/Bartlett/Reflect/Model/ConstantModel.php:52-56 | a piece without the separator, then the separator, starts a new piece |
| Strings.SplitNoSeparator | src/Bartlett/Reflect/Model/ConstantModel.php:52-56 | a name without the separator is one piece |
| Strings.SplitJoin | src/Bartlett/Reflect/Model/AbstractFunctionModel.php:71-76 | explode undoes implode when no piece holds the separator |
| Strings.Unqualified | src/Bartlett/Reflect/Model/ConstantModel.php:52-54 | the last piece, taken by array_pop, holds no separator |
| Strings.QualifierRoundTrip | src/Bartlett/Reflect/Model/ConstantModel.php:52-56 | the namespace, a backslash and the last piece spell the name; without a backslash the namespace is empty and the piece is the name |
| Strings.Upper | src/Bartlett/Reflect/Model/ConstantModel.php:54 | strtoupper keeps the length and upper-cases each ASCII letter in place |
| Strings.Lower | src/Bartlett/Reflect/Analyser/CompatibilityAnalyser.php:683 | strtolower keeps the length and lower-cases each ASCII letter in place |
| Strings.NatToString | src/Bartlett/Reflect/Console/Formatter/CompatibilityOutputFormatter.php:97 | a count prints as at least one decimal digit |
| Strings.DigitsValueOfNatToString | src/Bartlett/Reflect/Console/Formatter/CompatibilityOutputFormatter.php:97 | the printed digits read back as the count |
| Strings.SplitAtFirst | src/Bartlett/Reflect/Analyser/CompatibilityAnalyser.php:438-450 | a name cut at the first separator: when neither head holds the separator, equal names have equal heads and equal tails |
| Strings.NatToStringInjective | src/Bartlett/Reflect/Analyser/CompatibilityAnalyser.php:447-450 | equal `%d` renderings come from equal numbers |
| Strings.StrLessEqTotal | src/Bartlett/Reflect/Console/Formatter/CompatibilityOutputFormatter.php:113 | the key order of the sort is total |
| Strings.StrLessEqAntisymmetric | src/Bartlett/Reflect/Console/Formatter/CompatibilityOutputFormatter.php:113 | two keys each ordered before the other are equal |
| Strings.StrLessEqReflexive | src/Bartlett/Reflect/Console/Formatter/CompatibilityOutputFormatter.php:113 | every key is ordered before itself |
| Strings.StrLessEqTransitive | src/Bartlett/Reflect/Console/Formatter/CompatibilityOutputFormatter.php:113 | the key order is transitive |
| Metrics.PhpRange | src/Bartlett/Reflect/Analyser/CompatibilityAnalyser.php:33-39 | a php.min/php.max pair merged over the PHP 4 defaults is a user record with exactly that band |
| Metrics.ArgMaxRaised | src/Bartlett/Reflect/Analyser/CompatibilityAnalyser.php:231-235 | arg.max is kept only when the stored record has one, and then it is at least both the stored and the incoming value |
| Metrics.ArgMaxRaisedCommutes | src/Bartlett/Reflect/Analyser/CompatibilityAnalyser.php:231-235 | two arg.max raises give the same result in either order |
| Metrics.Merged | src/Bartlett/Reflect/Analyser/CompatibilityAnalyser.php:226-256 | merging a record into a stored one never lowers any of its four versions, and keeps its extension name, its counter and its optional flag |
| Metrics.Updated | src/Bartlett/Reflect/Analyser/CompatibilityAnalyser.php:222-257 | updateElementVersion adds at most the named key, and the table only grows |
| Metrics.Counted | src/Bartlett/Reflect/Analyser/CompatibilityAnalyser.php:855 | incrementing matches adds one to the named record and changes no other record |
| Metrics.MarkedOptional | src/Bartlett/Reflect/Analyser/CompatibilityAnalyser.php:718 | flagging an element optional sets the flag, keeps its count and changes no other record |
| Metrics.GrowsReflexive | src/Bartlett/Reflect/Analyser/CompatibilityAnalyser.php:222-257 | a table grows from itself |
| Metrics.EntryGrowsTransitive | src/Bartlett/Reflect/Analyser/CompatibilityAnalyser.php:222-257 | a record that grew twice grew from the first to the last |
| Metrics.GrowsTransitive | src/Bartlett/Reflect/Analyser/CompatibilityAnalyser.php:222-257 | a sequence of updates only grows the table |
| Metrics.UpdatedEntry | src/Bartlett/Reflect/Analyser/CompatibilityAnalyser.php:226-256 | an existing record keeps its extension name and its count; its bands are raised by the incoming ones; arg.max, exclusions and optional follow the merge rules |
| Metrics.UpdatedCreates | src/Bartlett/Reflect/Analyser/CompatibilityAnalyser.php:226-229 | a missing record is created from the incoming one with no matches |
| Metrics.UpdatedFrame | src/Bartlett/Reflect/Analyser/CompatibilityAnalyser.php:222-257 | no other record changes, and the only key that can appear is the one named |
| Metrics.MergedIdempotent | src/Bartlett/Reflect/Analyser/CompatibilityAnalyser.php:226-256 | merging the same record a second time changes nothing |
| Metrics.UpdatedIdempotent | src/Bartlett/Reflect/Analyser/CompatibilityAnalyser.php:222-257 | applying the same update twice gives the table of applying it once |
| Metrics.RaisedTwiceCommutes | src/Bartlett/Reflect/Analyser/CompatibilityAnalyser.php:206-211 | two raises of a version commute |
| Metrics.MergedCommutes | src/Bartlett/Reflect/Analyser/CompatibilityAnalyser.php:226-256 | merging two records into a stored one gives the same record in either order |
| Metrics.UpdatesCommute | src/Bartlett/Reflect/Analyser/CompatibilityAnalyser.php:222-257 | for an existing element, the result does not depend on the order its references are met |
| Analyser.ClassBaseMin | src/Bartlett/Reflect/Analyser/CompatibilityAnalyser.php:335-348 | a class needs 5.3.0 exactly when its name is qualified, else 5.0.0 exactly when it is abstract or final, else 4.0.0 |
| Analyser.ParentRecord | src/Bartlett/Reflect/Analyser/CompatibilityAnalyser.php:352-358 | a parent class is a user class with no max and no matches; it needs 5.3.0 exactly when written fully qualified, and is the PHP 4 default otherwise |
| Analyser.InterfaceMin | src/Bartlett/Reflect/Analyser/CompatibilityAnalyser.php:389-396 | an interface needs 5.3.0 exactly when its name is qualified, 5.0.0 otherwise |
| Analyser.FunctionMin | src/Bartlett/Reflect/Analyser/CompatibilityAnalyser.php:454-461 | a function needs 5.3.0 exactly when its name is qualified, 4.0.0 otherwise |
| Analyser.ClosureName | src/Bartlett/Reflect/Analyser/CompatibilityAnalyser.php:447-451 | a closure's name is "closure-" followed by digits and dashes |
| Analyser.ClosureNamesDistinct | src/Bartlett/Reflect/Analyser/CompatibilityAnalyser.php:447-451 | two closures share a name only when they span the same lines |
| Analyser.MethodName | src/Bartlett/Reflect/Analyser/CompatibilityAnalyser.php:438 | the method frame's name is the owner's name, "::", then the method name |
| Analyser.MethodNamesDistinct | src/Bartlett/Reflect/Analyser/CompatibilityAnalyser.php:438 | for class names without a colon, two method frames share a name only when class and method agree |
| Analyser.FunctionRecord | src/Bartlett/Reflect/Analyser/CompatibilityAnalyser.php:433-466 | a user record with no max, no matches and no arg.max; a method is the PHP 4 default, a closure needs 5.3.0, a function its FunctionMin |
| Analyser.AliasTarget | src/Bartlett/Reflect/Analyser/CompatibilityAnalyser.php:539-558 | an assignment target has an alias key exactly when it is a named variable, or a named property of a named variable; a variable's key is its name |
| Analyser.GuardCategory | src/Bartlett/Reflect/Analyser/CompatibilityAnalyser.php:694-701 | the conditional function names are all lower case; each tests one of the six element kinds; only `defined` tests constants |
| Analyser.FeatureMin | src/Bartlett/Reflect/Analyser/CompatibilityAnalyser.php:798-820 | a feature is needed exactly for a use statement, a short array or a dereferenced call result; it is at least 5.4.0, and 5.6.0 for use |
| Analyser.GlobalRaised | src/Bartlett/Reflect/Analyser/CompatibilityAnalyser.php:286-303 | the project-wide band is the greatest of 4.0.0 and every band folded into it: at least both, and one of them |
| Analyser.TypeHintRegistered | src/Bartlett/Reflect/Analyser/CompatibilityAnalyser.php:489-499 | a fully qualified class hint raises the enclosing frame to at least 5.3.0 and counts one more use of the class |
| Analyser.ParentRegistered | src/Bartlett/Reflect/Analyser/CompatibilityAnalyser.php:352-361 | registering the parent class only grows the table |
| Analyser.InterfacesRegistered | src/Bartlett/Reflect/Analyser/CompatibilityAnalyser.php:364-371 | registering the interfaces in order only grows the table |
| Analyser.InterfacesRegisteredSnoc | src/Bartlett/Reflect/Analyser/CompatibilityAnalyser.php:364-371 | each further interface is one more update with its reference record |
| Analyser.InterfaceMins | src/Bartlett/Reflect/Analyser/CompatibilityAnalyser.php:366-369 | one php.min per implemented interface |
| Analyser.InterfaceMaxes | src/Bartlett/Reflect/Analyser/CompatibilityAnalyser.php:366-370 | one php.max per implemented interface |
| Analyser.RaisedSnoc | src/Bartlett/Reflect/Analyser/CompatibilityAnalyser.php:364-371 | each further interface raises the class band once more |
| Analyser.RaisedIsGreatest | src/Bartlett/Reflect/Analyser/CompatibilityAnalyser.php:364-371 | the class band ends at the greatest of its own rule version and every interface's version, and is one of them |
| Analyser.AliasKeysCollide | src/Bartlett/Reflect/Analyser/CompatibilityAnalyser.php:527-559 | a variable `$a_b` and a property fetch `$a->b` share one alias key |
| Analyser.Referenced | src/Bartlett/Reflect/Analyser/CompatibilityAnalyser.php:854-863 | a reference adds exactly the element and, for a non-user record, its extension; the table only grows |
| Analyser.InternalStep | src/Bartlett/Reflect/Analyser/CompatibilityAnalyser.php:832-869 | a resolved reference grows the table and the local versions, and never gives the local versions an arg.max |
| Analyser.InternalStepEffects | src/Bartlett/Reflect/Analyser/CompatibilityAnalyser.php:832-869 | the element counts exactly one more match; the local versions reach its php.min; the node's record is memoised; a user element leaves every extension record alone |
| Analyser.ConstantStep | src/Bartlett/Reflect/Analyser/CompatibilityAnalyser.php:780-784 | a constant reference grows the table and the local versions |
| Analyser.ConstDeclStep | src/Bartlett/Reflect/Analyser/CompatibilityAnalyser.php:173-187 | one declared constant grows the table and the local versions |
| Analyser.ConstDeclsFold | src/Bartlett/Reflect/Analyser/CompatibilityAnalyser.php:173-187 | a whole `const` statement grows the table and the local versions |
| Analyser.ConstDeclsFoldSnoc | src/Bartlett/Reflect/Analyser/CompatibilityAnalyser.php:173-187 | each further constant of the statement is one more step |
| Analyser.CallChecked | src/Bartlett/Reflect/Analyser/CompatibilityAnalyser.php:683-724 | the define and guard checks only grow the table |
| Analyser.GuardCounts | src/Bartlett/Reflect/Analyser/CompatibilityAnalyser.php:694-724 | a guard call with a literal argument leaves the tested element optional and its condition's count one higher |
| Analyser.NonLiteralArgumentIgnored | src/Bartlett/Reflect/Analyser/CompatibilityAnalyser.php:683-724 | a define or guard whose first argument is not a string literal changes nothing |
| Analyser.DefineRegistersUserConstant | src/Bartlett/Reflect/Analyser/CompatibilityAnalyser.php:683-692 | `define` with a literal name, in any letter case, registers that constant, as a user constant unless it was already known |
| Analyser.GuardNamesAreCaseSensitive | src/Bartlett/Reflect/Analyser/CompatibilityAnalyser.php:683-724 | any call that is neither a define, in any letter case, nor an exact guard name leaves the table as it was; so does a non-define holding a capital letter |
| Analyser.EveryUseNeeds56 | src/Bartlett/Reflect/Analyser/CompatibilityAnalyser.php:798-803 | every use statement raises its frame to 5.6.0, whatever its import type |
| Analyser.CompatibilityAnalyser.constructor | src/Bartlett/Reflect/Analyser/CompatibilityAnalyser.php:46-64 | empty metrics, no global band, an empty stack, no aliases, unset local versions |
| Analyser.CompatibilityAnalyser.UpdateElementVersion | src/Bartlett/Reflect/Analyser/CompatibilityAnalyser.php:222-257 | the table afterwards is the merge rule applied to the named element |
| Analyser.CompatibilityAnalyser.IncrementMatches | src/Bartlett/Reflect/Analyser/CompatibilityAnalyser.php:855 | the named record's counter goes up by one |
| Analyser.CompatibilityAnalyser.UpdateContextVersion | src/Bartlett/Reflect/Analyser/CompatibilityAnalyser.php:266-276 | the frame on top of the stack is updated and the stack is left as it was |
| Analyser.CompatibilityAnalyser.UpdateGlobalVersion | src/Bartlett/Reflect/Analyser/CompatibilityAnalyser.php:286-303 | the global band is raised by the given pair, starting from 4.0.0 |
| Analyser.CompatibilityAnalyser.BeforeTraverse | src/Bartlett/Reflect/Analyser/CompatibilityAnalyser.php:66-84 | the global namespace and the Core extension are registered, and the stack holds only the global frame |
| Analyser.CompatibilityAnalyser.AfterTraverse | src/Bartlett/Reflect/Analyser/CompatibilityAnalyser.php:86-91 | the global frame is closed like a namespace, and a global band exists afterwards |
| Analyser.CompatibilityAnalyser.EnterNode | src/Bartlett/Reflect/Analyser/CompatibilityAnalyser.php:93-123 | entering a scope pushes exactly one frame over the old stack; any other node leaves the stack alone; the table only grows |
| Analyser.CompatibilityAnalyser.EnterScope | src/Bartlett/Reflect/Analyser/CompatibilityAnalyser.php:97-113 | a namespace, class-like or function-like node opens exactly one frame |
| Analyser.CompatibilityAnalyser.LeaveNode | src/Bartlett/Reflect/Analyser/CompatibilityAnalyser.php:125-196 | leaving a scope pops exactly one frame; other nodes leave the stack alone; only a namespace changes the global band; the table only grows |
| Analyser.CompatibilityAnalyser.LeaveScope | src/Bartlett/Reflect/Analyser/CompatibilityAnalyser.php:129-146 | leaving a scope closes its frame, keeps the aliases, and only a namespace touches the global band |
| Analyser.CompatibilityAnalyser.LeaveElement | src/Bartlett/Reflect/Analyser/CompatibilityAnalyser.php:147-195 | leaving any other node keeps the stack, aliases and global band, and only grows the table |
| Analyser.CompatibilityAnalyser.IniUsertNamespace | src/Bartlett/Reflect/Analyser/CompatibilityAnalyser.php:312-324 | the namespace (or "+global") gets php.min 5.3.0 and its frame is pushed |
| Analyser.CompatibilityAnalyser.InitUserClass | src/Bartlett/Reflect/Analyser/CompatibilityAnalyser.php:333-378 | the parent and interfaces are registered, and the class gets its rule version raised to every interface's php.min and php.max; its frame is pushed |
| Analyser.CompatibilityAnalyser.Declare | src/Bartlett/Reflect/Analyser/CompatibilityAnalyser.php:373-377 | the declaration's record is merged into the table and its frame pushed, and every open frame still has a record |
| Analyser.CompatibilityAnalyser.RegisterParent | src/Bartlett/Reflect/Analyser/CompatibilityAnalyser.php:352-361 | the table afterwards is the parent registered as a used class |
| Analyser.CompatibilityAnalyser.RegisterInterfaces | src/Bartlett/Reflect/Analyser/CompatibilityAnalyser.php:364-371 | each interface is updated in order, and the returned band is the class band raised by every interface |
| Analyser.CompatibilityAnalyser.InitUserInterface | src/Bartlett/Reflect/Analyser/CompatibilityAnalyser.php:387-403 | the interface gets 5.0.0, or 5.3.0 when namespaced, and its frame is pushed |
| Analyser.CompatibilityAnalyser.InitUserTrait | src/Bartlett/Reflect/Analyser/CompatibilityAnalyser.php:412-420 | the trait gets 5.4.0 and its frame is pushed |
| Analyser.CompatibilityAnalyser.InitUserFunction | src/Bartlett/Reflect/Analyser/CompatibilityAnalyser.php:429-469 | a fresh local scope; the method, closure or function frame is named and recorded by the rule table and pushed |
| Analyser.CompatibilityAnalyser.InitFunctionArguments | src/Bartlett/Reflect/Analyser/CompatibilityAnalyser.php:480-501 | a variadic parameter raises the local versions to 5.6.0; otherwise a fully qualified class hint registers the class and raises the frame to 5.3.0; nothing else changes |
| Analyser.CompatibilityAnalyser.RegisterTypeHint | src/Bartlett/Reflect/Analyser/CompatibilityAnalyser.php:489-499 | the table afterwards is the frame raised and the hinted class counted |
| Analyser.CompatibilityAnalyser.InitLocalScope | src/Bartlett/Reflect/Analyser/CompatibilityAnalyser.php:508-518 | the aliases are emptied and the local versions reset to PHP 4 |
| Analyser.CompatibilityAnalyser.InitClassAliasResolver | src/Bartlett/Reflect/Analyser/CompatibilityAnalyser.php:527-559 | `new C` assigned to `$v` or `$o->p` records C under that target's key; any other shape records nothing |
| Analyser.CompatibilityAnalyser.ComputeNamespaceVersions | src/Bartlett/Reflect/Analyser/CompatibilityAnalyser.php:569-582 | the frame is popped; the global namespace is folded into its extension with ext.min 4.0.0; the namespace's band is folded into the project-wide band |
| Analyser.CompatibilityAnalyser.ComputeTypeVersions | src/Bartlett/Reflect/Analyser/CompatibilityAnalyser.php:593-637 | the class, interface or trait frame is popped and its record folded into the enclosing frame, which ends at least as demanding |
| Analyser.CompatibilityAnalyser.ComputeFunctionVersions | src/Bartlett/Reflect/Analyser/CompatibilityAnalyser.php:648-654 | the function frame is popped and the local versions folded into the enclosing frame, which reaches their php.min |
| Analyser.CompatibilityAnalyser.ComputeClassMethodCallVersions | src/Bartlett/Reflect/Analyser/CompatibilityAnalyser.php:734-770 | a method call resolves to a class exactly when its receiver's alias key was recorded, and then to the recorded class |
| Analyser.CompatibilityAnalyser.ApplyExponentiation | src/Bartlett/Reflect/Analyser/CompatibilityAnalyser.php:839-846 | the scan gives the record raised to 5.6.0 when an argument is `**`, and never lowers it |
| Analyser.CompatibilityAnalyser.ResolveReference | src/Bartlett/Reflect/Analyser/CompatibilityAnalyser.php:834-850 | the memoised record, else the looked-up one after the `**` scan, and the node's memo holds it afterwards |
| Analyser.CompatibilityAnalyser.RaiseLocalVersions | src/Bartlett/Reflect/Analyser/CompatibilityAnalyser.php:865-866 | the local versions are merged with the record, without arg.max, and only grow |
| Analyser.CompatibilityAnalyser.ComputeInternalVersions | src/Bartlett/Reflect/Analyser/CompatibilityAnalyser.php:832-869 | the new state is the reference step of the old one, with the record the database gives for the element and its argument count |
| Analyser.CompatibilityAnalyser.ReferenceElement | src/Bartlett/Reflect/Analyser/CompatibilityAnalyser.php:834-863 | the record is resolved and memoised; the element and its extension are recorded |
| Analyser.CompatibilityAnalyser.RaiseFrame | src/Bartlett/Reflect/Analyser/CompatibilityAnalyser.php:865-868 | the local versions are raised by the record and then merged into the top frame |
| Analyser.CompatibilityAnalyser.RecordReference | src/Bartlett/Reflect/Analyser/CompatibilityAnalyser.php:854-863 | the table afterwards is the element and, for a non-user record, its extension recorded |
| Analyser.CompatibilityAnalyser.ComputeFunctionCallVersions | src/Bartlett/Reflect/Analyser/CompatibilityAnalyser.php:677-725 | the call is resolved like any reference, then the define and guard checks run on the result |
| Analyser.CompatibilityAnalyser.CheckCall | src/Bartlett/Reflect/Analyser/CompatibilityAnalyser.php:683-724 | the table afterwards is the define and guard rule applied |
| Analyser.CompatibilityAnalyser.ComputeConstantVersions | src/Bartlett/Reflect/Analyser/CompatibilityAnalyser.php:780-784 | the new state is the constant step of the old one, with no arguments |
| Analyser.CompatibilityAnalyser.ComputeConstDeclarations | src/Bartlett/Reflect/Analyser/CompatibilityAnalyser.php:173-187 | the new state is every constant of the statement applied in order |
| Analyser.CompatibilityAnalyser.DeclareConstant | src/Bartlett/Reflect/Analyser/CompatibilityAnalyser.php:174-186 | the new state is one declared constant applied |
| Analyser.CompatibilityAnalyser.MemoiseConstant | src/Bartlett/Reflect/Analyser/CompatibilityAnalyser.php:176-185 | a declared constant's record is memoised (5.6.0 for a non-scalar initialiser) unless it already is |
| Analyser.CompatibilityAnalyser.ComputePhpFeatureVersions | src/Bartlett/Reflect/Analyser/CompatibilityAnalyser.php:793-821 | use statements (5.6.0), short array syntax (5.4.0) and dereferenced call results (5.4.0) raise the top frame; nothing else changes |
| Analyser.CompatibilityAnalyser.Traverse | src/Bartlett/Reflect/Analyser/CompatibilityAnalyser.php:93-196 | a walk that never closes more scopes than it opened keeps the frames below it, and one that closes all of them gives the stack back as it was |
| Analyser.CompatibilityAnalyser.AnalyseFile | src/Bartlett/Reflect/Analyser/CompatibilityAnalyser.php:66-91 | after a whole file every frame is closed, the global namespace and Core are recorded, and a global band exists |
| CacheStorage.Lookup | src/Bartlett/Reflect/Plugin/Cache/DefaultCacheStorage.php:73-82 | the adapter's fetch finds a value exactly when the key is stored |
| CacheStorage.FirstMatch | src/Bartlett/Reflect/Plugin/Cache/DefaultCacheStorage.php:99-104 | the first manifest entry for the file, or none exactly when no entry is for it |
| CacheStorage.Without | src/Bartlett/Reflect/Plugin/Cache/DefaultCacheStorage.php:127-129 | unsetting an entry keeps the others in their order |
| CacheStorage.ManifestSaved | src/Bartlett/Reflect/Plugin/Cache/DefaultCacheStorage.php:127-135 | a non-empty manifest is saved and an empty one deleted; no other key changes |
| CacheStorage.FetchMissChangesNothing | src/Bartlett/Reflect/Plugin/Cache/DefaultCacheStorage.php:91-138 | with no entry for the file, fetch returns nothing and changes nothing |
| CacheStorage.FetchStaleRemovesEntry | src/Bartlett/Reflect/Plugin/Cache/DefaultCacheStorage.php:112-135 | an expired, changed or missing entry returns nothing and is removed from the manifest, which is deleted when it empties |
| CacheStorage.FetchHitKeepsAdapter | src/Bartlett/Reflect/Plugin/Cache/DefaultCacheStorage.php:112-125 | a fresh entry returns the stored body and changes nothing |
| CacheStorage.KeptSnoc | src/Bartlett/Reflect/Plugin/Cache/DefaultCacheStorage.php:152-165 | each further entry is kept exactly when unexpired and for another file |
| CacheStorage.KeptMembers | src/Bartlett/Reflect/Plugin/Cache/DefaultCacheStorage.php:152-165 | exactly the unexpired entries for other files are kept, and no more than there were |
| CacheStorage.KeptAppend | src/Bartlett/Reflect/Plugin/Cache/DefaultCacheStorage.php:152-165 | pruning commutes with concatenation, so the kept entries keep their order |
| CacheStorage.DroppedSnoc | src/Bartlett/Reflect/Plugin/Cache/DefaultCacheStorage.php:155-160 | each further unexpired entry for the file drops its body |
| CacheStorage.DroppedMembers | src/Bartlett/Reflect/Plugin/Cache/DefaultCacheStorage.php:155-160 | a body is dropped exactly when some unexpired entry for the file names it |
| CacheStorage.CachedManifest | src/Bartlett/Reflect/Plugin/Cache/DefaultCacheStorage.php:147-181 | after cache the body is stored; the manifest ends with the one new entry for the file and otherwise holds exactly the unexpired entries for other files; the file's old bodies are gone |
| CacheStorage.ClearedSnoc | src/Bartlett/Reflect/Plugin/Cache/DefaultCacheStorage.php:195-202 | each further entry clears its body when it is truthy and stored |
| CacheStorage.ClearedMembers | src/Bartlett/Reflect/Plugin/Cache/DefaultCacheStorage.php:195-202 | a body is cleared exactly when it is stored, truthy and named by an entry |
| CacheStorage.ClearedBound | src/Bartlett/Reflect/Plugin/Cache/DefaultCacheStorage.php:195-202 | no more bodies are cleared than the manifest has entries |
| CacheStorage.DefaultCacheStorage.constructor | src/Bartlett/Reflect/Plugin/Cache/DefaultCacheStorage.php:60-64 | the adapter and TTL (3600 seconds unless given) are kept, with no manifest fetched yet |
| CacheStorage.DefaultCacheStorage.AdapterDelete | src/Bartlett/Reflect/Plugin/Cache/DefaultCacheStorage.php:133 | the key is gone afterwards, and the result says whether it was there |
| CacheStorage.DefaultCacheStorage.Exists | src/Bartlett/Reflect/Plugin/Cache/DefaultCacheStorage.php:73-82 | the manifest key is the hash of the source, the manifest is remembered, and the answer is whether a usable manifest is stored |
| CacheStorage.DefaultCacheStorage.Fetch | src/Bartlett/Reflect/Plugin/Cache/DefaultCacheStorage.php:91-138 | the response and the new adapter are those of the fetch rule |
| CacheStorage.DefaultCacheStorage.PruneEntry | src/Bartlett/Reflect/Plugin/Cache/DefaultCacheStorage.php:155-160 | one more entry's body is dropped when it is unexpired and for the file |
| CacheStorage.DefaultCacheStorage.Prune | src/Bartlett/Reflect/Plugin/Cache/DefaultCacheStorage.php:152-165 | the kept entries are those of the pruning rule, and exactly the dropped bodies are deleted |
| CacheStorage.DefaultCacheStorage.Cache | src/Bartlett/Reflect/Plugin/Cache/DefaultCacheStorage.php:147-181 | the new adapter is the cache rule applied with the storage's TTL |
| CacheStorage.DefaultCacheStorage.ClearBody | src/Bartlett/Reflect/Plugin/Cache/DefaultCacheStorage.php:196-201 | one more entry's body is deleted when truthy, and counted when the delete succeeds |
| CacheStorage.DefaultCacheStorage.ClearBodies | src/Bartlett/Reflect/Plugin/Cache/DefaultCacheStorage.php:195-202 | exactly the cleared bodies are deleted, and the count returned is their number, at most the number of entries |
| CacheStorage.DefaultCacheStorage.Delete | src/Bartlett/Reflect/Plugin/Cache/DefaultCacheStorage.php:190-207 | without a manifest nothing changes and 0 is returned; otherwise the cleared bodies and the manifest are deleted and the bodies counted |
| CacheStorage.DefaultCacheStorage.Purge | src/Bartlett/Reflect/Plugin/Cache/DefaultCacheStorage.php:216-220 | purging is delete of the whole source |
| ConstantModels.NewConstantModel | src/Bartlett/Reflect/Model/ConstantModel.php:40-61 | the short name is the upper-cased last piece; namespace, backslash and last piece spell the name; a magic constant belongs to core; value and file are as given |
| ConstantModels.InNamespace | src/Bartlett/Reflect/Model/ConstantModel.php:174-177 | a constant is in a namespace exactly when its namespace string is neither empty nor "0" |
| ConstantModels.InNamespaceFromName | src/Bartlett/Reflect/Model/ConstantModel.php:174-177 | an unqualified name is global; a name with an inner backslash is namespaced unless its namespace is the falsy "0" |
| ConstantModels.GetExtension | src/Bartlett/Reflect/Model/ConstantModel.php:93-108 | a user constant fails with 405; an unknown or unloaded extension fails with 404; otherwise the reflected name |
| ConstantModels.GetExtensionName | src/Bartlett/Reflect/Model/ConstantModel.php:115-127 | "user" for a user constant; only the 404 failure passes through; otherwise the extension's name |
| ConstantModels.IsInternal | src/Bartlett/Reflect/Model/ConstantModel.php:184-187 | a magic constant is internal; a user one is not; a loaded non-user extension is internal exactly when the reflected name is not "user"; an absent or unloaded extension fails with 404, and only then |
| ConstantModels.GetFileName | src/Bartlett/Reflect/Model/ConstantModel.php:79-85 | no file for an internal constant, the recorded file for a user one, and a failure exactly when isInternal fails |
| ConstantModels.MagicConstantIsInternal | src/Bartlett/Reflect/Model/ConstantModel.php:58-60 | a magic constant is in core, internal, and has no file |
| ConstantModels.UserConstantHasFile | src/Bartlett/Reflect/Model/ConstantModel.php:79-85 | a non-magic user constant reads "user", is not internal and keeps its file |
| ConstantModels.ToString | src/Bartlett/Reflect/Model/ConstantModel.php:205-215 | the string is "Constant [ ", the name, " ] { ", the value and " }" with a newline |
| FunctionModels.GetName | src/Bartlett/Reflect/Model/AbstractFunctionModel.php:55-64 | "{closure}" for a closure, else the namespaced name when set, else the declared name |
| FunctionModels.NamespaceOfNamespacedFunction | src/Bartlett/Reflect/Model/AbstractFunctionModel.php:71-76 | the namespace is the name's parts but the last, rejoined |
| FunctionModels.ShortNameCompletesName | src/Bartlett/Reflect/Model/AbstractFunctionModel.php:71-86 | namespace, backslash and short name spell the full name; without a namespace the short name is the full name |
| FunctionModels.GlobalWhenUnqualified | src/Bartlett/Reflect/Model/AbstractFunctionModel.php:71-76 | a closure or an unqualified function is in the global namespace |
| FunctionModels.InNamespace | src/Bartlett/Reflect/Model/AbstractFunctionModel.php:142-145 | an answer exactly when the name is a Name object |
| FunctionModels.InNamespaceIffNamespace | src/Bartlett/Reflect/Model/AbstractFunctionModel.php:71-76 | for a well-formed namespaced name, inNamespace agrees with a non-empty namespace |
| FunctionModels.IsInternal | src/Bartlett/Reflect/Model/AbstractFunctionModel.php:162-165 | a function is internal exactly when its extension is not "user" |
| FunctionModels.GetFileName | src/Bartlett/Reflect/Model/AbstractFunctionModel.php:42-48 | no file for an internal function, the recorded file otherwise |
| FunctionModels.ParametersOfSnoc | src/Bartlett/Reflect/Model/AbstractFunctionModel.php:123-135 | each further node adds a parameter model exactly when it is a parameter |
| FunctionModels.ParametersOfExact | src/Bartlett/Reflect/Model/AbstractFunctionModel.php:123-135 | the parameter list is exactly the Param nodes, in order, each with its position |
| FunctionModels.RequiredCountSnoc | src/Bartlett/Reflect/Model/AbstractFunctionModel.php:105-116 | each further parameter adds one exactly when it is not optional |
| FunctionModels.RequiredCountBound | src/Bartlett/Reflect/Model/AbstractFunctionModel.php:105-116 | no more parameters are required than there are, and all are exactly when none is optional |
| FunctionModels.FunctionModel.constructor | src/Bartlett/Reflect/Model/AbstractFunctionModel.php:123-135 | the node is kept and the parameter list is not built yet |
| FunctionModels.FunctionModel.GetParameters | src/Bartlett/Reflect/Model/AbstractFunctionModel.php:123-135 | the list is that of the node's Param nodes, built on first use and kept afterwards |
| FunctionModels.FunctionModel.GetNumberOfParameters | src/Bartlett/Reflect/Model/AbstractFunctionModel.php:94-98 | the number of Param nodes |
| FunctionModels.FunctionModel.GetNumberOfRequiredParameters | src/Bartlett/Reflect/Model/AbstractFunctionModel.php:105-116 | the number of non-optional parameters, at most the number of parameters |
| Formatter.GroupOf | src/Bartlett/Reflect/Console/Formatter/CompatibilityOutputFormatter.php:20-22 | a group's records are exactly the table's records of that category |
| Formatter.Title | src/Bartlett/Reflect/Console/Formatter/CompatibilityOutputFormatter.php:43-44 | "class" for classes, else the group name without its last letter |
| Formatter.GroupTitles | src/Bartlett/Reflect/Console/Formatter/CompatibilityOutputFormatter.php:13-19 | every group's title is its singular |
| Formatter.Ucfirst | src/Bartlett/Reflect/Console/Formatter/CompatibilityOutputFormatter.php:73 | only the first letter is upper-cased |
| Formatter.BandKeysAreFields | src/Bartlett/Reflect/Console/Formatter/CompatibilityOutputFormatter.php:61-65 | of a record's keys, exactly the ext and php min/max keys take part in the band |
| Formatter.Raise | src/Bartlett/Reflect/Console/Formatter/CompatibilityOutputFormatter.php:59-70 | each band field rises to the record's version when that is greater |
| Formatter.GreatestUnique | src/Bartlett/Reflect/Console/Formatter/CompatibilityOutputFormatter.php:51-70 | a group's band is determined by its records |
| Formatter.GreatestStep | src/Bartlett/Reflect/Console/Formatter/CompatibilityOutputFormatter.php:59-70 | raising by one more record gives the band of the larger group |
| Formatter.RaiseStep | src/Bartlett/Reflect/Console/Formatter/CompatibilityOutputFormatter.php:59-70 | the same for all four fields at once |
| Formatter.GroupBand | src/Bartlett/Reflect/Console/Formatter/CompatibilityOutputFormatter.php:51-70 | each band field is the greatest of the baseline and every record's version |
| Formatter.BandString | src/Bartlett/Reflect/Console/Formatter/CompatibilityOutputFormatter.php:80-83 | the min version alone when max is falsy; "min => max" when max is truthy; a space appears exactly when max is truthy |
| Formatter.RequiresLine | src/Bartlett/Reflect/Console/Formatter/CompatibilityOutputFormatter.php:24-38 | the line starts with "Requires PHP", the min version and "(min)"; it closes right there when max is falsy, and goes on with ", PHP max (max)" when max is truthy |
| Formatter.RowOf | src/Bartlett/Reflect/Console/Formatter/CompatibilityOutputFormatter.php:121-139 | the row shows the name and extension; "W" exactly when versions are excluded, else "C" exactly when optional; the matches read back as the count, blank for zero; both bands |
| Formatter.MinimumExists | src/Bartlett/Reflect/Console/Formatter/CompatibilityOutputFormatter.php:113 | a non-empty set of keys has a least key |
| Formatter.SortKeys | src/Bartlett/Reflect/Console/Formatter/CompatibilityOutputFormatter.php:113 | the keys are listed once each, in strictly increasing order |
| Formatter.ShownNamesSnoc | src/Bartlett/Reflect/Console/Formatter/CompatibilityOutputFormatter.php:115-120 | each further key is shown exactly when it passes the filter |
| Formatter.ShownNamesExact | src/Bartlett/Reflect/Console/Formatter/CompatibilityOutputFormatter.php:115-120 | exactly the keys that pass the filter are shown |
| Formatter.ShownNamesSorted | src/Bartlett/Reflect/Console/Formatter/CompatibilityOutputFormatter.php:113-120 | filtering keeps the sorted order |
| Formatter.RowsMatchSnoc | src/Bartlett/Reflect/Console/Formatter/CompatibilityOutputFormatter.php:121-140 | appending a shown record's row keeps rows and names aligned |
| Formatter.RowsOfShownNames | src/Bartlett/Reflect/Console/Formatter/CompatibilityOutputFormatter.php:110-143 | rows aligned with the sorted shown keys are the group's report |
| Formatter.VersionHelper | src/Bartlett/Reflect/Console/Formatter/CompatibilityOutputFormatter.php:110-143 | one row per record that passes the filter, each that record's row, in increasing key order, and no other row |
| Formatter.AppendRows | src/Bartlett/Reflect/Console/Formatter/CompatibilityOutputFormatter.php:115-141 | the rows are those of the keys that pass the filter, in the given order |
| Formatter.DistinctNamesCount | src/Bartlett/Reflect/Console/Formatter/CompatibilityOutputFormatter.php:110-143 | rows with distinct names have as many names as rows |
| Formatter.UnfilteredRowsCoverGroup | src/Bartlett/Reflect/Console/Formatter/CompatibilityOutputFormatter.php:110-143 | without a filter there is one row per record |
| Formatter.Footer | src/Bartlett/Reflect/Console/Formatter/CompatibilityOutputFormatter.php:85-103 | six cells: the total, as shown/total when filtered, and the group's PHP band |
| Formatter.UnfilteredTotalCountsRows | src/Bartlett/Reflect/Console/Formatter/CompatibilityOutputFormatter.php:94-103 | without a filter the footer's total is the number of rows shown |
| Formatter.ListHelper | src/Bartlett/Reflect/Console/Formatter/CompatibilityOutputFormatter.php:41-108 | "No … found" for an empty group, else the heading, headers, rows, band and footer of the group |
| Formatter.Invoke | src/Bartlett/Reflect/Console/Formatter/CompatibilityOutputFormatter.php:10-39 | one listing per group, in order, unfiltered, then the "Requires" line |

## Left out

- The parser and the tree walker are not part of this model. A walk is a
  sequence of enter and leave events over the node kinds of `Syntax`. Node
  attributes become fields: the namespaced name, the short-array flag, start
  and end lines, and a node identity for the memo of resolved records.
- The reference database (`ReferenceCollection::find`) is the function
  parameter `find`. The source exposes it as a statically shared object.
- ReflectionExtension and `extension_loaded` are the parameters `loaded`
  and `reported` of the constant model.
- The function model's extension lookup lives in AbstractModel, which is
  not part of this model. Its result is the field `extensionName`.
- `sha1`, `sha1_file`, `time`, `serialize` and `unserialize` are
  parameters or the identity. The storage takes `sha1` and `now`. A stored
  manifest is held already unserialized.
- Console output, `tableHelper` and the table separator are left out. A
  listing is returned as a value.
- ParameterModel, AbstractModel and MethodModel are not part of this model.
  `isOptional` is taken as "has a default or is variadic", as the parser's
  parameter node gives it.
- ConstantModel::getDocComment (ConstantModel.php:68-71) reads a node
  attribute the model does not carry.
- ConstantModel's plain accessors (getName, getShortName, getNamespaceName,
  getValue, isMagic) are the fields of `ConstantModels.ConstantModel`. They
  are fixed by the ensures of `ConstantModels.NewConstantModel`.
- FunctionModels.GetShortName and FunctionModels.GetNamespaceName carry no
  ensures of their own. What they promise is stated by
  `FunctionModels.ShortNameCompletesName` and
  `FunctionModels.NamespaceOfNamespacedFunction`.
- AbstractFunctionModel::isClosure is the node flag `isClosure`.
- The formatter's `$filter` is always false when `__invoke` calls
  listHelper. The filtered path is modelled in `Formatter.ListHelper` only.
  Only the six `version_compare` operators are modelled; any other operator
  makes PHP return null.
- Formatter.SortKeys: orders keys by `strcmp`. PHP stores a name that
  looks like an integer, such as the constant of `define('123', ...)` or the
  tested name of `defined('123')`, as an integer key, and `ksort` orders such
  keys numerically; the model orders every key as a string.
- CacheStorage.DefaultCacheStorage.AdapterDelete: the adapter's delete is
  taken to report true exactly when the key was stored. The adapter is not
  part of this model. The purge count (`CacheStorage.ClearedBound`,
  `CacheStorage.DefaultCacheStorage.Delete`) rests on this.
- Analyser.CompatibilityAnalyser.LeaveScope: requires a frame below the
  popped one. The source pops from an empty stack only on a malformed walk.
- Analyser.CompatibilityAnalyser.ComputeTypeVersions: a class, interface or
  trait with no record leaves the table unchanged. In the source,
  `array_merge` with null returns null, which makes the update a no-op.
- The PHP array of a record keeps keys in insertion order. The model's
  record is a datatype, so key order is not modelled.
- PHP `null` and `false` are both `None` where the source returns either
  (GetFileName, Lookup).
- ConstantModels.ToString: `sprintf('%s')` of a non-string value is left
  out. The value is held as its string.
- Two behaviours of the code that the model keeps as written:
  - a variadic parameter raises only the local versions, not the frame
    (CompatibilityAnalyser.php:485-487);
  - every `use` statement raises its frame to 5.6.0, because the test at
    CompatibilityAnalyser.php:799 reads the class constants
    `TYPE_FUNCTION || TYPE_CONSTANT`, which are never zero.
- Versions are held as sequences of numbers, so only dotted numeric
  versions are modelled. `version_compare`'s other forms are left out: the
  special strings `dev`, `alpha`/`a`, `beta`/`b`, `RC`, `#` and `pl`, and
  the `-` and `+` separators. A version is also printed from its numbers,
  so `'5.3.00'` is held as [5, 3, 0] and prints as `'5.3.0'`.
