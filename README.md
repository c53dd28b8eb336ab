# optspp core, modelled in Dafny

optspp is a header-only C++ command line parser. This project models its core:

- **entity.dfy** (module `Entity`): the scheme entity (`scheme::entity`).
  - Entities live in an arena `seq<Node>` held by the class `Arena`. Children are arena indices, and every child index is greater than its parent's (`Forward`).
  - Covered: the setters `set_siblings_group`, `set_positional`, `set_named` and both `set_value`s, every `apply_property` specialisation, and the deep-copy constructor.
- **definition.dfy** (module `Definition`): the scheme definition (`scheme::definition`).
  - The structural validation `validate_entity`, which appends a value accepting anything under every argument that has no value.
  - The vertical name check `vertical_name_check`, and `validate`.
  - The `parse` guard, the prefix tests, and the lookups `operator[]` and `operator()` on the stored values.
- **options.dfy** (module `Options`): the flat option table (`optspp::options`).
  - `add`, `erase`, `check`, both `find`s and both `operator<<`s.
  - The token loop `parse_` with its handlers `try_long_name_`, `try_short_name_` and `try_positional_`.
- **common.dfy** (module `Common`): `Option`, `Outcome` (pass or the error thrown) and `Result`, plus the linear searches (`FirstIndex`, `FirstCommon`) that the library's `std::find` loops instantiate.

Each imperative routine is a method that is proved against a specification function:

- `ValidateEntity` against `ValidateSpec`;
- `Validate` against `ValidateFrom`;
- `Check` against `ConflictFrom`;
- `Parse` against `ParseFrom`;
- `Copy` against `IsCopyOf`.

The properties the library promises are lemmas about those functions.

Two consequences of the code, stated here as the model states them:

- `validate()` checks only the subtrees under the root's children. The kind of a root child is never checked, so a VALUE directly under the root is accepted.
- `vertical_name_check` compares an argument's names only with those of its ancestors. Two arguments on different branches may share a name (`VerticalCheckFailsIffAncestorShares`).

The copy constructor does not copy `implicit_values_`. It also reads each child's sibling group with `.at`, which throws when a child has no entry. The children added by `validate_entity` never get an entry. So copying, after validation, an entity whose subtree gained such a value throws; copying one whose subtree gained none does not. `Copy` returns `None` exactly when some child in the subtree has no entry (`GroupsComplete`).

`parse_` never ends when an iteration leaves the cursor where it was. This happens on a token with neither prefix, because `try_positional_` does nothing. It also happens on a lone `-`. In that situation the state is unchanged as well, so the source repeats the same iteration forever. The model stops there with `Stuck(at)` (`IterationIdleIff`, `ParseStuckAt`, `StuckOnIdleToken`).

## Model

| member | source | states |
|---|---|---|
| Entity.Arena.Create | src/scheme/entity.hpp:26-28 | a new entity of the given kind with every attribute absent, appended at the end of the arena |
| Entity.Arena.SetSiblingsGroup | src/scheme/entity.hpp:30-32 | only the group of that entity changes |
| Entity.Arena.SetPositional | src/scheme/entity.hpp:34-36 | only the positional flag changes, to true |
| Entity.Arena.SetNamed | src/scheme/entity.hpp:39-41 | only the positional flag changes, to false |
| Entity.Arena.SetValues | src/scheme/entity.hpp:43-46 | known values set and the any-flag false; exactly one value mode is active afterwards |
| Entity.Arena.SetAny | src/scheme/entity.hpp:48-51 | known values cleared and the any-flag true; exactly one value mode is active afterwards |
| Entity.Fresh | src/scheme/entity.hpp:59-62 | the names of a list that are neither present already nor repeated earlier in it, in their order |
| Entity.MergeNames | src/scheme/entity.hpp:58-62 | the merge is exactly the old list, then the first new name, then the later new names not yet present, in the order given; the result holds exactly the old and new names without a new duplicate |
| Entity.Arena.ApplyName | src/scheme/entity.hpp:54-73 | as written: non-arguments unchanged; on an argument a carried name list is only made present (empty when absent), the merged list being discarded |
| Entity.Arena.ApplyNameMerged | src/scheme/entity.hpp:54-73 | corrected: the stored list is exactly the old names, then the property's first name, then its later names not yet present, in order |
| Entity.NamedFirstAsWritten | src/scheme/entity.hpp:54-73 | `name("first")` on a new argument leaves its long names empty |
| Entity.NamedFirst | src/scheme/entity.hpp:54-73 | with the merge stored, `name("first")` gives exactly the long names ["first"] |
| Entity.Arena.ApplyDefaultValues | src/scheme/entity.hpp:76-86 | as written: only an argument given values is changed, and only by making the list present |
| Entity.Arena.ApplyDefaultValuesAppended | src/scheme/entity.hpp:76-86 | corrected: the property's values are appended to the stored ones |
| Entity.DefaultsAsWritten | src/scheme/entity.hpp:76-86 | default values given to a new argument leave an empty list |
| Entity.Defaults | src/scheme/entity.hpp:76-86 | with the append stored, the list is the values given |
| Entity.Arena.ApplyImplicitValues | src/scheme/entity.hpp:89-99 | as written: only an argument given values is changed, and only by making the list present |
| Entity.Arena.ApplyImplicitValuesAppended | src/scheme/entity.hpp:89-99 | corrected: the property's values are appended to the stored ones |
| Entity.ImplicitSecondAsWritten | src/scheme/entity.hpp:89-99 | `implicit_values("implicit")` on a new argument leaves an empty list |
| Entity.ImplicitSecond | src/scheme/entity.hpp:89-99 | with the append stored, the implicit values are ["implicit"] |
| Entity.Arena.ApplyDescription | src/scheme/entity.hpp:102-106 | an absent text changes nothing; a present one replaces the description only |
| Entity.Arena.ApplyMinCount | src/scheme/entity.hpp:109-113 | an absent count changes nothing; a present one sets the minimum only |
| Entity.Arena.ApplyMaxCount | src/scheme/entity.hpp:116-120 | as written: a present count is stored as the minimum and the maximum never changes |
| Entity.Arena.ApplyMaxCountIntended | src/scheme/entity.hpp:116-120 | corrected: a present count sets the maximum and the minimum is untouched |
| Entity.MaxCountAsWritten | src/scheme/entity.hpp:116-120 | `max_count(3)` on a new argument leaves the maximum unset and the minimum 3 |
| Entity.MaxCount | src/scheme/entity.hpp:116-120 | with the assignment corrected, the maximum is 3 and the minimum unset |
| Entity.Arena.Copy | src/scheme/entity.hpp:7-24 | the old arena is a prefix of the new one; the copy succeeds iff every child in the subtree has a sibling-group entry; a successful copy is a fresh subtree equal to the original except that implicit values are absent, with children copied in order, each keeping its group, every copied entity new and the copies of different children disjoint |
| Entity.Arena.CopyFrom | src/scheme/entity.hpp:19-23 | the recursion of the copy, against a snapshot of the arena: the same guarantees for a subtree |
| Entity.IsCopyOfFrame | src/scheme/entity.hpp:19-23 | a finished copy stays a copy when nothing in its own range of entities changes |
| Entity.CopyWithin | src/scheme/entity.hpp:19-23 | everything reachable from the top of a copy lies in the copy's own range of new entities |
| Entity.CopyChildrenDisjoint | src/scheme/entity.hpp:19-23 | the copies of two different children share no entity: each `make_shared` makes an entity of its own |
| Definition.Definition.constructor | src/scheme/definition.hpp:7-9 | a new definition has a single root entity of kind NONE |
| Definition.Definition.CheckEntity | src/scheme/definition.hpp:51-87 | the result is the first local check of `validate_entity` that fails, in source order, and nothing changes |
| Definition.Definition.AddAnyValue | src/scheme/definition.hpp:74-80 | a wildcard value becomes the only child of the childless argument; every other entity is unchanged |
| Definition.Definition.ValidateEntity | src/scheme/definition.hpp:50-91 | the outcome is the pre-order first failure over the subtree of the arena before the call; on success every argument in the subtree has a child; the arena only grows by wildcard values; a subtree already valid is left unchanged; entities before `e`, and every entity the subtree does not reach, are untouched |
| Definition.Definition.ValidateChildren | src/scheme/definition.hpp:88-90 | the children are validated in order, stopping at the first failure; only entities the parent's subtree reaches change, the parent itself not |
| Definition.ValidateSpecIff | src/scheme/definition.hpp:50-91 | validation of a subtree passes iff no entity reachable from its top fails a local check |
| Definition.FailingPath | src/scheme/definition.hpp:50-91 | a failing validation has a downward path to an entity with a local error |
| Definition.ArgumentWithNonValueChildRejected | src/scheme/definition.hpp:69-73 | a reachable argument with a non-value child makes validation fail |
| Definition.ValueWithNonArgumentChildRejected | src/scheme/definition.hpp:82-87 | a reachable value with a non-argument child makes validation fail |
| Definition.PositionalWithSwitchAttributesRejected | src/scheme/definition.hpp:52-56 | a reachable positional argument with short names or implicit values makes validation fail |
| Definition.NamedWithoutNamesRejected | src/scheme/definition.hpp:63-68 | a reachable named argument with neither long nor short names makes validation fail |
| Definition.ArgumentsHaveValues | src/scheme/definition.hpp:74-80 | after a validation that passed, every reachable argument has at least one child, all of them values |
| Definition.VerticalCheckIff | src/scheme/definition.hpp:26-48 | the name check passes iff no downward path ends in an argument whose name is taken or used by an argument above it |
| Definition.VerticalCheckFailsIffAncestorShares | src/scheme/definition.hpp:26-48 | starting from empty lists, the name check fails iff some argument shares a long or short name with one of its ancestors |
| Definition.VerticalGrown | src/scheme/definition.hpp:93-98 | the name check gives the same verdict before and after validation appended its values |
| Definition.Definition.ValidateTop | src/scheme/definition.hpp:94-96 | one root child: its validation, and if that passes its name check; only entities that child reaches change |
| Definition.Definition.Validate | src/scheme/definition.hpp:93-98 | the outcome is the first failure over the root's children in order, each one validated and then name-checked; on success every root child's subtree has values under all arguments; the root and every entity it does not reach are untouched |
| Definition.ValidateFromIff | src/scheme/definition.hpp:93-98 | a scheme passes iff, under each root child, no entity fails a local check and no argument reuses an ancestor's name |
| Definition.Definition.Parse | src/scheme/definition.hpp:11-16 | a definition already parsed is untouched and passes; otherwise the outcome and the changes are those of validation |
| Definition.Definition.IsLongPrefix | src/scheme/definition.hpp:100-102 | true iff the string is one of the long prefixes |
| Definition.Definition.IsShortPrefix | src/scheme/definition.hpp:104-106 | true iff the string is one of the short prefixes |
| Definition.Definition.Get | src/scheme/definition.hpp:112-126 | the values of the first stored entry whose entity answers to the name, or an empty list |
| Definition.Definition.Last | src/scheme/definition.hpp:141-152 | the last value of the first matching entry; "has no values" when it is empty; "not found" when nothing matches |
| Definition.Definition.AtAsWritten | src/scheme/definition.hpp:128-139 | as written: every index inside the list is refused as out of bounds and only an index past the end reaches the read; no call ever yields a value |
| Definition.Definition.At | src/scheme/definition.hpp:128-139 | corrected: a value is returned iff the first matching entry has that index, and it is the value there; otherwise out of bounds, or not found |
| Options.Opt.Copy | src/options.hpp:88-92 | the option copied by value has the same names, implicit values and validity test |
| Options.OptionTable.constructor | src/options.hpp:94-101 | an empty table |
| Options.OptionTable.Add | src/options.hpp:15-17 | the option is appended, even when present already |
| Options.OptionTable.Erase | src/options.hpp:19-21 | the list becomes `Without(list, o)`: every occurrence removed, the rest in order |
| Options.EraseUndoesAdd | src/options.hpp:15-21 | erasing an option just added to a list without it gives back the list |
| Options.EraseIdempotent | src/options.hpp:19-21 | erasing twice is erasing once |
| Options.WithoutKeepsOrder | src/options.hpp:19-21 | two kept options keep their relative order |
| Options.CheckPair | src/options.hpp:27-48 | the conflict of one pair: the first shared long name, else the first shared short name |
| Options.FirstShared | src/options.hpp:32-36 | the nested loops find the first element of the left list that occurs in the right one |
| Options.OptionTable.Check | src/options.hpp:23-52 | the result is the first conflicting pair of positions i < j in loop order |
| Options.CheckSpec | src/options.hpp:23-52 | the check passes iff no two positions share a long or short name (synonyms included); a reported conflict is a name two such options share |
| Options.DuplicateConflicts | src/options.hpp:23-52 | two entries with the same contents always conflict |
| Options.LookupLong | src/options.hpp:54-63 | the first option in list order whose long name or a synonym equals the query, and none iff no option answers |
| Options.LookupShort | src/options.hpp:65-74 | the same for short names |
| Options.OptionTable.FindLong | src/options.hpp:54-63 | the loop returns `LookupLong` of the list |
| Options.OptionTable.FindShort | src/options.hpp:65-74 | the loop returns `LookupShort` of the list |
| Options.LookupLongUnique | src/options.hpp:54-63 | in a list that passes the check, the option answering to a long name is the only one |
| Options.LookupShortUnique | src/options.hpp:65-74 | in a list that passes the check, the option answering to a short name is the only one |
| Options.AdjoinIdempotent | src/options.hpp:76-86 | pushing the same option twice is pushing it once |
| Options.OptionTable.Push | src/options.hpp:76-86 | the option is appended only when this very object is absent; the outcome passes iff the names are then distinct; the option stays even when the check fails |
| Options.OptionTable.PushCopy | src/options.hpp:88-92 | a fresh copy is always appended, and it conflicts whenever an option with the same contents is present |
| Options.TakeValue | src/options.hpp:124-141 | at the end of input the option's implicit values replace its entry (cursor + 1), or it raises the missing-value error when it has none; otherwise a valid next argument is appended to its entry (cursor + 2), an invalid one raises the invalid-value error; an error stores nothing, a success changes only that option's entry |
| Options.LongStep | src/options.hpp:114-147 | the cursor only moves forward, to at most the end; a step that does not move changes nothing |
| Options.ClusterStep | src/options.hpp:154-191 | a non-empty cluster either fails or moves the cursor |
| Options.ShortStep | src/options.hpp:149-194 | the cursor only moves forward; a step that does not move changes nothing |
| Options.Iteration | src/options.hpp:105-111 | an iteration that leaves the cursor in place leaves the whole state unchanged |
| Options.OptionTable.TryLong | src/options.hpp:114-147 | the new values, cursor and error are those of `LongStep` |
| Options.LongStepOutcomes | src/options.hpp:114-147 | on "--name": an unknown name raises the unknown-long-parameter error; a known one at the end of input without implicit values raises the requires-value error; an invalid next argument raises the invalid-value error; otherwise the value or the implicit values are stored |
| Options.OptionTable.TryShort | src/options.hpp:149-194 | the new values, cursor and error are those of `ShortStep` |
| Options.PrefixOpts | src/options.hpp:154-161 | the options the first characters of a cluster stand for, in order |
| Options.WithImplicits | src/options.hpp:181-184 | after the first characters of a cluster, each of their options holds its implicit values and every other entry is as before |
| Options.ClusterReaches | src/options.hpp:154-187 | when every earlier character stands for an option with implicit values, the loop reaches the next character with those values stored |
| Options.ShortUnknownRaises | src/options.hpp:188-190 | a cluster character no option answers to raises the unknown-short-parameter error, the earlier characters' values kept |
| Options.ShortInnerRequiresImplicit | src/options.hpp:181-186 | a character before the last whose option has no implicit values raises the requires-value error |
| Options.ShortLastOutcomes | src/options.hpp:164-180 | the last character of a cluster takes a value as a long option does: the requires-value and invalid-value errors on the same inputs, otherwise the value or the implicit values stored |
| Options.OptionTable.TryPositional | src/options.hpp:196-197 | the cursor does not move |
| Options.OptionTable.Parse | src/options.hpp:103-112 | the status and the values are those of `ParseFrom` from the start of the arguments |
| Options.ParseAdmissible | src/options.hpp:114-194 | every value stored for an option is one of its implicit values or passes its validity test, even when the loop raises |
| Options.ParseKeys | src/options.hpp:114-194 | values are stored only under options of the table |
| Options.IterationIdleIff | src/options.hpp:103-197 | an iteration changes nothing iff the token under the cursor has neither prefix or is a lone "-" |
| Options.ParseStuckAt | src/options.hpp:103-112 | the loop stops with `Stuck(at)` only at an argument with neither prefix or a lone "-", at or after where it started |
| Options.StuckOnIdleToken | src/options.hpp:103-112 | on such an argument under the cursor the loop stops there at once, with the values it had |
| Options.LongOptionTakesValue | src/options.hpp:124-141 | a known long option followed by a valid value appends it and advances by two |
| Options.ConsecutiveLongOptionsRejected | src/options.hpp:103-112 | as written: "--a x --b y" raises an unknown short parameter '-' when no option has that short name |
| Options.IntendedAcceptsLongPairs | src/options.hpp:103-112 | corrected loop: any run of known long options with valid values completes |
| Options.ConsecutiveLongOptionsAccepted | src/options.hpp:103-112 | corrected loop: "--a x --b y" completes |

## Left out

- The tree matcher `scheme::parser`, which `definition::parse` runs after validation (src/scheme/definition.hpp:14-15), is not part of this model. Its source is not among the modelled files. The definition's stored values are therefore whatever entries the model is given.
- Definition.Definition.constructor: the initial prefix lists, stored values and `parsed_` flag come from member initialisers in src/scheme.hpp, which is not part of this model. The contract takes them to be "--", "-", empty and false, as in `options`.
- Definition.Definition.AtAsWritten: when the index is past the end of the entry, the source reads `p.second[idx]` out of range, which is undefined behaviour in C++. The model returns the `ReadPastEnd` error there instead of any value.
- Definition.Definition.Parse: models the guard and the validation only. Marking the definition as parsed and filling the values are the matcher's work, which is not part of this model.
- `definition::parse(argc, argv)` (src/scheme/definition.hpp:18-24) only turns the host's argument vector into strings.
- `definition::root()` (src/scheme/definition.hpp:108-110) only returns the root, which is the field `root`.
- The positional/any-value child check (src/scheme/definition.hpp:57-62) can never fire. It tests the parent's positional flag for false inside a branch where that flag is true.
- Console output (`std::cout`) is left out. It is I/O with no effect on state.
- The `option` class is not part of this model. Its names, implicit values and `is_valid_value` are the fields of `Opt`, with the validity test as a function field.
- `entity::name_matches` is not part of this model. It is taken to be membership in the entity's long or short name list.
- The initial sibling group of a new entity is declared in a header that is not part of this model. `Xor` stands for it.
- The prefix lists of `options` are private single-element lists that nothing changes, so they are the constants "--" and "-".
- Nothing in the shown code assigns `options::args_`. The model's `args` field is set by the caller before `Parse`.
- Exceptions are modelled as `Fail`, `Err` or `Raised` carrying the error kind. Their message texts are not modelled.
- A `parse_` run that the source would repeat forever ends in `Stuck` instead.
- Shared pointers are modelled as arena indices in the scheme and as object references in the option table. `pending_siblings_group_` is a map from child index to group. A child shared under two parents is therefore modelled, but aliasing across definitions is not.
- `size_t` widths are not modelled. Indices are unbounded, and no loop in the core comes near overflow.

## Findings

| source | as written | input that shows it | evidently intended | confidence | as-written member | corrected member |
|---|---|---|---|---|---|---|
| src/scheme/entity.hpp:116-120 | `apply_property(max_count)` assigns `min_count_` | `max_count(3)` on a new argument leaves the maximum unset (`Entity.MaxCountAsWritten`) | the count is stored as the maximum (`Entity.MaxCount`) | high, not executed | Entity.Arena.ApplyMaxCount | Entity.Arena.ApplyMaxCountIntended |
| src/scheme/entity.hpp:54-73 | the merged name list is built in a local copy and dropped | `named(name("first"))` ends with no long names (`Entity.NamedFirstAsWritten`), while test/optspp.cpp:48 expects one | the merged list is stored (`Entity.NamedFirst`) | high, not executed | Entity.Arena.ApplyName | Entity.Arena.ApplyNameMerged |
| src/scheme/entity.hpp:76-86 | the default values are appended to a local copy | `default_values("x")` leaves an empty list (`Entity.DefaultsAsWritten`) | the values are stored (`Entity.Defaults`) | high, not executed | Entity.Arena.ApplyDefaultValues | Entity.Arena.ApplyDefaultValuesAppended |
| src/scheme/entity.hpp:89-99 | the implicit values are appended to a local copy | `implicit_values("implicit")` leaves an empty list (`Entity.ImplicitSecondAsWritten`), while test/optspp.cpp:55 expects "implicit" | the values are stored (`Entity.ImplicitSecond`) | high, not executed | Entity.Arena.ApplyImplicitValues | Entity.Arena.ApplyImplicitValuesAppended |
| src/scheme/definition.hpp:128-139 | the guard reads `size() < idx` before indexing `[idx]` (also lines 154-165) | an entry holding one value, index 0, is refused as out of bounds; index 2 reads past the end | `idx < size()` | high, not executed | Definition.Definition.AtAsWritten | Definition.Definition.At |
| src/options.hpp:103-112 | after `try_long_name_` consumes "--a x", `try_short_name_` runs on "--b" as a short cluster | "--a x --b y" with both options known raises an unknown short parameter '-' | each token with the long prefix is left to the long handler | medium, not executed | Options.ConsecutiveLongOptionsRejected | Options.IntendedAcceptsLongPairs |
