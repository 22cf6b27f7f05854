# Declaration pretty-printer of rust-analyzer's `hir` crate

This project models the code that turns the resolved metadata of a Rust
declaration into the one-line or block text shown on hover: the
`HirDisplay` implementations for functions, receivers, structs, unions,
enums, variants, fields, consts, statics, traits, trait aliases, type
aliases, modules, extern crates, macros and generic parameters, together
with the two shared helpers `write_generic_params` (the `<...>` clause) and
`write_where_clause` (the `where` clause). All of them live in
`crates/hir/src/display.rs`.

The helpers and the functions, ADTs and variants append to a formatter
buffer in loops driven by local state. These are modelled as methods on the
class `Formatter.HirFormatter`, whose field `buf` is the text written so far.
Each method ensures `f.buf == old(f.buf) + XText(...)`. Each `XText` is a
pure function that gives the exact text, and the lemmas beside it state
what that text looks like. Declarations whose text is a fixed token sequence
(consts, statics, traits, aliases, modules, macros, extern crates, const and
lifetime parameters shown on their own) are modelled as pure functions only;
a type parameter, which reads the formatter's compact-mode flag, also has a
writer.

Names, visibilities and ABI strings are opaque strings. Type expressions
and bounds are shown by three leaf formatters, held in the formatter's
`Renderer` and left unspecified: one for a type as written, one for the
type the front end resolves for it (the two may differ, for instance when a
type alias is expanded), and one for a bound.

Files:

- `text.dfy`: joining with a separator, concatenation, prefixes and suffixes.
- `hir.dfy`: the input records.
- `formatter.dfy`: the output buffer.
- `generic_params.dfy`: the `<...>` clause.
- `where_clause.dfy`: the `where` clause.
- `functions.dfy`: function signatures and receivers.
- `adts.dfy`: structs, unions, enums, variants and fields.
- `items.dfy`: every other declaration kind.

## Model

| member | source | states |
|---|---|---|
| `Formatter.HirFormatter.WriteStr` | crates/hir/src/display.rs:39 | the sink primitive behind every `write_str`, `write_char` and `write!` in the file (one call site cited): appending adds exactly the given text after what is already written |
| `GenericParamList.WriteDelim` | crates/hir/src/display.rs:395-403 | the `delim` closure writes nothing the first time and `", "` every later time, and clears the flag |
| `GenericParamList.NeedsGenericClause` | crates/hir/src/display.rs:383-389 | the clause is written when there is a lifetime, a const parameter, or a type parameter from the parameter list |
| `GenericParamList.IsListed` | crates/hir/src/display.rs:409-414 | an arena entry appears in the clause when it has a name and is a const parameter or a type parameter from the parameter list |
| `GenericParamList.EntryText` | crates/hir/src/display.rs:409-431 | a type entry is its name and ` = default` when it has one; a const entry is `const N: T` with the written type and ` = default` when it has one |
| `GenericParamList.WriteEntry` | crates/hir/src/display.rs:409-431 | a listed entry is written as its name plus `" = " + default` when a type default exists, or as `"const N: " + type` plus `" = " + default` when a const default exists |
| `GenericParamList.WriteLifetimes` | crates/hir/src/display.rs:404-407 | the loop over the lifetimes writes them joined by `", "`, and leaves the `first` flag set exactly when there were none |
| `GenericParamList.WriteListedEntries` | crates/hir/src/display.rs:408-434 | the loop over the type-or-const arena extends the comma-joined list with exactly the listed entries, in arena order; unnamed entries and type parameters not from the parameter list are skipped |
| `GenericParamList.WriteGenericParams` | crates/hir/src/display.rs:378-438 | the writer produces exactly `GenericParamsText`: nothing, or `<`, lifetimes, then entries, joined by `", "`, then `>` |
| `GenericParamList.GenericClauseOmittedIff` | crates/hir/src/display.rs:383-392 | the clause is empty if and only if there are no lifetimes, no const parameters and no type parameter from the parameter list |
| `GenericParamList.GenericClauseDelimited` | crates/hir/src/display.rs:393-436 | a written clause starts with `<` and ends with `>` |
| `GenericParamList.GenericClauseLayout` | crates/hir/src/display.rs:395-434 | all lifetimes come before all entries; exactly one `", "` sits between the two parts when both are present, and there is no trailing separator |
| `GenericParamList.ListedEntriesAppend` | crates/hir/src/display.rs:408-434 | the entries listed for a concatenated arena are those of each part, in order |
| `GenericParamList.UnlistedEntrySkipped` | crates/hir/src/display.rs:409-414 | inserting an unnamed or synthetic entry anywhere leaves the listed entries unchanged |
| `GenericParamList.ListedEntryAt` | crates/hir/src/display.rs:408-434 | every listed entry appears in the list, at the position given by the number of listed entries before it |
| `WhereClause.WriteTarget` | crates/hir/src/display.rs:462-470 | a target is written through the type formatter, as the parameter's name, or as `{unnamed}` |
| `WhereClause.ContinuesGroup` | crates/hir/src/display.rs:485-514 | a predicate continues its predecessor when both are type bounds on the same target, lifetime bounds on the same lifetime, or higher-ranked bounds with the same binder and target |
| `WhereClause.WriteForBinder` | crates/hir/src/display.rs:518-525 | a binder is written as `for<`, the lifetimes joined by `", "`, then `"> "` |
| `WhereClause.WriteGroupHead` | crates/hir/src/display.rs:488-528 | a predicate that opens a group writes its head: `target: ` for a type bound or a lifetime, `for<...> target: ` for a higher-ranked bound |
| `WhereClause.WritePredicate` | crates/hir/src/display.rs:475-531 | one loop iteration writes exactly `PredicateText`: nothing for a hidden bound, `" + " + bound` when it continues its predecessor, otherwise the index-chosen separator, the head and the bound |
| `WhereClause.WritePredicates` | crates/hir/src/display.rs:474-532 | the loop writes the contributions of all predicates in list order |
| `WhereClause.WriteWhereClause` | crates/hir/src/display.rs:440-538 | the writer produces exactly `WhereClauseText`: nothing when no predicate is displayable, otherwise `\nwhere`, the predicates, and `,` |
| `WhereClause.BoundTexts` | crates/hir/src/display.rs:493-529 | the bounds of a run, one per predicate, in order |
| `WhereClause.WhereClauseOmittedIff` | crates/hir/src/display.rs:444-460 | the clause is empty if and only if every predicate is a type bound on an unnamed parameter |
| `WhereClause.WhereClauseFramed` | crates/hir/src/display.rs:472-535 | a written clause starts with `\nwhere` and ends with `,` |
| `WhereClause.ContinuationSharesVisibility` | crates/hir/src/display.rs:482-531 | a predicate that continues its predecessor is hidden exactly when the predecessor is, because continuation requires the same kind and target |
| `WhereClause.PredicateTextOpening` | crates/hir/src/display.rs:477-488 | a displayed predicate that does not continue its predecessor writes `"\n    "` at index 0 and `",\n    "` at any later index, then its head and its bound |
| `WhereClause.PredicateTextContinuing` | crates/hir/src/display.rs:484-512 | a displayed predicate that continues its predecessor writes only `" + "` and its bound |
| `WhereClause.RunShown` | crates/hir/src/display.rs:482-531 | every member of a run of continuing predicates opened by a displayed predicate is displayed |
| `WhereClause.RunRendersAsOneGroup` | crates/hir/src/display.rs:474-531 | a maximal run renders as one group: the separator chosen by the opener's index, the opener's head, and all bounds of the run joined by `" + "` |
| `WhereClause.PredicatesTextPrefix` | crates/hir/src/display.rs:474-531 | the output grows monotonically: the text of fewer predicates is a prefix of the text of more |
| `WhereClause.SingleGroupClause` | crates/hir/src/display.rs:472-535 | when every predicate continues the one before, the clause is `\nwhere\n    head` followed by all bounds joined by `" + "` and then `,` |
| `WhereClause.HiddenFirstPredicateLeavesComma` | crates/hir/src/display.rs:478-483 | when predicate 0 is hidden and predicate 1 is shown, the clause starts with `\nwhere,\n    `, because the separator depends on the absolute index |
| `WhereClause.AdjacentBoundsMerge` | crates/hir/src/display.rs:484-492 | `T: A`, `T: B`, `U: C` render as `T: A + B` and then `U: C` |
| `WhereClause.NonAdjacentBoundsStaySeparate` | crates/hir/src/display.rs:476-492 | grouping looks only at the immediate predecessor: `T: A`, `U: B`, `T: C` give three groups |
| `Functions.AbiText` | crates/hir/src/display.rs:50-53 | the ABI part is empty exactly when there is no ABI; otherwise it is `extern "ABI" ` without escaping |
| `Functions.Qualifiers` | crates/hir/src/display.rs:38-49 | the qualifier keywords `default `, `const `, `async `, `unsafe `, each present exactly when its flag is set, in that order |
| `Functions.SelfParamText` | crates/hir/src/display.rs:124-147 | the receiver is `self` for `Self`, `&'a mut self` style for a reference to `Self`, and `self: T` with the written type otherwise |
| `Functions.RetTypeText` | crates/hir/src/display.rs:110-116 | ` -> T` is left out exactly when the effective return type is the unit tuple |
| `Functions.ParamTexts` | crates/hir/src/display.rs:69-81 | one `name: T` or `_: T` per parameter, in order |
| `Functions.WriteQualifiers` | crates/hir/src/display.rs:38-49 | the four qualifier keywords are written, each only when set, in the order `default const async unsafe` |
| `Functions.WriteHeader` | crates/hir/src/display.rs:37-54 | visibility, qualifiers, the ABI and `fn NAME` are written in that order |
| `Functions.WriteParam` | crates/hir/src/display.rs:76-80 | a parameter is written as `name: T`, or `_: T` when it has no plain binding |
| `Functions.WriteParams` | crates/hir/src/display.rs:60-81 | the loop over the parameters after the receiver extends the comma-joined list with each rendered parameter, in order |
| `Functions.WriteParamList` | crates/hir/src/display.rs:58-87 | the list is `(`, the receiver and the parameters joined by `", "`, then `, ...` for varargs, then `)` |
| `Functions.WriteRetType` | crates/hir/src/display.rs:110-116 | the writer produces exactly `RetTypeText` |
| `Functions.FormatFunction` | crates/hir/src/display.rs:26-122 | the signature is the header, the generic clause, the parameter list, the return type and the where clause, in that order |
| `Functions.QualifiersInjective` | crates/hir/src/display.rs:38-49 | equal qualifier texts mean equal qualifier flags, so the fixed order makes the text unambiguous |
| `Functions.SelfParamForms` | crates/hir/src/display.rs:124-147 | the receiver is `self: T` exactly when its type is neither `Self` nor a reference to `Self`; the shorthand forms end in `self` |
| `Functions.SelfReferenceForm` | crates/hir/src/display.rs:130-140 | a reference receiver is `&`, then the lifetime and a space if one is given, then `mut ` if mutable, then `self` |
| `Functions.ReceiverComesFirst` | crates/hir/src/display.rs:60-66 | with a receiver, the parameter list starts with `(` followed by the receiver |
| `Functions.ParameterEntriesInOrder` | crates/hir/src/display.rs:69-81 | every parameter after the receiver is listed at its own index, and the list has one entry per parameter |
| `Functions.VarargsWithoutParameters` | crates/hir/src/display.rs:83-85 | a variadic function with no parameters shows `(, ...)` |
| `Functions.PlainSignature` | crates/hir/src/display.rs:26-122 | a function with no qualifiers, ABI, generics or parameters that returns unit is shown as `visibility fn NAME()` |
| `Adts.FieldTexts` | crates/hir/src/display.rs:191-195 | one rendered struct or union field per field, in order, each with its resolved type |
| `Adts.VariantFieldTexts` | crates/hir/src/display.rs:283-293 | one `name: T` per record-variant field, in order |
| `Adts.FieldTypes` | crates/hir/src/display.rs:268-277 | one rendered type per field, in order, through the given renderer: the written types of a tuple variant, or with `Resolved()` the resolved types of a tuple struct |
| `Adts.VariantTexts` | crates/hir/src/display.rs:216-220 | one rendered variant per variant, in order |
| `Adts.WriteField` | crates/hir/src/display.rs:252-258 | a struct or union field is written as its visibility, `name: ` and its resolved type (`field.ty`, not the written type) |
| `Adts.WriteFieldLines` | crates/hir/src/display.rs:190-194 | the loop writes one `"    " + field + ",\n"` line per field, in order |
| `Adts.WriteVariantLines` | crates/hir/src/display.rs:216-220 | the loop writes one `"    " + variant + ",\n"` line per variant, in order |
| `Adts.WriteTupleStructTypes` | crates/hir/src/display.rs:170-178 | the peeking loop writes the fields' resolved types joined by `", "`, with no trailing separator |
| `Adts.WriteVariantTypes` | crates/hir/src/display.rs:268-277 | the `first`-flag loop writes the tuple-variant types joined by `", "` |
| `Adts.WriteVariantRecordFields` | crates/hir/src/display.rs:282-293 | the `first`-flag loop writes a space and then the fields joined by `", "`, or nothing when there are no fields |
| `Adts.FormatVariant` | crates/hir/src/display.rs:260-299 | the writer produces exactly `VariantText` |
| `Adts.WriteHead` | crates/hir/src/display.rs:161-165 | the head is visibility, keyword, name and generic clause |
| `Adts.WriteTupleFields` | crates/hir/src/display.rs:168-181 | a tuple struct writes `(`, its types, then `);`; other kinds write nothing here |
| `Adts.WriteRecordBody` | crates/hir/src/display.rs:185-197 | a record struct writes ` {}` when it has no fields, otherwise a block of field lines; other kinds write nothing |
| `Adts.FormatStruct` | crates/hir/src/display.rs:159-202 | the writer produces exactly `StructText` |
| `Adts.WriteFieldBlock` | crates/hir/src/display.rs:237-246 | nothing when there are no fields, otherwise ` {\n`, the field lines, then `}` |
| `Adts.FormatUnion` | crates/hir/src/display.rs:228-250 | the writer produces exactly `UnionText` |
| `Adts.FormatEnum` | crates/hir/src/display.rs:204-226 | the writer produces exactly `EnumText` |
| `Adts.FormatAdt` | crates/hir/src/display.rs:149-157 | each kind of ADT is written by its own writer |
| `Adts.LinesAppend` | crates/hir/src/display.rs:190-194 | the lines of a concatenation are the lines of each part |
| `Adts.LinesOfOne` | crates/hir/src/display.rs:191-193 | each item's line is four spaces, the item, a comma and a newline |
| `Adts.RecordStructBody` | crates/hir/src/display.rs:185-197 | a record struct without fields ends with ` {}`; with fields it ends with `,\n}` |
| `Adts.EmptyUnionHasNoBody` | crates/hir/src/display.rs:237-246 | a union without fields ends at its where clause, with no block |
| `Adts.EmptyEnumHasNoBody` | crates/hir/src/display.rs:213-222 | an enum without variants ends at its where clause, with no block |
| `Adts.StructBodyPlacement` | crates/hir/src/display.rs:167-197 | tuple fields come before the where clause, a record body after it, and a unit struct ends at the where clause |
| `Adts.VariantForms` | crates/hir/src/display.rs:262-296 | a unit variant is its name; a tuple variant is `name(T1, T2)`; a record variant is `name { a: T, b: U }`, or `name { }` when it has no fields |
| `Adts.FieldShowsVisibility` | crates/hir/src/display.rs:252-258 | a struct or union field is its variant form behind its visibility, with the type rendered by the resolved-type formatter (display.rs:256) instead of the written-type one (display.rs:291-292); only when the two renderings of the type agree is it the variant form itself |
| `Items.BoundTextsOf` | crates/hir/src/display.rs:617-620 | one rendered bound per declared bound, in order |
| `Items.ConstText` | crates/hir/src/display.rs:540-558 | a const is its visibility, `const `, its name or `_`, `: ` and its written type |
| `Items.StaticText` | crates/hir/src/display.rs:561-572 | a static is its visibility, `static `, `mut ` when mutable, its name, `: ` and its written type |
| `Items.TraitText` | crates/hir/src/display.rs:575-590 | a trait is its visibility, `unsafe ` and `auto ` when set, `trait NAME`, its generic clause and its where clause |
| `Items.TraitAliasText` | crates/hir/src/display.rs:593-606 | a trait alias is its visibility, `trait NAME`, its generic clause, ` = ` and its where clause |
| `Items.TypeAliasText` | crates/hir/src/display.rs:609-626 | a type alias is its visibility, `type NAME`, its generic clause, its where clause, `: ` and its bounds joined by ` + ` when it has any, and ` = T` when it has a type |
| `Items.ModuleText` | crates/hir/src/display.rs:629-641 | a module is `mod NAME`; an unnamed crate root is `extern crate` and its crate name or `{unknown}`; another unnamed module is `mod {unnamed}` |
| `Items.MacroText` | crates/hir/src/display.rs:643-652 | a macro is `macro`, `macro_rules!` or `proc_macro` by kind, a space and its name |
| `Items.ImportAliasText` | crates/hir/src/display.rs:313 | an import alias is shown as its name, or `_` for an underscore import |
| `Items.ExternCrateText` | crates/hir/src/display.rs:307-317 | an extern crate is its visibility, `extern crate NAME`, and ` as ALIAS` when renamed |
| `Items.ShowsBounds` | crates/hir/src/display.rs:341-357 | the bound list is shown unless compact mode is on, or every predicate is `Sized` and there is at least one |
| `Items.TypeParamText` | crates/hir/src/display.rs:338-362 | a type parameter is its name, followed by its bound list when that is shown |
| `Items.FormatTypeParam` | crates/hir/src/display.rs:338-362 | the writer takes compact mode from the formatter and produces exactly `TypeParamText` |
| `Items.ConstParamText` | crates/hir/src/display.rs:371-376 | a const parameter on its own is `const N: T` with the resolved type, never its default |
| `Items.GenericParamText` | crates/hir/src/display.rs:319-327 | a generic parameter is shown by the rule for its kind: type parameter, const parameter, or lifetime by name |
| `Items.UnnamedConstShowsUnderscore` | crates/hir/src/display.rs:551-555 | an unnamed const is shown exactly like one named `_` |
| `Items.MutableStaticInsertsMut` | crates/hir/src/display.rs:565-570 | a mutable static differs from the same static made immutable only by `mut ` after `static ` |
| `Items.TraitQualifiersInjective` | crates/hir/src/display.rs:579-585 | the `unsafe` and `auto` flags of a trait can be read back from the qualifier keywords followed by `trait ` |
| `Items.TraitAliasWithoutPredicatesEndsWithEquals` | crates/hir/src/display.rs:597-604 | a trait alias whose bounds are all hidden ends with ` = ` |
| `Items.TypeAliasWhereBeforeBounds` | crates/hir/src/display.rs:613-620 | the where clause of a type alias comes before its bounds: with both present, the clause's closing `,` is directly followed by `: ` |
| `Items.ModuleForms` | crates/hir/src/display.rs:629-641 | a module is shown as `mod ...` unless it is an unnamed crate root, which is shown as `extern crate ...` |
| `Items.MacroTextInjective` | crates/hir/src/display.rs:643-652 | the macro kind and name can be read back from the text |
| `Items.ExternCrateAlias` | crates/hir/src/display.rs:307-317 | a rename only appends ` as ALIAS`, and an underscore import appends ` as _` |
| `Items.TypeParamBoundsHiddenIff` | crates/hir/src/display.rs:338-363 | the bound list is hidden if and only if compact mode is on, or every predicate is `Sized` and there is at least one |
| `Items.SizedBoundImplied` | crates/hir/src/display.rs:352-360 | a lone `Sized` bound is left out; a list with another bound is shown |
| `Items.ConstParamIsEntryWithoutDefault` | crates/hir/src/display.rs:371-376 | a const parameter shown on its own is its generic-clause entry (display.rs:423-430) without the default, with the type rendered by the resolved-type formatter instead of the written-type one; only when the two renderings agree is it the entry itself |
| `Items.GenericParamDispatch` | crates/hir/src/display.rs:319-327 | each kind of generic parameter is shown by its own rule: lifetimes by name, consts starting with `const `, type parameters starting with their name |

## Left out

- Database queries (`function_data`, `generic_params`, `generic_predicates_for_param`, `lang_item`, `krate`, ...) are not modelled. Their results are the input records in `hir.dfy`.
- `write_visibility` and the hoisting of block-local impl items to `nearest_non_block_module` are not modelled. Every visibility is an opaque string that is written first.
- Rendering of type expressions, trait bounds and bound lists (`TypeRef::hir_fmt`, `Ty::hir_fmt`, `write_bounds_like_dyn_trait_with_prefix`, `write_joined`) is not modelled. It is the leaf formatters in `Renderer`: `ty` for a type as written, `resolvedTy` for the resolved type of a struct or union field (display.rs:174, 256) and of a const parameter (display.rs:374), and `bound` for a bound. A type parameter's rendered bound list is an input string.
- The unwrapping of an async function's `impl Future<Output = T>` return type, and its panics, are not modelled, because they depend on path internals of `TypeRef`. `FunctionData.retType` is the effective return type.
- The substitution of a type parameter's predicates and the lookup of the `Sized` lang item are reduced to a flag on each predicate saying whether it is an implementation of `Sized`.
- Name display and escaping are not modelled. Names and import aliases are plain strings, and the ABI string is written without escaping.
- Formatter write errors are not modelled. Every write succeeds, so the `?` propagation has nothing to carry.
- `TypeOrConstParam` (display.rs:329-336) is not modelled separately. It sends a type parameter or a const parameter to the same rules that `GenericParamText` applies.
- `Type` (display.rs:301-305) delegates to the resolved-type formatter, which is the `Renderer`'s `resolvedTy`.
- The fixed-token declarations (const, static, trait, trait alias, type alias, module, macro, extern crate, const and lifetime parameters on their own) are modelled as pure functions, not as writers, because they are straight-line sequences of writes with no loop or flag. Only the type parameter, which reads compact mode from the formatter, also has a writer.
- `Functions.AbiText` does not model escaping of the ABI string. The source does not escape it either, and marks this with a FIXME.
- Inputs on which the source panics are excluded by two preconditions. `GenericParams.Valid()` requires every parameter index in a where predicate to point into the list's own arena; the source indexes the arena without a check (display.rs:447, 465) and would panic otherwise. `FunctionData.Valid()` requires a function with a receiver to have at least one parameter; the source calls `unwrap` on the first parameter (display.rs:127) and would panic otherwise. Both hold for anything the front end produces.
