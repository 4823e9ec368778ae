# substruct in Dafny

A model of `substruct`, a Rust attribute macro. Written above a struct with
named fields, `#[sub_struct(name = "N", remove = [...])]` or
`#[sub_struct(name = "N", retain = [...])]` emits the struct unchanged and then
a second struct `N`. That struct has only the fields left after removing the
listed ones, or only the listed ones. The macro has two parts:

- **the argument parser** (`parse_sub_struct_args`). It walks the `key = value`
  arguments in order and fails on the first malformed or unknown one. A
  repeated `name` overwrites the earlier one. A repeated `remove` or `retain`
  pushes more names onto the same list. At the end it checks, in this order,
  that a non-empty name was given and that exactly one of the two lists is
  non-empty.
- **the struct synthesizer** (the body of `sub_struct`). It accepts only a
  struct with named fields. It reports every listed name that is not a field
  identifier, all in one error. It keeps the fields in declaration order and
  copies attributes, visibility, generics, the `struct` token and the
  semicolon from the original.

Files:

- `syntax.dfy` (module `Syntax`): the already-parsed input. This covers
  literals, expressions, `key = value` arguments, fields, struct bodies and
  items. Syntax that is only copied is an opaque token sequence.
- `args.dfy` (module `SubStructArgs`): the parser. `ParseSpec` specifies it
  declaratively: the first faulty argument, the last `name`, the concatenated
  lists, and the final decision `Decide`. `ParseSubStructArgs` is the loop of
  `parse_sub_struct_args`, with its pushes and early returns. Its invariant is `Scan`, the loop
  state after a prefix of the arguments, and it is proved to compute
  `ParseSpec`.
- `fields.dfy` (module `FieldSelection`): the field-existence loop
  (`CollectUnrecognized`, proved against `Unrecognized`) and the field filter
  (`Select`/`KeepFields`), with their lemmas.
- `sub_struct.dfy` (module `SubStruct`): the whole macro. `Expand` is the
  specification and `SubStructMacro` is the procedure with its early returns.
  The module also holds the lemmas about the whole transform.
- `address_example.dfy` (modules `AddressData`, `AddressExample`): the
  repository's usage example, an `Address` struct, worked out on the model.
- `seqs.dfy` (module `SeqFacts`): the subsequence relation and list
  associativity.

A repeated `remove` or `retain` pushes onto the same list (src/lib.rs:202,
230), so the lists are concatenated (`CollectedAppend`).

## Model

| member | source | states |
|---|---|---|
| SubStructArgs.FirstElemFault | src/lib.rs:198-213 | an array is rejected exactly when some element is not a string literal, and the error is that of the first such element |
| SubStructArgs.ArgFaultOf | src/lib.rs:175-259 | an argument is sound exactly when it is `name` with a string literal, or `remove`/`retain` with an array of string literals only; the unknown-key error is raised exactly for any other key |
| SubStructArgs.FirstBad | src/lib.rs:174-259 | no argument is rejected exactly when every argument is well formed; otherwise the reported position is a faulty argument preceded only by sound ones |
| SubStructArgs.StrValues | src/lib.rs:198-203 | an array of string literals contributes exactly its strings, in order |
| SubStructArgs.Decide | src/lib.rs:262-291 | an empty name gives "name required" whatever the lists; with a name, both or neither list non-empty gives the one-strategy error; otherwise the result has that name and Remove or Retain of the non-empty list |
| SubStructArgs.ParseSpec | src/lib.rs:167-292 | the parser's outcome: a per-argument error exactly when some argument is faulty, naming the first faulty one and its fault; a success always has a non-empty name and a non-empty list |
| SubStructArgs.PushStrings | src/lib.rs:196-215 | pushing an array's elements appends all its strings, or fails with the first bad element's error |
| SubStructArgs.FirstBadAt | src/lib.rs:174-259 | a faulty argument preceded only by sound ones is the first fault, with its position |
| SubStructArgs.FirstFaultDecides | src/lib.rs:174-259 | a faulty argument preceded only by sound ones decides the parse as that argument's error |
| SubStructArgs.FirstBadSnoc | src/lib.rs:174-259 | reading one more argument keeps an earlier fault as the first; otherwise the new argument's fault, if any, becomes the first |
| SubStructArgs.ApplyArg | src/lib.rs:175-259 | one loop iteration: a faulty argument gives its fault; a sound one sets the name (a `name` string) or appends its strings to its own list, leaving the rest unchanged |
| SubStructArgs.ScanMatches | src/lib.rs:170-260 | the loop state after reading the arguments in order is the first fault if there is one, else the last name and the two concatenated lists |
| SubStructArgs.ScanStops | src/lib.rs:174-259 | once an argument has stopped the loop, later arguments do not change its outcome |
| SubStructArgs.ParseIsScan | src/lib.rs:167-292 | the parse is the loop's outcome: its fault as an argument error, else the final decision on the name and lists it read |
| SubStructArgs.ParseSubStructArgs | src/lib.rs:167-292 | the loop with its early returns computes `ParseSpec`: the first faulty argument's error, else the decision on the last name and the concatenated lists |
| SubStructArgs.NameCheckedFirst | src/lib.rs:262-291 | with sound arguments and no non-empty name, the result is the missing-name error whatever `remove`/`retain` hold |
| SubStructArgs.LastNameEmpty | src/lib.rs:170-179 | with no non-empty `name` argument the name stays empty |
| SubStructArgs.LastNameIsLast | src/lib.rs:174-179 | the name is the string of the last well-formed `name` argument (last write wins) |
| SubStructArgs.CollectedAppend | src/lib.rs:195-250 | the list collected from two runs of arguments is the concatenation of their lists (repeated keys append) |
| SubStructArgs.CollectedSnoc | src/lib.rs:198-203 | one more argument appends its strings to the list |
| SubStructArgs.CollectedSingle | src/lib.rs:197-203 | a single `remove`/`retain` argument contributes exactly the strings of its array |
| SubStructArgs.LastNameSkip | src/lib.rs:174-179 | an argument that is not a `name` string does not change the name |
| SubStructArgs.InsertSound | src/lib.rs:174-259 | inserting a well-formed argument among well-formed ones leaves every argument well formed |
| SubStructArgs.CollectedSkip | src/lib.rs:195-250 | an argument that pushes nothing onto a list leaves that list unchanged wherever it sits |
| SubStructArgs.EmptyListIsNotSupplied | src/lib.rs:263-285 | among sound arguments, `remove = []` or `retain = []` gives the same result as leaving the key out |
| SubStructArgs.FailFast | src/lib.rs:174-259 | arguments after the first faulty one do not change the result |
| SubStructArgs.StrArrayArg | src/lib.rs:195-250 | a `remove`/`retain` array of string literals is sound, is not a name, and contributes exactly its strings to its own list and none to the other |
| SubStructArgs.ParseUsage | src/lib.rs:167-292 | `name = "N", remove = [..]` (or `retain`) with a non-empty name and list parses to N and that strategy over exactly those names |
| SubStructArgs.ParseOk | src/lib.rs:262-291 | a successful parse has only sound arguments, the last name (non-empty), and the non-empty one of the two concatenated lists |
| FieldSelection.HasField | src/lib.rs:35-38 | a name matches exactly when some field identifier equals it |
| FieldSelection.Unrecognized | src/lib.rs:34-42 | the unmatched names are a subsequence of the list, and every listed name that matches no field is kept with all its repetitions; no other name is kept |
| FieldSelection.UnrecognizedSnoc | src/lib.rs:34-42 | checking one more name appends it to the unmatched names exactly when it matches no field |
| FieldSelection.CollectUnrecognized | src/lib.rs:28-68 | the loop that pushes unmatched names computes exactly `Unrecognized` |
| FieldSelection.AllRecognized | src/lib.rs:44-56 | no error is raised exactly when every listed name is a field identifier |
| FieldSelection.Select | src/lib.rs:88-102 | the new fields are a subsequence of the original fields, and a field occurs in it exactly as often as in the original if it passes the remove/retain test, otherwise not at all |
| FieldSelection.SelectCons | src/lib.rs:88-102 | the first field is kept or dropped on its own, ahead of the selection of the rest |
| FieldSelection.SelectAppend | src/lib.rs:88-102 | filtering is field by field and distributes over concatenation |
| FieldSelection.SelectAll | src/lib.rs:88-102 | when every field passes the test, the whole field list is kept unchanged |
| FieldSelection.KeepFields | src/lib.rs:89-102 | the fields of the new struct are an order-preserving subsequence of the original fields, holding exactly the fields whose identifier is listed (Retain) or not listed (Remove) |
| FieldSelection.SelectByComplement | src/lib.rs:88-102 | retaining by F and removing by G agree when, on every field, G lists exactly what F does not |
| FieldSelection.SelectSameNames | src/lib.rs:93-99 | only the set of listed names matters; their order and repetitions never change the new fields |
| FieldSelection.SelectPartition | src/lib.rs:88-102 | each field lands in exactly one of the retain and remove selections: together they hold every field exactly as often as the original list, so their lengths add up to the field count |
| FieldSelection.ComplementNames | src/lib.rs:88-102 | the complement names are exactly the field identifiers not listed |
| FieldSelection.RetainRemoveDuality | src/lib.rs:88-102 | retaining F keeps the same fields as removing all other field names, and those names all exist |
| FieldSelection.Join | src/lib.rs:45 | `join(", ")` yields "" for no names, otherwise all the names plus one separator fewer than there are names |
| FieldSelection.JoinContains | src/lib.rs:45 | every unrecognized name occurs in the comma-joined list |
| SubStruct.InvalidFieldsMessage | src/lib.rs:49-52 | the invalid-fields text: the fixed lead-in, then the key of the strategy in effect (`remove` as at lines 49-52, `retain` as at lines 75-78), then the joined names |
| SubStruct.InvalidFieldsMessageMentions | src/lib.rs:44-56 | the invalid-fields diagnostic contains every unrecognized name |
| SubStruct.Assemble | src/lib.rs:110-122 | the generated struct is a named-field struct with the configured name and the selected fields, with attrs, vis, generics, `struct` token and semicolon copied from the original |
| SubStruct.Synthesize | src/lib.rs:24-144 | non-struct or non-named shapes give the shape error; otherwise an error exactly when some listed name is not a field, listing all such names for the strategy in effect; otherwise a struct with the new name, the copied attrs/vis/generics/tokens and the filtered fields |
| SubStruct.Expand | src/lib.rs:13-152 | the macro's outcome: success exactly when the arguments parse, the item has named fields and every listed name is a field; a success is two items, the original first; a struct error only after a successful parse |
| SubStruct.SubStructMacro | src/lib.rs:13-152 | the procedure with its early returns computes `Expand`: argument errors, then struct errors, else original followed by the new struct |
| SubStruct.ExpandValid | src/lib.rs:110-149 | sound arguments whose names all exist give the original followed by the assembled struct |
| SubStruct.ArgumentErrorsFirst | src/lib.rs:19-22 | an argument error is reported whatever the item is |
| SubStruct.UnsupportedShapes | src/lib.rs:126-143 | an enum, union, tuple or unit struct yields the shape error and no generated struct |
| SubStruct.ExpandOk | src/lib.rs:110-149 | a success is exactly two items, the unchanged original then a struct with the configured name, copied attrs/vis/generics, and fields that are an order-preserving subset chosen by the strategy |
| SubStruct.InvalidFieldsReported | src/lib.rs:28-83 | when a listed name is missing, the error lists all missing names in listing order for the strategy in effect, and only them |
| SubStruct.RetainEqualsRemoveComplement | src/lib.rs:88-102 | retaining F yields the same generated struct as removing every other field name |
| SubStruct.ListingOrderIrrelevant | src/lib.rs:88-102 | listing the same names in another order or with repeats changes neither success nor the generated struct |
| AddressExample.SelectMiddle | src/lib.rs:88-102 | a selection that rejects only the first and last field keeps the middle unchanged |
| AddressExample.AddressRemoveSelection | tests/01-structs.rs:3-14 | removing `id` and `created` keeps `country, state, city, street, line_1, line_2` |
| AddressExample.AddressRetainSelection | tests/01-structs.rs:3-14 | retaining those six names keeps the same six fields |
| AddressExample.NamesAt | src/lib.rs:34-42 | names found at given field positions are all recognized |
| AddressExample.ListedAreIdents | src/lib.rs:34-42 | names that are the identifiers of consecutive fields are all recognized |
| AddressExample.SingleUnrecognized | src/lib.rs:34-42 | a single name equal to no field identifier matches no field and is reported alone |
| AddressExample.AddressRetainNamesExist | tests/01-structs.rs:3-14 | the six retained names are all fields of `Address` |
| AddressExample.AddressLacksNonexistent | src/lib.rs:34-42 | `nonexistent_field` is no field of `Address` and is the only unmatched name of `["nonexistent_field"]` |
| AddressExample.AddressRemoveExample | tests/01-structs.rs:3-14 | the usage example expands to `Address` unchanged followed by `CreateAddressParams` with six fields |
| AddressExample.AddressRetainExample | tests/01-structs.rs:3-14 | the equivalent `retain` form expands to the same two items |
| AddressExample.NonexistentFieldExample | src/lib.rs:44-56 | `remove = ["nonexistent_field"]` gives the invalid-fields error naming it, and no struct |

## Left out

- Token streams: `parse_macro_input!`, `quote!`, `TokenStream` conversion and
  `to_compile_error` are not modelled. The input arrives as `Syntax`
  datatypes and the output is a `Result`.
- Spans: where a diagnostic points is not modelled. A per-argument error
  carries the argument's position instead.
- Diagnostic wording is modelled as error categories. The model does not
  keep the copy-paste quirks: a `retain` error that says "remove", or an
  unknown-key message that lists only name and remove. The invalid-fields
  text is kept (`InvalidFieldsMessage`) because it carries the list of names.
- Panics inside foreign calls are not modelled. `Ident::new` panics when the
  configured name is not a valid identifier. `get_ident().unwrap()` panics on
  a multi-segment key path. Keys are modelled as single identifiers, and the
  name is taken as given.
- Copied syntax is opaque. This covers attributes, visibility, generics,
  field types and the `struct`/`;` tokens. They are compared only for
  equality.
- The `Iterator::any` closure inside the existence check is modelled by the
  function `HasField`, not by a loop of its own.
