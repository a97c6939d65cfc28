# A model of the sped-extractor Odoo generator

`spedextractor/gen_odoo.py` turns the register and field tables of the
Brazilian SPED fiscal layouts into Odoo model sources. For each module it
works through these steps:

- It drops the `C` block for the accounting modules and sorts the registers
  into layout order: block 0, then the letter blocks, then block 1, then block 9.
- It links every register to its parent and children.
- It walks the sorted registers. Block registers are skipped. The walk
  stops at block 9.
- For every register it keeps:
  - it writes a concrete model;
  - it writes a block menu when the block changes, and an action and menu
    item for a level-2 register;
  - it builds a class from the register's fields. It first makes the field
    codes unique and then infers an XML Schema type for each field;
  - it writes two access-control lines.

During rendering, two hooks also run:

- a decimal field gets a `TDec_16dd` type name, for a scale `dd` below 100;
- `_extract_number_attrs` turns that name back into an Odoo `digits` precision,
  or a currency field for amounts of scale 2.

The Dafny model follows this structure:

- `text.dfy`: module `Wrappers`, and module `Text`. `Text` holds the parts of
  Python's string semantics that the generator relies on: `strip`, slicing
  with clamped bounds, `int()`, `str()` of a natural number, string `<` and
  `startswith`.
- `registers.dfy`: `collect_register_children`. This is an imperative double
  loop, written as a method over the register list. Its result is a `Hierarchy`:
  - the `parent` and `o2m_parent` links, as maps between positions;
  - the two child lists of every register of level > 1.

  The method is proved against a direct description of what the scan collects.
  Under unique codes, that description is shown to be the layout's nesting.
- `layout.dfy`: the module filter, the `_get_alphanum_sequence` sort key,
  and the stable sort, written as an insertion sort. It also proves facts
  about the sorted order: block 9 comes last and each block is contiguous.
- `fields.dfy`: the loop that de-duplicates field codes, written as a method
  proved against the function `Dedup`, with its properties. It also holds the
  type-inference chain, with `required` becoming `min_occurs`, and the loop
  that builds the attributes.
- `numbers.dfy`: the `TDec_` type name and its round trip through the slices
  `_extract_number_attrs` reads. The hook itself is a class `FieldKwargs`
  whose method updates the keyword map in place. The file also holds
  `odoo_inherit_model`.
- `generator.dfy`: the per-module register loop of `main`. It is a method
  proved against the function `Generate`. Lemmas state which registers are
  emitted and what the loop writes for each one: its class, its concrete
  model, its two access lines, its block's menu and, at level 2, its action
  and menu item.

## Model

Some functions define an operation of the source and state only its size
in their own contract. The rows of the lemmas about them say what they
compute:

- `Fields.RegisterFields`: the register's fields, lines 409-411.
- `Fields.Dedup`: the de-duplicated field list, lines 407-417.
- `Fields.FieldAttrs`: the attributes of the fields, lines 419-481.
- `Numbers.NumberAttrsEffect`: the decision of `_extract_number_attrs`,
  lines 219-240.
- `Generator.Step`: one pass of the loop body, lines 331-555.
- `Generator.EmitUpTo`: the loop after its first `n` registers.
- `Generator.Generate`: the loop up to the register that stops it.

| member | source | states |
|---|---|---|
| Text.TrimStartSpec | spedextractor/gen_odoo.py:47 | `lstrip` removes exactly a leading run of Python white space |
| Text.TrimEndSpec | spedextractor/gen_odoo.py:47 | `rstrip` removes exactly a trailing run of Python white space |
| Text.StripNoSpace | spedextractor/gen_odoo.py:47 | a child's `card` without white space strips to itself, so `1:1` and `1;1` compare as written |
| Text.PySlice | spedextractor/gen_odoo.py:226-233 | a Python slice is no longer than its bounds allow and is the plain subsequence when the bounds fit |
| Text.DecimalString | spedextractor/gen_odoo.py:209-212 | `str(n)` is a non-empty run of digits without a leading zero, of length 1 iff n < 10, denoting n |
| Text.PyIntDigits | spedextractor/gen_odoo.py:208-233 | `int()` of a run of digits is the number it denotes |
| Text.PyIntDecimalString | spedextractor/gen_odoo.py:208-212 | `int(str(n)) == n` |
| Text.PyIntTwoDigits | spedextractor/gen_odoo.py:226-233 | `int()` of two digits is ten times the first plus the second |
| Text.LexLessIrreflexive | spedextractor/gen_odoo.py:317-326 | no string sorts below itself |
| Text.LexLessAsymmetric | spedextractor/gen_odoo.py:317-326 | two strings never sort below each other |
| Text.LexLessTrichotomy | spedextractor/gen_odoo.py:317-326 | string order is total |
| Registers.FirstWithCode | spedextractor/gen_odoo.py:42-44 | the first position from `from` with a given code, and no earlier one has it |
| Registers.ScanEnd | spedextractor/gen_odoo.py:45-53 | where the scan breaks: the first later register with another code whose level is not deeper |
| Registers.ScanStart | spedextractor/gen_odoo.py:42-44 | the scan starts at the first register carrying the collector's code, at or before the collector |
| Registers.ScanChildren | spedextractor/gen_odoo.py:36-54 | the inner loop returns exactly the collected to-many children and the collected to-one (`1:1`/`1;1`) children, in layout order |
| Registers.ScanCollects | spedextractor/gen_odoo.py:45-52 | the two lists together hold exactly the registers the scan collects |
| Registers.ChildrenSkip | spedextractor/gen_odoo.py:35-36 | a register of level 0 or 1 records no child lists |
| Registers.ParentsSkip | spedextractor/gen_odoo.py:35-36 | a register of level 0 or 1 sets no parent links |
| Registers.ChildMapStep | spedextractor/gen_odoo.py:55-56 | recording a collector's list keeps each map holding exactly the lists of the collectors so far |
| Registers.ChildrenStep | spedextractor/gen_odoo.py:55-56 | one more collector keeps both child maps exact |
| Registers.LinksIdle | spedextractor/gen_odoo.py:52 | a collector that collects nothing leaves the links unchanged |
| Registers.LinksStep | spedextractor/gen_odoo.py:52 | each collected register's link is overwritten to name the current collector, so the last collector wins |
| Registers.ParentsStep | spedextractor/gen_odoo.py:52 | one more collector keeps the `parent` links equal to each register's last collector |
| Registers.O2mParentsStep | spedextractor/gen_odoo.py:46-51 | after each collector, a register has an `o2m_parent` iff its parent link is to a to-many child, and the two links agree |
| Registers.CollectRegisterChildren | spedextractor/gen_odoo.py:33-56 | the whole pass leaves every level > 1 register's two child lists, and `parent`/`o2m_parent` links naming each register's last collector |
| Registers.ScanStartsAtCollector | spedextractor/gen_odoo.py:42-44 | with unique codes the scan starts at the collector itself |
| Registers.ChildrenFollowCollector | spedextractor/gen_odoo.py:45-53 | with unique codes a child comes after its collector, one level deeper, with only deeper registers between them |
| Registers.CollectorIsUnique | spedextractor/gen_odoo.py:45-53 | with unique codes no register is collected twice |
| Registers.NearestShallower | spedextractor/gen_odoo.py:45-53 | the last earlier position with a smaller level, and none after it |
| Registers.CollectsIffEnclosing | spedextractor/gen_odoo.py:33-56 | with unique codes, p collects j iff p is the register enclosing j, one level up and at level > 1 |
| Registers.ParentLinksMatchChildLists | spedextractor/gen_odoo.py:46-56 | with unique codes, `parent[j] == p` iff j is in one of p's child lists, and `o2m_parent[j] == p` iff j is in p's to-many list |
| Registers.ParentIsEnclosing | spedextractor/gen_odoo.py:33-56 | with unique codes a register has a parent iff its enclosing register is one level up at level > 1, and the parent is that register |
| Registers.DuplicateCodeCollectsEarlier | spedextractor/gen_odoo.py:42-44 | with a repeated code, the second register collects a register that comes before it |
| Layout.AlphanumSequence | spedextractor/gen_odoo.py:59-72 | the key is the code behind a single prefix character |
| Layout.BlockRank | spedextractor/gen_odoo.py:64-72 | the prefix's rank, the highest exactly for block 9 |
| Layout.SortKeyOrder | spedextractor/gen_odoo.py:59-72 | keys compare by block rank first and by code second |
| Layout.ModuleRegisters | spedextractor/gen_odoo.py:319-323 | the filtered list has only registers with a code and is no longer than its input |
| Layout.ModuleRegistersMembers | spedextractor/gen_odoo.py:319-323 | the filter keeps exactly the registers outside block `C`, or all of them for modules other than `ecd` and `ecf` |
| Layout.ModuleRegistersAppend | spedextractor/gen_odoo.py:319-323 | filtering a concatenation concatenates the filtered parts, so the kept registers stay in input order |
| Layout.ModuleRegistersSingle | spedextractor/gen_odoo.py:319-323 | a single register is kept iff the module keeps it, so each kept register appears as often as in the input |
| Layout.InsertionPoint | spedextractor/gen_odoo.py:324-325 | the insertion point is the first position whose key is not below the new register's key: every key before it is below, the one at it is not |
| Layout.Insert | spedextractor/gen_odoo.py:318-325 | insertion adds exactly the new register, a permutation of the input plus it, and keeps every register coded |
| Layout.Splice | spedextractor/gen_odoo.py:318-325 | the new register sits at the given position, with the part before it and the part after it unchanged |
| Layout.InsertSorted | spedextractor/gen_odoo.py:317-326 | insertion keeps a list sorted by key |
| Layout.SortByLayout | spedextractor/gen_odoo.py:317-326 | the sort returns a permutation of its input, sorted by `_get_alphanum_sequence` |
| Layout.WithCodeAppend | spedextractor/gen_odoo.py:318-325 | the registers with one code, taken from a concatenation, are those of each part concatenated |
| Layout.WithCodeNone | spedextractor/gen_odoo.py:318-325 | a list without a code holds no register with it |
| Layout.WithCodeSplice | spedextractor/gen_odoo.py:318-325 | putting a register into a list where no earlier register has its code puts it first among the registers of that code, and changes no other code's order |
| Layout.InsertWithCode | spedextractor/gen_odoo.py:324-325 | insertion puts the new register ahead of every register with the same code, because equal keys are never passed |
| Layout.SortByLayoutStable | spedextractor/gen_odoo.py:318-325 | the sort is stable: for every code, the registers with that code come out in their input order |
| Layout.PrepareRegisters | spedextractor/gen_odoo.py:317-326 | the registers visited are sorted, and as a multiset are exactly the registers the filter keeps from the input |
| Layout.SortedRanks | spedextractor/gen_odoo.py:317-326 | in the sorted list block ranks never decrease |
| Layout.Block9IsLast | spedextractor/gen_odoo.py:317-338 | in the sorted list everything after a block-9 register is in block 9 |
| Layout.SortedWeights | spedextractor/gen_odoo.py:317-326 | in the sorted list rank and block character never decrease together |
| Layout.BlockWeightBlock | spedextractor/gen_odoo.py:59-72 | two registers share a weight iff they share a block |
| Layout.SortedBlocksContiguous | spedextractor/gen_odoo.py:317-326 | in the sorted list every block is contiguous |
| Fields.RegisterFields | spedextractor/gen_odoo.py:409-411 | the filter returns no more fields than the table holds |
| Fields.RegisterFieldsMembers | spedextractor/gen_odoo.py:409-411 | a register's fields are exactly the table's fields that name it |
| Fields.RegisterFieldsAppend | spedextractor/gen_odoo.py:409-411 | the filter of a concatenated table is the concatenation of the filters, so a register's fields keep table order |
| Fields.RegisterFieldsSingle | spedextractor/gen_odoo.py:409-411 | a single field is kept iff it names the register, so each kept field appears as often as in the table |
| Fields.Dedup | spedextractor/gen_odoo.py:407-417 | de-duplication returns one field for each input field |
| Fields.Renamed | spedextractor/gen_odoo.py:415 | renaming changes the code and nothing else |
| Fields.CodesAppend | spedextractor/gen_odoo.py:412-416 | adding a field adds its code to the seen codes |
| Fields.DedupFieldCodes | spedextractor/gen_odoo.py:407-417 | the loop returns the de-duplicated fields, and its seen set is their set of codes |
| Fields.DedupPrefix | spedextractor/gen_odoo.py:407-417 | the output so far depends only on the input so far |
| Fields.DedupAt | spedextractor/gen_odoo.py:412-417 | each field is renamed iff its code is among the output codes before it |
| Fields.DedupShape | spedextractor/gen_odoo.py:407-417 | output field k is input field k, either kept or renamed, with nothing but the code changed |
| Fields.OriginalCodeSeen | spedextractor/gen_odoo.py:412-416 | after a field is processed its original code is among the seen codes |
| Fields.LaterDuplicateRenamed | spedextractor/gen_odoo.py:412-416 | a field whose code occurred earlier in the register is renamed |
| Fields.FirstOccurrenceKept | spedextractor/gen_odoo.py:412-413 | without clashes, a code's first occurrence is kept |
| Fields.DedupRenamesDuplicates | spedextractor/gen_odoo.py:412-416 | without clashes, a field is renamed iff its code occurred earlier |
| Fields.DedupCodesDistinct | spedextractor/gen_odoo.py:407-417 | without clashes, the output codes are pairwise distinct |
| Fields.DedupCanCollide | spedextractor/gen_odoo.py:412-416 | with a clash (`A`, `A_INDEX_3`, `A` at index 3) two output codes coincide |
| Fields.DefaultedType | spedextractor/gen_odoo.py:422-423 | a missing or empty `type` becomes `char`, a present one is kept, and the result is `char` exactly when the column is empty or `char` |
| Fields.InferKind | spedextractor/gen_odoo.py:431-472 | date iff the code has a date prefix; integer iff not a date and `int`, or `float` of scale 0; float iff not a date and a `float` of another or no scale; string iff not a date and neither `int` nor `float` |
| Fields.DatatypeCode | spedextractor/gen_odoo.py:431-465 | each XML Schema type has its own xsdata datatype code: `date`, `integer`, `float` or `string`, and each code belongs to exactly one type |
| Fields.InferAttr | spedextractor/gen_odoo.py:419-481 | `REG` gets no attribute; every other field gets one named by its code and index, with `min_occurs` 1 iff required, else 0 |
| Fields.FieldAttrsFrom | spedextractor/gen_odoo.py:419-481 | the attributes are exactly the attributes of the non-`REG` fields |
| Fields.FieldAttrNamesDistinct | spedextractor/gen_odoo.py:419-481 | fields with distinct codes give attributes with distinct names |
| Fields.BuildAttrs | spedextractor/gen_odoo.py:419-481 | the attribute loop returns the attributes of the fields, in order |
| Numbers.TDecTypeName | spedextractor/gen_odoo.py:209-212 | the name is `TDec_16` followed by the scale as two decimal digits, tens then units, for every scale below 100, and starts with `TDec_16` for every scale |
| Numbers.DecimalStringTwoDigits | spedextractor/gen_odoo.py:211-212 | a two-digit scale is written with two characters |
| Numbers.TDecPrecisionSlice | spedextractor/gen_odoo.py:232 | slice `[5:7]` of the name reads as 16 |
| Numbers.TDecScaleSlice | spedextractor/gen_odoo.py:226-233 | slice `[7:9]` of the name reads as the scale |
| Numbers.TDecRoundTrip | spedextractor/gen_odoo.py:203-240 | for a scale below 100, `_extract_number_attrs` reads back precision 16 and the scale that `_extract_field_attributes` wrote |
| Numbers.TDecWideScaleTruncated | spedextractor/gen_odoo.py:209-234 | a scale of 100 reads back as 10 |
| Numbers.FieldXsdType | spedextractor/gen_odoo.py:191-212 | a float field with a scale gets the `TDec_` name of that scale, whose slices `[5:7]` and `[7:9]` read back as 16 and the scale when it is below 100; every other field keeps its own `xsd_type` column |
| Numbers.NumberAttrsRules | spedextractor/gen_odoo.py:219-240 | non-numeric types are untouched; currency iff a numeric amount field without `TDec_` or with scale 2; digits iff numeric, `TDec_`, both slices integers and not a scale-2 amount, with those integers; a `ValueError` exactly when a needed slice is not an integer |
| Numbers.ApplyEffect | spedextractor/gen_odoo.py:227-240 | only `digits` or `currency_field` change, to the decided value; every other key is kept |
| Numbers.NeverBoth | spedextractor/gen_odoo.py:219-240 | a call never sets both `digits` and `currency_field` |
| Numbers.FieldKwargs.constructor | spedextractor/gen_odoo.py:219 | the keyword map starts as given |
| Numbers.FieldKwargs.ExtractNumberAttrs | spedextractor/gen_odoo.py:219-240 | raises iff the decision is a `ValueError`, and otherwise updates the map in place as decided |
| Numbers.SimpleTypeKwargs | spedextractor/gen_odoo.py:189-212 | the keyword map handed to the number rules holds the field's `xsd_type` and neither `digits` nor `currency_field` |
| Numbers.FloatFieldPrecision | spedextractor/gen_odoo.py:203-240 | a float field with a scale d below 100 gets digits (16, d), except a scale-2 amount field, which gets the currency field |
| Numbers.InheritModel | spedextractor/gen_odoo.py:141-145 | a class name containing `0000` inherits the declaration model and every other one the module mixin; for a register class `Registro` plus four characters, the declaration model exactly when the code is `0000` |
| Numbers.RegisterNameContains | spedextractor/gen_odoo.py:142 | `Registro` followed by a four-character code contains `0000` iff the code is `0000` |
| Generator.EmissionEnd | spedextractor/gen_odoo.py:331-338 | the loop stops at the first register that is neither skipped nor before block 9, and at no earlier one |
| Generator.HierarchyWellFormed | spedextractor/gen_odoo.py:33-56 | every link and child list names only registers of the layout |
| Generator.ParentsInLayout | spedextractor/gen_odoo.py:52 | every parent link names a register of the layout |
| Generator.ChildrenInLayout | spedextractor/gen_odoo.py:55-56 | every child list names only registers of the layout |
| Generator.ChildListInLayout | spedextractor/gen_odoo.py:45-53 | a child list names only registers of the layout |
| Generator.ParentLink | spedextractor/gen_odoo.py:510-523 | a class has a parent link iff its register has a parent, and the link targets the parent's class |
| Generator.ChildLinks | spedextractor/gen_odoo.py:525-541 | one link per child, in order, each targeting that child's class |
| Generator.ChildrenOf | spedextractor/gen_odoo.py:525-527 | the linked children are registers of the layout: the to-one list first, then the to-many list, each in its own order |
| Generator.ClassFor | spedextractor/gen_odoo.py:397-552 | the class of a register is named `Registro<code>` |
| Generator.RegisterClass | spedextractor/gen_odoo.py:397-552 | the class is the register's de-duplicated field attributes, then the parent link, then the child links |
| Generator.EmitRegister | spedextractor/gen_odoo.py:340-555 | one emitted register adds exactly the loop step's outputs and its class |
| Generator.BuiltSkip | spedextractor/gen_odoo.py:331-333 | a skipped register changes nothing |
| Generator.VisitRegister | spedextractor/gen_odoo.py:340-555 | one pass of the loop body extends the state by one step and by the register's class |
| Generator.EmitRegisters | spedextractor/gen_odoo.py:331-555 | the loop's outputs are `Generate`, and its classes are those of the emitted registers, in order |
| Generator.EmittedBeforeSkip | spedextractor/gen_odoo.py:331-333 | a skipped register is not emitted |
| Generator.EmittedBeforeEmit | spedextractor/gen_odoo.py:331-555 | a register that is not skipped is appended to the emitted list |
| Generator.StepKeepsEmitted | spedextractor/gen_odoo.py:331-555 | each step keeps the emitted list exactly the registers so far that are not skipped |
| Generator.EmittedRegisters | spedextractor/gen_odoo.py:331-555 | after any prefix, the emitted list is increasing and holds exactly the registers that are not skipped, each of level >= 2 or `0000` |
| Generator.ClassesOf | spedextractor/gen_odoo.py:544-552 | one class per emitted register |
| Generator.ClassesOfSnoc | spedextractor/gen_odoo.py:544-552 | emitting one more register appends its class |
| Generator.ClassesOfAt | spedextractor/gen_odoo.py:544-552 | class k is the class of the k-th emitted register |
| Generator.CodesOf | spedextractor/gen_odoo.py:345-348 | one concrete model per emitted register |
| Generator.CodesOfAt | spedextractor/gen_odoo.py:345-348 | concrete model k is that of the k-th emitted register |
| Generator.AccessLinesAt | spedextractor/gen_odoo.py:554-555 | two access lines per emitted register: line 2k grants users read access and line 2k+1 grants managers full access to the k-th emitted register |
| Generator.OutputsStep | spedextractor/gen_odoo.py:345-555 | appending a register with its concrete model and access pair keeps the outputs in step with the emitted list |
| Generator.StepKeepsOutputs | spedextractor/gen_odoo.py:345-555 | each step keeps the outputs in step |
| Generator.EmittedOutputs | spedextractor/gen_odoo.py:345-555 | after any prefix, the concrete models and access lines are exactly those of the emitted registers, in order |
| Generator.Blocks | spedextractor/gen_odoo.py:362 | one block character per emitted register |
| Generator.BlocksAt | spedextractor/gen_odoo.py:362 | block k is the first character of the k-th emitted register's code |
| Generator.MenuBlocksAppend | spedextractor/gen_odoo.py:363-366 | the block menus of two view runs are the block menus of each, concatenated |
| Generator.InitialHasNoBlockMenu | spedextractor/gen_odoo.py:283-308 | the module menu and the declaration action hold no block menu |
| Generator.BlocksSnoc | spedextractor/gen_odoo.py:362 | emitting one more register appends its block |
| Generator.RunHeadsSnoc | spedextractor/gen_odoo.py:363-367 | a new element adds a run head iff it differs from the last one |
| Generator.MenuBlocksStep | spedextractor/gen_odoo.py:362-367 | a register's view items add a block menu iff its block differs from the last block seen |
| Generator.MenusStep | spedextractor/gen_odoo.py:362-367 | one more emitted register keeps the block menus equal to the run heads of the emitted blocks |
| Generator.StepKeepsMenus | spedextractor/gen_odoo.py:362-367 | each step keeps the block menus in step |
| Generator.BlockMenusAreRunHeads | spedextractor/gen_odoo.py:362-367 | after any prefix, the block menus are the run heads of the emitted blocks, and the last block seen is that of the last emitted register |
| Generator.RunHeadsMembers | spedextractor/gen_odoo.py:362-367 | every block has a run head, and every run head is a block |
| Generator.RunHeadsDistinct | spedextractor/gen_odoo.py:362-367 | when equal blocks are contiguous, no block heads two runs |
| Generator.RegisterEntriesAppend | spedextractor/gen_odoo.py:369-395 | the register entries of two view runs are the entries of each, concatenated |
| Generator.InitialHasNoEntry | spedextractor/gen_odoo.py:283-308 | the module menu, the declaration action and its menu hold no register entry |
| Generator.RegisterEntriesStep | spedextractor/gen_odoo.py:362-395 | a register's view items add its entry, an action and menu item under its block's menu, iff it has level 2 |
| Generator.EntriesStep | spedextractor/gen_odoo.py:362-395 | emitting one more register keeps the entries equal to those of the level-2 registers emitted |
| Generator.StepKeepsEntries | spedextractor/gen_odoo.py:331-395 | each step keeps the entries in step with the emitted registers |
| Generator.EmittedEntries | spedextractor/gen_odoo.py:331-395 | after any prefix, the register entries are exactly those of the emitted level-2 registers, in order |
| Generator.EntriesOfMembers | spedextractor/gen_odoo.py:369-395 | an entry is among those of the emitted registers iff it is the entry of an emitted register of level 2 |
| Generator.GenerateEmits | spedextractor/gen_odoo.py:331-338 | the loop emits, in order, exactly the registers before the stop that are not skipped; each emitted register has level >= 2 or is `0000`, and none is in block 9 |
| Generator.GenerateWrites | spedextractor/gen_odoo.py:345-555 | the loop writes each emitted register's concrete model and two access lines, in order, and a block menu for exactly the emitted blocks |
| Generator.GenerateEntries | spedextractor/gen_odoo.py:331-395 | the loop writes an action and menu item, under the register's block menu, for exactly the emitted registers of level 2, in the order of emission |
| Generator.SortedEmitsAllButBlock9 | spedextractor/gen_odoo.py:317-338 | on the sorted layout the loop emits exactly the registers that are not skipped and not in block 9 |
| Generator.SortedBlocksOfEmitted | spedextractor/gen_odoo.py:317-338 | registers visited in layout order have contiguous blocks |
| Generator.SortedBlockMenusDistinct | spedextractor/gen_odoo.py:317-367 | on the sorted layout the block menus are the emitted blocks, in order, each once |
| Generator.GenerateModule | spedextractor/gen_odoo.py:317-555 | for each module: the sorted kept registers, their hierarchy, the loop's outputs and the emitted registers' classes |

## Left out

- The command-line interface, file reading and writing, the `black`
  formatting and every `print` are not modelled. The module list comes from
  `constants.py`, which is not part of this model: `mod` is a parameter.
- `get_registers`, `get_fields` and `get_version` read the layout tables.
  Their results are the inputs `raw` and `fields`.
- xsdata's `OdooGenerator`, its templates and the rendering of classes to
  Python are left out. A class is modelled as its name, its attributes and
  its links. The relational and label keyword arguments of
  `_extract_field_attributes` are left out: `string`, `required`,
  `ondelete`, `sped_card`, `sped_required`, `in_required`/`out_required`,
  `sped_length` and `help`. Only the `xsd_type` that feeds
  `_extract_number_attrs` is kept.
- `extract_string_and_help`, `get_structure`, `field_metadata`, and the
  registry name and comodel filters are left out. So are the short
  descriptions, the help texts and all template text of the models, views
  and security file. The outputs are modelled by what they name. A concrete
  model names its register's code. A block menu names its block. A register's
  action and menu item name its code and block. The module menu and the
  declaration action and menu name nothing. None of these carries the module,
  which is the same throughout one module's loop. An access line names the
  module, the register's code and the group.
- `Fields.RegisterFields`: the attribute hook looks up a field by code and
  register, taking the first match. The model has no such lookup: each
  attribute carries its own field.
- `Fields.InferKind`: the `decimal` column is a natural number when present.
  Non-numeric text, which would make `int()` raise, is not modelled. The same
  holds for `Numbers.FieldXsdType`.
- `Text.PyInt`: only ASCII digits are accepted. Python's `int()` also accepts
  other Unicode decimal digits.
- `Registers.CollectRegisterChildren`: the source stores the links in the
  register dictionaries in place, and the dictionaries are shared. The model
  returns them as maps between positions, so aliasing is not modelled.
  `register_info` is compared by code, as in the source. Properties that
  depend on positions are proved under unique codes. `Registers.DuplicateCodeCollectsEarlier`
  shows what happens without that condition.
- `Fields.DedupFieldCodes`: the source renames field dictionaries in place,
  so the renamed code is also what later lookups of `mod_fields` see. The
  model returns new values.
- `Generator.EmitRegisters`: the classes are returned next to the
  `Emission` state rather than inside it. The model returns only the
  current module's classes. In the source, `generator.filters.all_complex_types`
  is never cleared: it is appended to inside `for mod in MODULES`, so it
  gathers the classes of every module generated so far. That list is not
  modelled.
- `Layout.SortByLayout`: Python's `sorted` is modelled as an insertion sort.
  A stable sort by a key has only one possible result, and the model proves
  that the result is sorted, is a permutation of the input and is stable
  (`Layout.SortByLayoutStable`).
- `Layout.ModuleRegisters`: its own contract states only that the result is
  coded and no longer than the input. What it keeps, in which order and how
  often is proved by `Layout.ModuleRegistersMembers`,
  `Layout.ModuleRegistersAppend` and `Layout.ModuleRegistersSingle`, which
  keeps every use of the filter cheap to verify.
- `Fields.RegisterFields`: its own contract states only that the result is
  no longer than the table. Which fields it keeps, how often and in which
  order is proved by `Fields.RegisterFieldsMembers`,
  `Fields.RegisterFieldsAppend` and `Fields.RegisterFieldsSingle`.
- `Fields.Dedup`: its own contract states only that one field is returned
  for each input field. What each output field is is proved by
  `Fields.DedupAt`, `Fields.DedupShape` and the lemmas after them.
- `Layout.AlphanumSequence`, `Layout.PrepareRegisters` and
  `Generator.GenerateModule` require every register code to be non-empty.
  The source reads `code[0]` in three places, and each raises an
  `IndexError` on an empty code: the sort key, the module filter and the
  block 9 test in the loop. The model assumes every register code is
  non-empty, and this failure is not modelled.
