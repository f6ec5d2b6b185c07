# elfutils iterators, macro decoding, compressed-section headers and check descriptors

A model in Dafny of seven pieces of elfutils:

- the C++ iterators of libdw over a Dwarf handle (`unit_iterator`, `child_iterator`,
  `attr_iterator`, `die_tree_iterator`), each a class holding the fields of its `pimpl`, whose
  methods are proved equal to a step function on a state value. The walks they make are proved
  against independent definitions: a unit iterator visits all compile units and then all type
  units; a child iterator visits a parent's children left to right; an attribute iterator visits
  an entry's attributes in order; a DIE-tree iterator visits every entry of every unit in
  pre-order, and its stack always holds the current entry's ancestors;
- `dwarf_getmacros.c`: the opcode tables (`build_table`, the built-in DW_MACINFO_* and
  DW_MACRO_GNU_* prototypes, the `.debug_macro` header with its opcode_operands_table), the
  cache of tables keyed by `macro_op_compare`, `read_macros` with its callback and resume token,
  and the public entry points `dwarf_getmacros_next`, `dwarf_getmacros_addr`,
  `dwarf_getmacros_die` and `dwarf_getmacros`;
- `elf32_getchdr`: the cached compression header of a section, for both the ELF `Elf32_Chdr`
  and the old GNU "ZLIB" format;
- dwarflint's `checkdescriptor`: the group set and its builder, group-string parsing, `in_group`
  and the printing of a group set.

The DWARF data an iterator reads is in `dwarf_model.dfy`. A `Dwarf` holds the `.debug_info` and
`.debug_types` sections as maps from offsets to entries. It also provides the functions
`dwarf_nextcu`, `dwpp_child`, `dwpp_siblingof`, `dwarf_offdie` and `dwarf_getattrs` rely on.
Well-formedness says units are chained from offset 0 and entries are serialised in pre-order.
It also assumes three things of every unit's root, which the DWARF format promises but libdw does
not check:

- the root has no sibling;
- its tag is DW_TAG_type_unit exactly when the unit is in `.debug_types`. `die_tree_iterator.cc`
  relies on this at lines 100 and 207 to pick the section it rehydrates offsets in;
- its unit-local offset equals the unit header's size.
Macro decoding works on section bytes, as `seq<byte>`. The decoding primitives it uses are the
parameters in `Primitives`: `read_ubyte_unaligned`, `get_uleb128` and `__libdw_form_val_len`.

| file | models |
|---|---|
| wrappers.dfy | Option, Result, Outcome, byte |
| dwarf_model.dfy | units, entries, children and siblings of a Dwarf; their pre-order |
| unit_iterator.dfy | libdw/c++/unit_iterator.cc |
| child_iterator.dfy | libdw/c++/child_iterator.cc |
| attr_iterator.dfy | libdw/c++/attr_iterator.cc |
| die_tree_iterator.dfy | libdw/c++/die_tree_iterator.cc |
| macros.dfy | libdw/dwarf_getmacros.c |
| getchdr.dfy | libelf/elf32_getchdr.c |
| checkdescriptor.dfy | dwarflint/checkdescriptor.cc |

## Model

| member | source | states |
|---|---|---|
| UnitIterators.IsEndIsEqualToEnd | libdw/c++/unit_iterator.cc:42-46 | `is_end` holds exactly when the iterator equals `end ()`. A compile-unit iterator whose offset is -1 is not the end. |
| UnitIterators.Step | libdw/c++/unit_iterator.cc:48-73 | `pimpl::move` on a state value. Its order of units is stated by `StepInPhase`, `StepIntoTypes` and `StepAt`. |
| UnitIterators.FromRoot | libdw/c++/unit_iterator.cc:98-107 | `unit_iterator (dw, cudie)` on a state value. Where it stands is stated by `FromRootAt`. |
| UnitIterators.EqualIgnoresInfo | libdw/c++/unit_iterator.cc:109-113 | Equality looks only at the offset and the phase. It does not look at the Dwarf handle, the old offset or `unit_info`. |
| UnitIterators.EqualIsEquivalence | libdw/c++/unit_iterator.cc:109-113 | `operator==` is reflexive, symmetric and transitive. |
| UnitIterators.AtEnd | libdw/c++/unit_iterator.cc:42-46 | An iterator standing at the k-th unit is at the end exactly when k is the number of units. |
| UnitIterators.AtUnique | libdw/c++/unit_iterator.cc:109-113 | Two iterators at the same unit are equal. |
| UnitIterators.StepIntoTypes | libdw/c++/unit_iterator.cc:61-69 | Arriving at the type-unit phase with offset 0 reaches the first type unit, or the end when there are none. |
| UnitIterators.StepInPhase | libdw/c++/unit_iterator.cc:54-57 | After the i-th unit header of a phase, `dwarf_next_unit` finds the (i+1)-th header, or reports no more units after the last. |
| UnitIterators.StepAt | libdw/c++/unit_iterator.cc:48-73 | `move` from the k-th unit succeeds and stands at unit k+1. The order is all compile units, then all type units, then the end. |
| UnitIterators.BeginAt | libdw/c++/unit_iterator.cc:89-96 | `unit_iterator (dw)` stands at the first unit, or at the end when there is none. |
| UnitIterators.FromRootAt | libdw/c++/unit_iterator.cc:98-107 | `unit_iterator (dw, cudie)` with the root of the k-th unit stands at unit k. Stepping it along with the iterator from `unit_iterator (dw)` keeps the two equal. |
| UnitIterators.StepRespectsEqual | libdw/c++/unit_iterator.cc:48-73 | Equal iterators over one Dwarf fail together or step to equal iterators. |
| UnitIterators.UnitIterator.Raw | libdw/c++/unit_iterator.cc:82-87 | `unit_iterator (off, types)` has a NULL Dwarf, the given offset and the given phase. |
| UnitIterators.UnitIterator.End | libdw/c++/unit_iterator.cc:159-165 | `end ()` is the iterator (-1, types) and is at the end. |
| UnitIterators.UnitIterator.Copy | libdw/c++/unit_iterator.cc:137-140 | The copy has the same fields as the original. |
| UnitIterators.UnitIterator.Assign | libdw/c++/unit_iterator.cc:147-157 | After assignment the fields are those of the right-hand side. |
| UnitIterators.UnitIterator.AtEnd | libdw/c++/unit_iterator.cc:42-46 | Returns whether the state is the end phase with offset -1. |
| UnitIterators.UnitIterator.Equals | libdw/c++/unit_iterator.cc:167-171 | Returns the equality of the two states. |
| UnitIterators.UnitIterator.Done | libdw/c++/unit_iterator.cc:75-80 | The whole state becomes `end ()`. |
| UnitIterators.UnitIterator.Move | libdw/c++/unit_iterator.cc:48-73 | Success exactly when the step succeeds, and then the new state is the step's. A malformed header raises the step's error. |
| UnitIterators.UnitIterator.Create | libdw/c++/unit_iterator.cc:127-130 | A fresh iterator at the first unit, or the error reading its header raises. |
| UnitIterators.UnitIterator.CreateFromRoot | libdw/c++/unit_iterator.cc:98-107 | A fresh iterator at the unit whose root is `cudie`, or the error. |
| ChildIterators.StartIsFirstChild | libdw/c++/child_iterator.cc:45-49 | A new iterator equals `end ()` exactly when the parent has no children. Otherwise it stands at the first child. |
| ChildIterators.StartState | libdw/c++/child_iterator.cc:45-49 | The first child, as `dwpp_child` gives it. `StartIsFirstChild` states it. |
| ChildIterators.Step | libdw/c++/child_iterator.cc:61-67 | `pimpl::move` on a state value. `StepWalksChain` and `ChildrenOf` state where it goes. |
| ChildIterators.StepWalksChain | libdw/c++/child_iterator.cc:61-67 | One step moves along the sibling chain: the chain from the current child is that child, then the chain from the next one. |
| ChildIterators.ChildIterator.End | libdw/c++/child_iterator.cc:100-104 | `end ()` holds no entry. |
| ChildIterators.ChildIterator.constructor | libdw/c++/child_iterator.cc:74-76 | Stands at the parent's first child, or at the end. |
| ChildIterators.ChildIterator.Copy | libdw/c++/child_iterator.cc:51-53 | The copy stands at the same child. |
| ChildIterators.ChildIterator.Assign | libdw/c++/child_iterator.cc:87-98 | After assignment it stands where the right-hand side stood. |
| ChildIterators.ChildIterator.Equals | libdw/c++/child_iterator.cc:55-59 | Returns the equality of the two positions. |
| ChildIterators.ChildIterator.Move | libdw/c++/child_iterator.cc:61-67 | Moves to the next sibling, or to the end after the last. |
| ChildIterators.ChildrenOf | libdw/c++/child_iterator.cc:118-123 | Iterating from a parent until `end ()` yields exactly its children, in order. |
| AttrIterators.FindAttr | libdw/c++/attr_iterator.cc:71-72 | A found index lies in range, and that attribute's specification starts at the token. |
| AttrIterators.Visit | libdw/c++/attr_iterator.cc:47-59 | The callback offered one attribute after another. `VisitCapturesOne` and `VisitAfterCaptureAborts` state its outcomes. |
| AttrIterators.GetAttrs | libdw/c++/attr_iterator.cc:71-72 | `dwarf_getattrs` as the iterator calls it. `FindAttrHit` and `ResumeAt` state where a token resumes. |
| AttrIterators.Step | libdw/c++/attr_iterator.cc:61-75 | `pimpl::move` on a state value. `StepAt` and `AttributesOf` state what it captures. |
| AttrIterators.Start | libdw/c++/attr_iterator.cc:83-89 | `pimpl (Dwarf_Die *)` on a state value. `StartAt` states it. |
| AttrIterators.ResumeIndex | libdw/c++/attr_iterator.cc:71-72 | The index `dwarf_getattrs` resumes at is at most the number of attributes. |
| AttrIterators.VisitCapturesOne | libdw/c++/attr_iterator.cc:47-59 | A callback that has not yet been called captures the first attribute offered. The next token is the following attribute's offset, or 1 after the last. |
| AttrIterators.VisitAfterCaptureAborts | libdw/c++/attr_iterator.cc:51-53 | After capturing, the callback aborts at once. The captured attribute stays and the token is the current offset. |
| AttrIterators.OffsetsIncrease | libdw/c++/attr_iterator.cc:71-72 | Attribute specification offsets grow by at least 2 from one attribute to the next. |
| AttrIterators.FindAttrHit | libdw/c++/attr_iterator.cc:71-72 | The token of the j-th attribute finds the j-th attribute. |
| AttrIterators.ResumeAt | libdw/c++/attr_iterator.cc:61-75 | A token handed out for a later attribute is never 0, 1 or -1, and resumes at that attribute. |
| AttrIterators.StartAt | libdw/c++/attr_iterator.cc:83-89 | The constructor captures the first attribute. For an entry without attributes it holds code 0 and token 1, which equals `end ()`. |
| AttrIterators.StepAt | libdw/c++/attr_iterator.cc:61-75 | One increment after the j-th attribute captures the (j+1)-th, or reaches `end ()` after the last. |
| AttrIterators.AfterIsNotEnd | libdw/c++/attr_iterator.cc:91-96 | An iterator on the last attribute has token 1 and a non-zero code, and is not `end ()`. |
| AttrIterators.CallbackData.constructor | libdw/c++/attr_iterator.cc:38-45 | `cb_data` starts with the attribute it holds and `been` false. |
| AttrIterators.Callback | libdw/c++/attr_iterator.cc:47-59 | The first call copies the attribute, sets `been` and returns OK. Every later call returns ABORT and changes nothing. |
| AttrIterators.RunGetAttrs | libdw/c++/attr_iterator.cc:71-72 | Driving the callback through `dwarf_getattrs` gives the visitor's result and captured attribute. |
| AttrIterators.AttrIterator.Raw | libdw/c++/attr_iterator.cc:77-81 | `attr_iterator (offset)` has no entry and the given offset. |
| AttrIterators.AttrIterator.End | libdw/c++/attr_iterator.cc:129-133 | `end ()` has offset 1. |
| AttrIterators.AttrIterator.Copy | libdw/c++/attr_iterator.cc:107-109 | The copy has the same state. |
| AttrIterators.AttrIterator.Assign | libdw/c++/attr_iterator.cc:116-127 | After assignment the state is the right-hand side's. |
| AttrIterators.AttrIterator.Equals | libdw/c++/attr_iterator.cc:91-96 | Returns whether the tokens and the captured attributes' codes agree. |
| AttrIterators.AttrIterator.Move | libdw/c++/attr_iterator.cc:61-75 | The new state is the step's. A `dwarf_getattrs` failure (-1) raises. |
| AttrIterators.AttrIterator.Create | libdw/c++/attr_iterator.cc:83-89 | A fresh iterator on the first attribute, or the failure. |
| AttrIterators.AttributesOf | libdw/c++/attr_iterator.cc:147-152 | Increments from the constructor until `end ()` yield exactly the entry's attributes, one per increment. |
| DieTreeIterators.StackOf | libdw/c++/die_tree_iterator.cc:189-197 | The stack's offsets rehydrated in the current unit, then the current entry. |
| DieTreeIterators.Reversed | libdw/c++/die_tree_iterator.cc:195 | The i-th element of the result is the (n-1-i)-th of the input. |
| DieTreeIterators.PathOf | libdw/c++/die_tree_iterator.cc:44-49 | The stacked offsets as entries of the unit's section, then the current entry. |
| DieTreeIterators.Equal | libdw/c++/die_tree_iterator.cc:71-79 | `pimpl::operator==`. `EqualIsEquivalence` and `EndTest` state it. |
| DieTreeIterators.Rehydrate | libdw/c++/die_tree_iterator.cc:44-49 | An offset off the stack as an entry of the unit's section. `StackIsAncestry` states what it yields. |
| DieTreeIterators.NextRoot | libdw/c++/die_tree_iterator.cc:105-107 | The next unit's root with an empty stack. `NextRootWalks` states it. |
| DieTreeIterators.Climb | libdw/c++/die_tree_iterator.cc:92-105 | The sibling-or-pop loop of `pimpl::move`. `ClimbWalks` and `ClimbKeepsAncestry` state it. |
| DieTreeIterators.Step | libdw/c++/die_tree_iterator.cc:81-108 | `pimpl::move` on a state value. `StepWalks`, `StepAdvances` and `StepKeepsAncestry` state it. |
| DieTreeIterators.ParentOf | libdw/c++/die_tree_iterator.cc:199-213 | `parent ()` on a state value. `ParentIsParent` states it. |
| DieTreeIterators.StepWalks | libdw/c++/die_tree_iterator.cc:81-108 | One increment visits the current entry. What is left to visit afterwards is what was left before, without its first entry. |
| DieTreeIterators.StepAdvances | libdw/c++/die_tree_iterator.cc:81-108 | After one increment the iterator is in the same unit or the next. The pending walk is the current entry followed by the pending walk after the increment. |
| DieTreeIterators.SeenGrows | libdw/c++/die_tree_iterator.cc:162-167 | One increment moves the current entry from what is pending to what has been seen; the two together stay every entry. |
| DieTreeIterators.BeginWalks | libdw/c++/die_tree_iterator.cc:55-58 | `die_tree_iterator (dw)` has every entry of every unit still to visit, in pre-order. |
| DieTreeIterators.EndTest | libdw/c++/die_tree_iterator.cc:71-79 | During the walk the iterator equals `end ()` exactly after the last unit. |
| DieTreeIterators.EqualIsEquivalence | libdw/c++/die_tree_iterator.cc:71-79 | `pimpl::operator==` is an equivalence. |
| DieTreeIterators.FromEndIsEnd | tests/test-iterators.cc:47-48 | A tree iterator built from a unit iterator at the end equals `end ()`. |
| DieTreeIterators.FromUnitWalks | libdw/c++/die_tree_iterator.cc:60-63 | Built from the k-th unit, the iterator stands at the unit's root. It has that unit and every later unit still to visit. |
| DieTreeIterators.RootTailEmpty | libdw/c++/die_tree_iterator.cc:92-105 | A unit's root has no sibling, so nothing of its unit follows its subtree. |
| DieTreeIterators.NextRootWalks | libdw/c++/die_tree_iterator.cc:105-107 | When the walk leaves a unit, it restarts at the next unit's root with an empty stack. |
| DieTreeIterators.ChildWalks | libdw/c++/die_tree_iterator.cc:84-90 | Descending to the first child pushes the current offset and keeps the pending walk. |
| DieTreeIterators.ClimbWalks | libdw/c++/die_tree_iterator.cc:92-105 | Trying siblings and popping ancestors reaches the next entry in pre-order, or the next unit. |
| DieTreeIterators.ClimbKeepsAncestry | libdw/c++/die_tree_iterator.cc:92-105 | The climb keeps the stack a path of ancestors, each entry a child of the one before. |
| DieTreeIterators.StepKeepsAncestry | libdw/c++/die_tree_iterator.cc:81-108 | Every increment keeps the stack a parent-to-child path ending at the current entry. |
| DieTreeIterators.FromUnitAncestry | libdw/c++/die_tree_iterator.cc:60-63 | At a unit's root the stack is trivially a path of ancestors. |
| DieTreeIterators.StackIsAncestry | libdw/c++/die_tree_iterator.cc:189-197 | `stack ()` starts at the unit's root and ends at the current entry, each element a child of the one before. |
| DieTreeIterators.ChainAbove | libdw/c++/die_tree_iterator.cc:84-90 | Every child of an entry lies at a higher offset than the entry. |
| DieTreeIterators.PathIncreases | libdw/c++/die_tree_iterator.cc:199-213 | Along a path of ancestors offsets rise, so an entry with stacked ancestors is not its unit's root. |
| DieTreeIterators.ParentIsParent | libdw/c++/die_tree_iterator.cc:199-213 | During the walk the iterator is not `end ()`, and it stands at its unit's root exactly when its stack is empty. `parent ()` of a unit root is `end ()`. Of any other entry it is an iterator in the same unit at the entry's parent, whose stack is again a path of ancestors. |
| DieTreeIterators.DieTreeIterator.End | libdw/c++/die_tree_iterator.cc:144-148 | `end ()` holds the end unit iterator and an empty stack. |
| DieTreeIterators.DieTreeIterator.OfUnit | libdw/c++/die_tree_iterator.cc:119-121 | Owns a copy of the unit iterator and stands at that unit's root. |
| DieTreeIterators.DieTreeIterator.Copy | libdw/c++/die_tree_iterator.cc:65-69 | A copy with its own unit iterator in the same state. |
| DieTreeIterators.DieTreeIterator.Create | libdw/c++/die_tree_iterator.cc:115-117 | A fresh iterator at the first unit's root, or the error. |
| DieTreeIterators.DieTreeIterator.Assign | libdw/c++/die_tree_iterator.cc:132-142 | After assignment the state is the right-hand side's, in a fresh pimpl. |
| DieTreeIterators.DieTreeIterator.Equals | libdw/c++/die_tree_iterator.cc:150-154 | Returns the equality of the two states. |
| DieTreeIterators.DieTreeIterator.Move | libdw/c++/die_tree_iterator.cc:81-108 | The new state is the step's. A failing unit step raises its error. |
| DieTreeIterators.DieTreeIterator.Parent | libdw/c++/die_tree_iterator.cc:199-213 | A fresh iterator at the last stacked offset with that offset popped, or `end ()` when the stack is empty. |
| DieTreeIterators.DieTreeIterator.Stack | libdw/c++/die_tree_iterator.cc:189-197 | The ancestors and the current entry, outermost first. |
| DieTreeIterators.Enumerate | libdw/c++/die_tree_iterator.cc:162-167 | Iterating from `die_tree_iterator (dw)` until `end ()` yields every entry in pre-order, compile units before type units. |
| Macros.Demand | libdw/dwarf_getmacros.c:57-64 | True exactly when the position is before the end and n bytes remain there. It is always false at the end, even for n = 0. |
| Macros.Compare | libdw/dwarf_getmacros.c:71-83 | -1 below the table's offset, 1 beyond offset + read, and 0 inside that range. |
| Macros.MacinfoProtos | libdw/dwarf_getmacros.c:110-121 | 255 slots: define, undef and vendor_ext take (udata, string), start_file (udata, udata), end_file nothing. |
| Macros.GnuProtos | libdw/dwarf_getmacros.c:168-185 | 255 slots with the seven DW_MACRO_GNU_* prototypes. |
| Macros.Present | libdw/dwarf_getmacros.c:85-95 | The prototypes present, in slot order. `SlotLookup`, `SlotsIncrease`, `SlotsDense` and `PresentMissing` state how `build_table` indexes them. |
| Macros.Slots | libdw/dwarf_getmacros.c:85-95 | One slot per opcode. |
| Macros.SlotLookup | libdw/dwarf_getmacros.c:85-95 | A slot has a prototype exactly when its index is not 0xff. That index then names the slot's prototype in the table. |
| Macros.SlotsIncrease | libdw/dwarf_getmacros.c:89-92 | Prototypes are numbered in opcode order. |
| Macros.SlotsDense | libdw/dwarf_getmacros.c:89-92 | Every table entry belongs to some slot. |
| Macros.PresentMissing | libdw/dwarf_getmacros.c:213-216 | With an opcode that has no prototype, fewer than 255 are present. |
| Macros.BuildAsWritten | libdw/dwarf_getmacros.c:85-95 | `build_table` as written. See Findings. |
| Macros.AsWrittenSkips | libdw/dwarf_getmacros.c:93-94 | As written, an absent slot after a present one is never written. |
| Macros.MacinfoAsWrittenMapsOpcode5 | libdw/dwarf_getmacros.c:123-126 | As written, the macinfo table maps opcode 5, which has no prototype, to index 0 instead of 0xff. |
| Macros.MacroOpTable.constructor | libdw/dwarf_getmacros.c:223-229 | A zero-filled table with the header's fields. |
| Macros.MacroOpTable.BuildTable | libdw/dwarf_getmacros.c:85-95 | Corrected `build_table`: every slot holds its prototype's index or 0xff, and the table lists the present prototypes in order. |
| Macros.Operands | libdw/dwarf_getmacros.c:307-320 | One operand position per form, the first at the start. Positions never decrease and lie between the start and the end. |
| Macros.Head | libdw/dwarf_getmacros.c:274-328 | The macro read at p ends after p. |
| Macros.Walk | libdw/dwarf_getmacros.c:272-339 | No macros exactly when nothing was read. A pause comes right after the last macro read. |
| Macros.PauseAfterRefusal | libdw/dwarf_getmacros.c:334-335 | A pause follows a macro the callback refused, after every earlier macro was accepted. |
| Macros.ResumeContinues | libdw/dwarf_getmacros.c:334-335 | Resuming at the pause with a callback that accepts what was already seen gives the uninterrupted pass. |
| Macros.WalkDecodes | libdw/dwarf_getmacros.c:272-336 | Each step decodes the macro at the current position and follows the callback's verdict. |
| Macros.ReadOperands | libdw/dwarf_getmacros.c:307-320 | The operand loop places each attribute where the lengths of the earlier forms lead. |
| Macros.MarkIsReadRange | libdw/dwarf_getmacros.c:79 | Measured from the table's offset, a fresh table covers exactly what was read through it. |
| Macros.MarkAsWritten | libdw/dwarf_getmacros.c:330-332 | The read mark as written, an absolute offset. `MarkAsWrittenCoversNextUnit` shows what it claims. |
| Macros.Mark | libdw/dwarf_getmacros.c:330-332 | The corrected read mark, relative to the table's offset. `MarkIsReadRange`, `MarkStep` and `MarkCovers` state it. |
| Macros.MarkAsWrittenCoversNextUnit | libdw/dwarf_getmacros.c:330-332 | As written, a read mark of 199 for a table at 100 also claims the unit at 200. See Findings. |
| Macros.MarkStep | libdw/dwarf_getmacros.c:330-332 | Raising the mark after each macro gives the mark for the farthest position read. |
| Macros.ReadMacros | libdw/dwarf_getmacros.c:265-339 | `read_macros` ends as the walk does, sees the walk's macros, and raises the table's read mark to what was read. Nothing else in the table changes. |
| Macros.InstallAsWritten | libdw/dwarf_getmacros.c:198-201 | As written, a table entry goes to slot opcode instead of opcode - 1. |
| Macros.Install | libdw/dwarf_getmacros.c:198-201 | Corrected: the entry goes to slot opcode - 1, and every other slot keeps its prototype. Opcode 0 is malformed. |
| Macros.RedefineDefineAsWritten | libdw/dwarf_getmacros.c:176-201 | As written, redefining DW_MACRO_GNU_define changes undef's prototype and leaves define's. Corrected, define's changes. |
| Macros.Clip | libdw/dwarf_getmacros.c:199-204 | The at most n form bytes of an entry that lie inside the data. |
| Macros.Entry | libdw/dwarf_getmacros.c:194-204 | One table entry: its opcode is the byte read, and reading moves forward. |
| Macros.TableStep | libdw/dwarf_getmacros.c:192-205 | One loop iteration installs a prototype and moves on. |
| Macros.OperandTable | libdw/dwarf_getmacros.c:187-206 | The opcode_operands_table keeps 255 slots and reads at least one byte per entry. A missing byte fails with INVALID_DWARF. |
| Macros.OperandTableStep | libdw/dwarf_getmacros.c:192-205 | A table of count > 0 entries is its first entry, then the rest. |
| Macros.OperandTableOne | libdw/dwarf_getmacros.c:192-205 | A table of one entry with a non-zero opcode puts that entry's prototype in slot opcode - 1 and ends after the entry. |
| Macros.OperandTableKeeps | libdw/dwarf_getmacros.c:187-206 | After the table every slot holds its earlier prototype or one the table gave it. |
| Macros.ReadEntry | libdw/dwarf_getmacros.c:194-204 | Reads one entry as `Entry` describes. |
| Macros.TableOf | libdw/dwarf_getmacros.c:187-206 | The header's prototypes after the optional table, read forward from p. |
| Macros.ParseHeader | libdw/dwarf_getmacros.c:142-229 | A version other than 4 fails with INVALID_VERSION, and no other input does. Flag bit 0 selects 64-bit offsets. Bit 1 makes the line offset read, otherwise it is -1. Without bit 2 the GNU prototypes stand and the header ends after the flags and line offset. Every success has fewer than 255 prototypes. |
| Macros.FlagsTable | libdw/dwarf_getmacros.c:156-206 | With flag bit 2, the fields after the flags end with the opcode_operands_table, whose count byte follows the line offset. |
| Macros.HeaderTable | libdw/dwarf_getmacros.c:142-229 | With flag bit 2, a header's prototypes are what the opcode_operands_table makes of the GNU ones, and the header ends where the table ends. |
| Macros.ReadHeader | libdw/dwarf_getmacros.c:142-162 | The header reads agree with `ParseHeader`. |
| Macros.ReadFlags | libdw/dwarf_getmacros.c:156-229 | The reads after the version agree with the header's definition. |
| Macros.ReadTableOf | libdw/dwarf_getmacros.c:187-206 | The optional table is read as `TableOf` says. |
| Macros.ReadFinish | libdw/dwarf_getmacros.c:208-229 | The count of prototypes and the header fields. |
| Macros.ReadOperandTable | libdw/dwarf_getmacros.c:192-205 | The table loop agrees with `OperandTable`. |
| Macros.ReadTableEntry | libdw/dwarf_getmacros.c:194-204 | One loop iteration agrees with `TableStep`. |
| Macros.CountPresent | libdw/dwarf_getmacros.c:208-211 | Counts the slots that have a prototype. |
| Macros.NewInfo | libdw/dwarf_getmacros.c:218-230 | A table built from a header is well formed. |
| Macros.MacinfoInfo | libdw/dwarf_getmacros.c:103-129 | The macinfo table is well formed. |
| Macros.FindFrom | libdw/dwarf_getmacros.c:136-140 | `tfind`: the first cached table whose range holds the key, or none when no table's does. |
| Macros.Lookup | libdw/dwarf_getmacros.c:131-241 | A table is taken from the cache exactly when `FindFrom` finds one, and then it is that first covering table, as it is. Otherwise the header at the key is parsed: a new table with read mark 0 and the header's fields gets the next index, or the header's error is returned. |
| Macros.ComesFrom | libdw/dwarf_getmacros.c:243-263 | A token resolves to a position exactly when the section exists and the token is a non-NULL address from its start to its end, both included. |
| Macros.Ret | libdw/dwarf_getmacros.c:334-338 | `read_macros`' result: 0, -1 or the resume address as a `ptrdiff_t`. `ResumeTokenRoundTrip` states that the token resolves back. |
| Macros.RunAt | libdw/dwarf_getmacros.c:389-394 | `read_macros` through a cached table. `CachedRun` and `MarkCovers` state what it changes. |
| Macros.MacroRun | libdw/dwarf_getmacros.c:389-394 | `get_table_for_offset` then `read_macros`. `AddrRun` states it. |
| Macros.AddrSpec | libdw/dwarf_getmacros.c:369-395 | `dwarf_getmacros_addr` on values. `AddrRun` and `AddrThenNext` state it. |
| Macros.MacinfoRun | libdw/dwarf_getmacros.c:443-448 | `read_macros` over `.debug_macinfo`. `GetMacrosResumes` states how two calls combine. |
| Macros.NextSpec | libdw/dwarf_getmacros.c:341-367 | `dwarf_getmacros_next` on values. `NextDispatch`, `ResumeFromCache` and `AddrThenNext` state it. |
| Macros.DieSpec | libdw/dwarf_getmacros.c:416-449 | `dwarf_getmacros_die` on values. `DieDispatch` states it. |
| Macros.GetMacrosSpec | libdw/dwarf_getmacros.c:451-476 | `dwarf_getmacros` on values. `GetMacrosNeedsOldStyle` and `GetMacrosResumes` state it. |
| Macros.ResumeTokenRoundTrip | libdw/dwarf_getmacros.c:334-335 | A resume token resolves back to the position it was made from, and is neither 0 nor -1. |
| Macros.NextDispatch | libdw/dwarf_getmacros.c:341-367 | A token in `.debug_macro` is read there, even when it is also in `.debug_macinfo`. A token from neither, or 0, gives -1 and changes nothing. |
| Macros.MarkCovers | libdw/dwarf_getmacros.c:330-332 | Once the mark is raised, a table covers every position read through it. |
| Macros.AddrRun | libdw/dwarf_getmacros.c:369-395 | `dwarf_getmacros_addr` walks from the header's end and raises the mark of the table it used. |
| Macros.PauseThenResume | libdw/dwarf_getmacros.c:349-366 | A pause token resolves to its position, and resuming there continues the pass. |
| Macros.AddrThenNext | libdw/dwarf_getmacros.c:341-395 | Pausing `dwarf_getmacros_addr` gives a token that `dwarf_getmacros_next` resolves to the pause, in a cache whose first table covering the pause is the paused one. Resuming there with a callback that accepts the macros already seen gives what one uninterrupted pass with it gives. |
| Macros.CachedRun | libdw/dwarf_getmacros.c:232-240 | After a run the cache holds the table used, with its mark raised. |
| Macros.ResumeFromCache | libdw/dwarf_getmacros.c:341-367 | A resume resolved to the paused table continues that pass. |
| Macros.DieDispatch | libdw/dwarf_getmacros.c:416-449 | An entry with DW_AT_GNU_macros is read as `dwarf_getmacros_addr` reads that offset, and the macinfo mark stays. Otherwise, with old-style data and a DW_AT_macro_info offset, it is read through the macinfo table and the cache stays. Anything else gives -1 and changes nothing. |
| Macros.GetMacrosNeedsOldStyle | libdw/dwarf_getmacros.c:458-468 | Without an entry, or for an entry without old-style data, even one with DW_AT_GNU_macros, the result is -1 and nothing changes. |
| Macros.GetMacrosResumes | libdw/dwarf_getmacros.c:451-476 | Conditions: an entry with old-style data, no DW_AT_GNU_macros and a DW_AT_macro_info offset; `.debug_macro` and `.debug_macinfo` at disjoint addresses; the first pass pausing inside the data. Then the pause token from token 0, passed back with a callback that accepts what was seen, continues the pass. The two calls give what one uninterrupted pass gives, and the first leaves the cache alone. |
| Macros.MacroData.constructor | libdw/dwarf_getmacros.c:249-255 | A Dwarf's two macro sections and an empty table cache. |
| Macros.MacroData.GetTableForOffset | libdw/dwarf_getmacros.c:131-241 | The cached table found, or a fresh table appended to the cache. Errors change nothing. |
| Macros.MacroData.FindTable | libdw/dwarf_getmacros.c:136-140 | The tfind loop agrees with `FindFrom`. |
| Macros.MacroData.AddTable | libdw/dwarf_getmacros.c:218-240 | A fresh table from the header, appended to the cache. |
| Macros.MacroData.RunMacro | libdw/dwarf_getmacros.c:389-394 | The result and new cache agree with `MacroRun`. |
| Macros.MacroData.ReadTable | libdw/dwarf_getmacros.c:393-394 | Only the mark of the table used changes. |
| Macros.MacroData.ReadMacinfoTable | libdw/dwarf_getmacros.c:443-448 | Reading through the macinfo table leaves the cache alone. |
| Macros.MacroData.Addr | libdw/dwarf_getmacros.c:369-395 | `dwarf_getmacros_addr`: -1 without `.debug_macro`, otherwise the run through its table. |
| Macros.MacroData.Next | libdw/dwarf_getmacros.c:341-367 | `dwarf_getmacros_next`: the result, cache and macinfo mark agree with `NextSpec`. |
| Macros.MacroData.DieMacros | libdw/dwarf_getmacros.c:416-449 | `dwarf_getmacros_die`: DW_AT_GNU_macros takes precedence, otherwise DW_AT_macro_info. |
| Macros.MacroData.GetMacros | libdw/dwarf_getmacros.c:451-476 | `dwarf_getmacros`: only with old-style data. Token 0 starts at the entry; any other token resumes. |
| Macros.NewMacinfoTable | libdw/dwarf_getmacros.c:103-129 | A fresh macinfo table with mark 0. |
| Macros.ReadMacinfo | libdw/dwarf_getmacros.c:443-448 | The result and the new mark agree with `MacinfoRun`. |
| Getchdr.BigEndianBytes | libelf/elf32_getchdr.c:102-104 | k bytes, most significant first. |
| Getchdr.BigEndianRoundTrip | libelf/elf32_getchdr.c:102-104 | `be64toh` reverses the big-endian encoding of a number below 256^k. |
| Getchdr.BigEndianBytesRoundTrip | libelf/elf32_getchdr.c:102-104 | Every byte string is the encoding of the number it spells. |
| Getchdr.BigEndianBound | libelf/elf32_getchdr.c:106-109 | Eight bytes always spell a number below 2^64. |
| Getchdr.Examine | libelf/elf32_getchdr.c:61-130 | An ELF header is the first 12 bytes of data with room for them. A GNU header has type ZLIB, a size below 2^32 and the section's alignment. |
| Getchdr.Scn.constructor | libelf/elf32_getchdr.c:44-50 | A section with nothing cached. |
| Getchdr.Scn.GetChdr | libelf/elf32_getchdr.c:41-131 | The header, the type and the cached fields agree with `GetChdrSpec`. |
| Getchdr.Scn.MarkNotCompressed | libelf/elf32_getchdr.c:126-130 | Caches the marker with type NONE and returns NULL. |
| Getchdr.GetChdrSpec | libelf/elf32_getchdr.c:41-131 | `elf32_getchdr` on values. Its cases are stated by the lemmas below. |
| Getchdr.CachedAnswer | libelf/elf32_getchdr.c:44-50 | Once cached, the stored type is returned with the header, or NULL for the marker, and nothing changes. |
| Getchdr.AllocatedNotCompressed | libelf/elf32_getchdr.c:61-63 | An allocated or NOBITS section is never compressed. |
| Getchdr.MissingDataFails | libelf/elf32_getchdr.c:52-68 | Without a header, or without data, the type is -1, the result is NULL and nothing is cached. |
| Getchdr.ElfHeaderCase | libelf/elf32_getchdr.c:70-95 | A SHF_COMPRESSED section with room for an Elf32_Chdr has type ELF, and the header is its first 12 bytes. |
| Getchdr.GnuHeaderCase | libelf/elf32_getchdr.c:96-124 | Data "ZLIB" plus a plausible size gives type GNU: ZLIB, the size truncated to 32 bits, and the section's alignment. |
| Getchdr.GnuSizeRejected | libelf/elf32_getchdr.c:106-109 | A GNU size below the data's size, or above SIZE_MAX, means not compressed. |
| Getchdr.PlainSection | libelf/elf32_getchdr.c:96-130 | Data that is neither a SHF_COMPRESSED section with room for an Elf32_Chdr nor 12 bytes starting "ZLIB" is not compressed: the marker, type NONE and NULL. |
| Getchdr.AllocationFails | libelf/elf32_getchdr.c:81-117 | When malloc fails for an ELF header that cannot be used in place, or for any GNU header whether aligned or not, the type is -1, the result is NULL and nothing is cached. |
| Getchdr.GnuSizeRoundTrip | libelf/elf32_getchdr.c:96-123 | "ZLIB" followed by the big-endian encoding of n yields a header of size n mod 2^32. |
| Getchdr.Idempotent | libelf/elf32_getchdr.c:44-130 | A second call returns what the first returned. A failed call (type -1) changes nothing. |
| CheckDescriptors.LessIrreflexive | dwarflint/checkdescriptor.cc:56 | No name is below itself under `std::string`'s `<`. |
| CheckDescriptors.LessTransitive | dwarflint/checkdescriptor.cc:56 | `<` on names is transitive. |
| CheckDescriptors.LessTotal | dwarflint/checkdescriptor.cc:56 | Two names neither below the other are equal, so the set's equivalence is equality. |
| CheckDescriptors.Find | dwarflint/checkdescriptor.cc:70 | `std::set::find` succeeds exactly when the name is in the set. |
| CheckDescriptors.Insert | dwarflint/checkdescriptor.cc:56 | The set stays ordered and gains exactly the name. Inserting a present name changes nothing. |
| CheckDescriptors.InsertAll | dwarflint/checkdescriptor.cc:55-56 | The set stays ordered and gains exactly the names given. |
| CheckDescriptors.InsertAllPresent | dwarflint/checkdescriptor.cc:55-56 | Inserting names already present changes nothing. |
| CheckDescriptors.WordLength | dwarflint/checkdescriptor.cc:55 | The run of non-space characters a string starts with. |
| CheckDescriptors.Tokens | dwarflint/checkdescriptor.cc:53-56 | The names successive `>>` extractions read. `TokensAreWords` and `TokensOfSpaced` state them. |
| CheckDescriptors.TokensAreWords | dwarflint/checkdescriptor.cc:55 | Every name `>>` extracts is non-empty and free of whitespace. |
| CheckDescriptors.TokensOfSpaced | dwarflint/checkdescriptor.cc:53-55 | Reading back words joined by spaces gives those words. |
| CheckDescriptors.LastComma | dwarflint/checkdescriptor.cc:37-38 | The position of a string's last comma, or none when there is no comma. |
| CheckDescriptors.Join | dwarflint/checkdescriptor.cc:30-43 | The groups separated by commas, as the printing loop writes them. `SplitJoin` inverts it. |
| CheckDescriptors.Split | dwarflint/checkdescriptor.cc:30-43 | The comma-separated fields of a printed list, the reader's view of `Join`. |
| CheckDescriptors.SplitJoin | dwarflint/checkdescriptor.cc:33-41 | For comma-free names, splitting the printed list at commas gives the names back. |
| CheckDescriptors.PrintGroups | dwarflint/checkdescriptor.cc:30-43 | Prints '[', then the groups in order with a ',' before all but the first, then ']'. |
| CheckDescriptors.PrintedForms | dwarflint/checkdescriptor.cc:30-43 | The empty set prints as "[]"; one group g prints as "[g]". |
| CheckDescriptors.SkipSpaces | dwarflint/checkdescriptor.cc:55 | Skipping whitespace does not change the names read. |
| CheckDescriptors.ScanWord | dwarflint/checkdescriptor.cc:55 | The name extracted is the run up to the next whitespace. |
| CheckDescriptors.Create.constructor | dwarflint/checkdescriptor.cc:45-48 | `create (a_name)`: that name, no description, no groups, no prerequisites. |
| CheckDescriptors.Create.Groups | dwarflint/checkdescriptor.cc:50-58 | Each name of the string is inserted. Nothing else changes. |
| CheckDescriptors.GroupsAccumulate | dwarflint/checkdescriptor.cc:50-58 | Two `groups` calls give the earlier groups plus every name of either string, each once. |
| CheckDescriptors.CheckDescriptor.constructor | dwarflint/checkdescriptor.cc:60-65 | Copies the builder's name, description, groups and prerequisites. |
| CheckDescriptors.CheckDescriptor.InGroup | dwarflint/checkdescriptor.cc:67-71 | True exactly when the group is one of the descriptor's groups. |

## Left out

- I/O is not modelled. The DWARF and ELF data are values given to the model: file reading, `dwarf_begin`, `elf_getdata` and `dwarf_getshdr`.
- libdw's error numbers are not kept. The error an operation reports is its result's error value, not a thread-local code.
- The C++ iterators' dereference operators and their post-increments return copies. They are not modelled.
- `dwarf_next_unit`, `dwpp_child`, `dwpp_siblingof`, `dwarf_offdie` and `dwarf_getattrs` are not decoded from bytes. They are defined on a Dwarf's entry maps in `dwarf_model.dfy`; their code is not part of this model.
- Entry identity: a `Dwarf_Die` is modelled by its section and offset, not its address in memory.
- `read_ubyte_unaligned`, `get_uleb128` and `__libdw_form_val_len` are parameters, not decoded. Their code is not part of this model.
- Error results of `__libdw_form_val_len` are not modelled: it is a length function and cannot fail here.
- A NULL `Dwarf` in `dwarf_getmacros_addr` is not modelled; the model always has a `MacroData`.
- Locking, thread safety and the once-only initialisation of `get_macinfo_table`'s static table are not modelled. The caller makes the macinfo table once, with `NewMacinfoTable`.
- `libdw_alloc` is not modelled, and neither is `tsearch` returning NULL (DWARF_E_NOMEM).
- The tree shape of the `tfind`/`tsearch` cache is not modelled. The model keeps the tables in insertion order and finds the first whose range holds the key. A search tree finds some such table; with overlapping ranges it may be another one.
- Macros.Clip: `demand (e.nforms, ...)` at line 203 ignores its result, so the forms of a table entry can run past the data. The model keeps only the bytes inside the data, because reads beyond the buffer have no meaning in the model.
- Macros.Entry: `e.nforms` is an 8-bit field, so the model keeps the uleb128 value modulo 256.
- Macros.Install: as written, opcode 0 in the opcode_operands_table goes to `op_protos[0]`, define's slot, which is in bounds. With the corrected `opcode - 1` it has no slot, so the model rejects that entry as malformed DWARF.
- Macros.ParseHeader: `assert (ct < 0xff)` becomes the error TooManyOpcodes, because a failed assertion aborts the program.
- Macros.InstallAsWritten: a write to `op_protos[255]`, past the array, is dropped.
- Macros.BuildAsWritten: a write to `opcodes[255]`, past the array, is dropped.
- The macro callback is a pure function: `Macro -> bool` for "returns DWARF_CB_OK". `arg` and any state the callback keeps are not modelled.
- Getchdr.Examine: a 32-bit host, where SIZE_MAX is 2^32 - 1, is not modelled; the model takes SIZE_MAX as 2^64 - 1.
- Getchdr.Scn.GetChdr: the aligned path returns a pointer into the section and the unaligned path a malloc'ed copy. These are modelled as the same 12 bytes `Raw`; which buffer holds them is not modelled.
- Getchdr.Scn.GetChdr: malloc's success is a parameter (`mallocOk`).
- The numeric values of ELF_ZSCN_T_* are not modelled; they are the datatype `ZscnType`.
- An in-place `Elf32_Chdr` is not decoded into fields; it stays its 12 raw bytes.
- CheckDescriptors: `std::set` is an ordered sequence without duplicates; its tree is not modelled.
- The element type of the prerequisite set is declared in checkdescriptor.hh, which is not part of this model; here it is a set of strings.
- The stream state of `operator<<` is not modelled. The output is the string it writes.
- `create::groups` returns `*this` for chaining; the model's method returns nothing.

- Macros.ReadMacros, Macros.ParseHeader, Macros.MacinfoInfo, Macros.NewMacinfoTable, Macros.MacroData.GetTableForOffset, Macros.MacroData.Addr, Macros.MacroData.Next, Macros.MacroData.DieMacros, Macros.MacroData.GetMacros, and every member built on them: these run the corrected lines 94, 201 and 330-332 of libdw/dwarf_getmacros.c (see Findings). On the inputs in Findings they answer differently from the source as written. The members built on them include Macros.Slots, Macros.NewInfo, Macros.TableStep, Macros.OperandTable, Macros.TableOf, Macros.HeaderTable, Macros.Lookup, Macros.RunAt, Macros.MacroRun, Macros.AddrSpec, Macros.MacinfoRun, Macros.NextSpec, Macros.DieSpec, Macros.GetMacrosSpec, Macros.MacroData.AddTable, Macros.MacroData.RunMacro, Macros.MacroData.ReadTable, Macros.MacroData.ReadMacinfoTable and Macros.ReadMacinfo.

## Findings

| source | as written | input that shows it | evidently intended | confidence | as-written member | corrected member |
|---|---|---|---|---|---|---|
| libdw/dwarf_getmacros.c:94 | `table->opcodes[i] = 0xff` marks slot i, the next opcode's, for an opcode i without a prototype | the .debug_macinfo prototypes: opcode 5 has none, yet its slot keeps the table's zero fill, so opcode 5 decodes as DW_MACINFO_define | `table->opcodes[i - 1] = 0xff`, as line 92 indexes | high; not executed | Macros.MacinfoAsWrittenMapsOpcode5 | Macros.MacroOpTable.BuildTable |
| libdw/dwarf_getmacros.c:201 | `op_protos[opcode] = e` stores the prototype in the next opcode's slot | a header table redefining DW_MACRO_GNU_define (1) changes DW_MACRO_GNU_undef's prototype and leaves define's | `op_protos[opcode - 1] = e`, the convention of lines 176-182 | high; not executed | Macros.RedefineDefineAsWritten | Macros.Install |
| libdw/dwarf_getmacros.c:330-332 | `nread = readp - startp` is an absolute section offset, while `macro_op_compare` (line 79) takes `read` relative to the table's offset | a table at offset 100 read to offset 199 claims up to 299, so the unit at offset 200 is looked up as this table | `nread = readp - startp - table->offset` | medium; not executed | Macros.MarkAsWrittenCoversNextUnit | Macros.ReadMacros |
