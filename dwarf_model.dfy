/**
 * The entry forest that the C++ iterators of libdw walk, and the libdw
 * primitives they call, stated over sections that are already parsed.
 *
 * A section is a map from an entry's absolute offset to what libdw would
 * decode there: its tag, the offset of its first child and of its next
 * sibling (if any), its attribute list and its unit-local offset.  Units are
 * listed per phase (compile units of .debug_info, then type units of
 * .debug_types), each with the fields dwarf_next_unit reports.
 *
 * The primitives dwpp_child, dwpp_siblingof, dwpp_offdie(_types),
 * dwarf_next_unit, dwarf_tag, dwarf_dieoffset and dwarf_cuoffset are the
 * functions Child, SiblingOf, OffDie, NextUnitAt, Tag, DieOffset and
 * CuOffset below; they are the interface of code outside this model.
 */
module DwarfModel {
  import opened Wrappers

  type Off = nat

  /** (Dwarf_Off) -1: Dwarf_Off is an unsigned 64-bit integer. */
  const NO_OFFSET: Off := 0xFFFF_FFFF_FFFF_FFFF
  const OFF_MODULUS: nat := 0x1_0000_0000_0000_0000

  /** The libdw errors the iterators raise (through throw_libdw). */
  datatype Error = InvalidFormat | MalformedAttributes

  const DW_TAG_compile_unit: nat := 0x11
  const DW_TAG_type_unit: nat := 0x41

  /** One attribute as dwarf_getattrs offers it; specOffset is the byte offset of
      its (name, form) pair in the abbreviation, which dwarf_getattrs returns as
      the token that resumes the walk at this attribute. */
  datatype Attribute = Attribute(code: nat, form: nat, specOffset: nat)

  datatype Entry = Entry(tag: nat, child: Option<Off>, sibling: Option<Off>,
                         attrs: seq<Attribute>, cuOffset: nat)

  /** An entry handle: its section (.debug_types when types) and its absolute
      offset there.  It stands for Dwarf_Die.addr, the entry's identity. */
  datatype Die = Die(types: bool, off: Off)

  datatype UnitHeader = UnitHeader(start: Off, length: nat, headerSize: nat,
                                   version: nat, abbrevOffset: nat, addressSize: nat,
                                   offsetSize: nat, typeSignature: nat)

  datatype Dwarf = Dwarf(info: map<Off, Entry>, typeSection: map<Off, Entry>,
                         compileUnits: seq<UnitHeader>, typeUnits: seq<UnitHeader>)

  function Section(dw: Dwarf, types: bool): map<Off, Entry>
  {
    if types then dw.typeSection else dw.info
  }

  function Units(dw: Dwarf, types: bool): seq<UnitHeader>
  {
    if types then dw.typeUnits else dw.compileUnits
  }

  predicate Has(dw: Dwarf, d: Die)
  {
    d.off in Section(dw, d.types)
  }

  function EntryOf(dw: Dwarf, d: Die): Entry
    requires Has(dw, d)
  {
    Section(dw, d.types)[d.off]
  }

  /** dwpp_child: the first child of d, in d's section. */
  function Child(dw: Dwarf, d: Die): Option<Die>
  {
    if Has(dw, d) && EntryOf(dw, d).child.Some? then Some(Die(d.types, EntryOf(dw, d).child.value)) else None
  }

  /** dwpp_siblingof: the next sibling of d, in d's section. */
  function SiblingOf(dw: Dwarf, d: Die): Option<Die>
  {
    if Has(dw, d) && EntryOf(dw, d).sibling.Some? then Some(Die(d.types, EntryOf(dw, d).sibling.value)) else None
  }

  /** dwpp_offdie_types (types) or dwpp_offdie: the entry at an absolute offset. */
  function OffDie(types: bool, off: Off): Die
  {
    Die(types, off)
  }

  /** dwarf_tag; 0 (no tag) for a handle that designates no entry. */
  function Tag(dw: Dwarf, d: Die): nat
  {
    if Has(dw, d) then EntryOf(dw, d).tag else 0
  }

  /** dwarf_dieoffset */
  function DieOffset(d: Die): Off
  {
    d.off
  }

  /** dwarf_cuoffset: the entry's offset relative to its unit's start. */
  function CuOffset(dw: Dwarf, d: Die): nat
  {
    if Has(dw, d) then EntryOf(dw, d).cuOffset else 0
  }

  /** What dwarf_next_unit reports: a header (return 0), "no more units"
      (return 1), or a failure (return -1). */
  datatype NextUnit = Found(header: UnitHeader) | NoMore | Malformed

  /** The offset just past the last unit of a phase. */
  function PhaseEnd(hs: seq<UnitHeader>): Off
  {
    if |hs| == 0 then 0 else hs[|hs| - 1].start + hs[|hs| - 1].length
  }

  function FindUnit(hs: seq<UnitHeader>, off: Off, from: nat): (r: Option<nat>)
    ensures r.Some? ==> from <= r.value < |hs| && hs[r.value].start == off
    decreases |hs| - from
  {
    if from >= |hs| then None
    else if hs[from].start == off then Some(from)
    else FindUnit(hs, off, from + 1)
  }

  /** dwarf_next_unit (dw, off, ...) in the phase `types`: the header of the
      unit that starts at off; "no more" at or past the end of the phase's last
      unit; otherwise a malformed header.  With no Dwarf handle (NULL) it fails. */
  function NextUnitAt(dw: Option<Dwarf>, off: Off, types: bool): NextUnit
  {
    if dw.None? then Malformed
    else
      var hs := Units(dw.value, types);
      match FindUnit(hs, off, 0)
      case Some(i) => Found(hs[i])
      case None => if off >= PhaseEnd(hs) then NoMore else Malformed
  }

  // ---------------------------------------------------------------------
  // Well-formed forests.

  ghost predicate EdgeOk(sec: map<Off, Entry>, o: Off, e: Option<Off>)
  {
    e.Some? ==> e.value in sec && o < e.value
  }

  /** Every entry lies before the end of its phase, and its first child and its
      next sibling are entries of the same section that come after it (DWARF
      lays the entries of a unit out in pre-order). */
  ghost predicate SectionOk(dw: Dwarf, types: bool)
  {
    forall o {:trigger Section(dw, types)[o]} :: o in Section(dw, types) ==>
      && o < PhaseEnd(Units(dw, types))
      && EdgeOk(Section(dw, types), o, Section(dw, types)[o].child)
      && EdgeOk(Section(dw, types), o, Section(dw, types)[o].sibling)
  }

  /** The units of a phase follow each other from offset 0, each non-empty. */
  ghost predicate Chained(hs: seq<UnitHeader>)
  {
    && (|hs| > 0 ==> hs[0].start == 0)
    && (forall i :: 0 <= i < |hs| ==> hs[i].length > 0)
    && (forall i :: 0 < i < |hs| ==> hs[i].start == hs[i - 1].start + hs[i - 1].length)
  }

  /** The root entry of a unit sits right after the unit's header. */
  function RootDie(types: bool, h: UnitHeader): Die
  {
    Die(types, h.start + h.headerSize)
  }

  /** A unit root exists, has no sibling, carries DW_TAG_type_unit exactly in
      the type-unit phase, and its unit-local offset is the header size. */
  ghost predicate RootOk(dw: Dwarf, types: bool, h: UnitHeader)
  {
    var r := RootDie(types, h);
    && Has(dw, r)
    && EntryOf(dw, r).sibling.None?
    && (EntryOf(dw, r).tag == DW_TAG_type_unit <==> types)
    && EntryOf(dw, r).cuOffset == h.headerSize
  }

  ghost predicate PhaseOk(dw: Dwarf, types: bool)
  {
    && SectionOk(dw, types)
    && Chained(Units(dw, types))
    && PhaseEnd(Units(dw, types)) < NO_OFFSET
    && forall i :: 0 <= i < |Units(dw, types)| ==> RootOk(dw, types, Units(dw, types)[i])
  }

  ghost predicate WellFormed(dw: Dwarf)
  {
    PhaseOk(dw, false) && PhaseOk(dw, true)
  }

  // ---------------------------------------------------------------------
  // Reference pre-order walk, independent of any iterator.

  ghost function Bound(dw: Dwarf, types: bool): nat
  {
    PhaseEnd(Units(dw, types))
  }

  /** The distance from d to the end of its phase, which every link of a
      well-formed section shortens. */
  ghost function Rank(dw: Dwarf, d: Die): nat
  {
    if d.off < Bound(dw, d.types) then Bound(dw, d.types) - d.off else 0
  }

  /** A link from d, kept when it points forward and inside the phase.  On a
      well-formed section every child and sibling link does (ForwardOk); the
      guard only lets the reference walk below be defined on any input. */
  ghost function Forward(dw: Dwarf, d: Die, e: Option<Die>): (r: Option<Die>)
    ensures r.Some? ==> Rank(dw, r.value) < Rank(dw, d) || r.value.types != d.types
  {
    if e.Some? && d.off < e.value.off < Bound(dw, d.types) then e else None
  }

  /** The measure of a sibling chain starting at first. */
  ghost function ChainRank(dw: Dwarf, first: Option<Die>): nat
  {
    if first.Some? then Rank(dw, first.value) + 1 else 0
  }

  ghost function FirstChild(dw: Dwarf, d: Die): (r: Option<Die>)
    ensures r.Some? ==> Rank(dw, r.value) < Rank(dw, d)
  {
    Forward(dw, d, Child(dw, d))
  }

  ghost function NextSibling(dw: Dwarf, d: Die): (r: Option<Die>)
    ensures r.Some? ==> Rank(dw, r.value) < Rank(dw, d)
  {
    Forward(dw, d, SiblingOf(dw, d))
  }

  /** On a well-formed section the guarded links are dwpp_child's and
      dwpp_siblingof's, and they lead to entries of the section. */
  lemma ForwardOk(dw: Dwarf, d: Die)
    requires SectionOk(dw, d.types) && Has(dw, d)
    ensures FirstChild(dw, d) == Child(dw, d) && NextSibling(dw, d) == SiblingOf(dw, d)
    ensures Child(dw, d).Some? ==> Has(dw, Child(dw, d).value)
    ensures SiblingOf(dw, d).Some? ==> Has(dw, SiblingOf(dw, d).value)
  {
    var sec := Section(dw, d.types);
    var e := sec[d.off];
    if e.child.Some? {
      assert sec[e.child.value] == sec[e.child.value];
    }
    if e.sibling.Some? {
      assert sec[e.sibling.value] == sec[e.sibling.value];
    }
  }

  /** The entries of d's subtree in pre-order: d, then its children's subtrees
      left to right. */
  ghost function Subtree(dw: Dwarf, d: Die): seq<Die>
    decreases Rank(dw, d), 1
  {
    [d] + Forest(dw, FirstChild(dw, d))
  }

  /** The subtrees of first and of every later sibling of first, in pre-order. */
  ghost function Forest(dw: Dwarf, first: Option<Die>): seq<Die>
    decreases if first.Some? then Rank(dw, first.value) else 0, if first.Some? then 2 else 0
  {
    match first
    case None => []
    case Some(d) => Subtree(dw, d) + Forest(dw, NextSibling(dw, d))
  }

  /** first and its later siblings, left to right: the children of a parent
      whose first child is first. */
  ghost function SiblingChain(dw: Dwarf, first: Option<Die>): seq<Die>
    decreases ChainRank(dw, first)
  {
    match first
    case None => []
    case Some(d) => [d] + SiblingChain(dw, NextSibling(dw, d))
  }

  /** The children of p, left to right. */
  ghost function Children(dw: Dwarf, p: Die): seq<Die>
  {
    SiblingChain(dw, FirstChild(dw, p))
  }

  /** Every unit of both phases, compile units first. */
  datatype UnitRef = UnitRef(types: bool, header: UnitHeader)

  function AllUnits(dw: Dwarf): seq<UnitRef>
  {
    seq(|dw.compileUnits|, i requires 0 <= i < |dw.compileUnits| => UnitRef(false, dw.compileUnits[i]))
    + seq(|dw.typeUnits|, i requires 0 <= i < |dw.typeUnits| => UnitRef(true, dw.typeUnits[i]))
  }

  lemma AllUnitsAt(dw: Dwarf, k: nat)
    requires k < |AllUnits(dw)|
    ensures |AllUnits(dw)| == |dw.compileUnits| + |dw.typeUnits|
    ensures k < |dw.compileUnits| ==> AllUnits(dw)[k] == UnitRef(false, dw.compileUnits[k])
    ensures k >= |dw.compileUnits| ==>
      AllUnits(dw)[k] == UnitRef(true, dw.typeUnits[k - |dw.compileUnits|])
  {
  }

  ghost function UnitRoot(dw: Dwarf, k: nat): Die
    requires k < |AllUnits(dw)|
  {
    RootDie(AllUnits(dw)[k].types, AllUnits(dw)[k].header)
  }

  lemma UnitRootOk(dw: Dwarf, k: nat)
    requires WellFormed(dw) && k < |AllUnits(dw)|
    ensures RootOk(dw, AllUnits(dw)[k].types, AllUnits(dw)[k].header)
    ensures UnitRoot(dw, k).types == AllUnits(dw)[k].types
    ensures SectionOk(dw, UnitRoot(dw, k).types) && Has(dw, UnitRoot(dw, k))
    ensures SiblingOf(dw, UnitRoot(dw, k)).None? && NextSibling(dw, UnitRoot(dw, k)).None?
  {
    AllUnitsAt(dw, k);
    var t := AllUnits(dw)[k].types;
    var i := if t then k - |dw.compileUnits| else k;
    assert Units(dw, t)[i] == AllUnits(dw)[k].header;
  }

  /** The entries of the units from the k-th on, each unit's in pre-order. */
  ghost function UnitsFrom(dw: Dwarf, k: nat): seq<Die>
    decreases |AllUnits(dw)| - k
  {
    if k >= |AllUnits(dw)| then [] else Subtree(dw, UnitRoot(dw, k)) + UnitsFrom(dw, k + 1)
  }

  /** Every entry of every unit: compile units then type units, each unit's
      entries in pre-order. */
  ghost function AllEntries(dw: Dwarf): seq<Die>
  {
    UnitsFrom(dw, 0)
  }

  // ---------------------------------------------------------------------
  // Facts about the primitives over a well-formed forest.

  lemma {:induction false} ChainedIncreasing(hs: seq<UnitHeader>, i: nat, j: nat)
    requires Chained(hs) && i < j < |hs|
    ensures hs[i].start < hs[j].start
    decreases j - i
  {
    if i + 1 < j {
      ChainedIncreasing(hs, i, j - 1);
    }
  }

  lemma ChainedBelowEnd(hs: seq<UnitHeader>, i: nat)
    requires Chained(hs) && i < |hs|
    ensures hs[i].start < PhaseEnd(hs)
  {
    if i + 1 < |hs| {
      ChainedIncreasing(hs, i, |hs| - 1);
    }
  }

  lemma {:induction false} FindUnitMiss(hs: seq<UnitHeader>, off: Off, from: nat)
    requires forall j :: from <= j < |hs| ==> hs[j].start != off
    ensures FindUnit(hs, off, from) == None
    decreases |hs| - from
  {
    if from < |hs| {
      FindUnitMiss(hs, off, from + 1);
    }
  }

  lemma {:induction false} FindUnitHit(hs: seq<UnitHeader>, i: nat, from: nat)
    requires Chained(hs) && from <= i < |hs|
    ensures FindUnit(hs, hs[i].start, from) == Some(i)
    decreases i - from
  {
    if from < i {
      ChainedIncreasing(hs, from, i);
      FindUnitHit(hs, i, from + 1);
    }
  }

  /** On a well-formed phase, dwarf_next_unit at a unit's start reads that unit. */
  lemma NextUnitAtStart(dw: Dwarf, types: bool, i: nat)
    requires Chained(Units(dw, types)) && i < |Units(dw, types)|
    ensures NextUnitAt(Some(dw), Units(dw, types)[i].start, types) == Found(Units(dw, types)[i])
  {
    FindUnitHit(Units(dw, types), i, 0);
  }

  /** ... and just past the phase's last unit it reports "no more units". */
  lemma NextUnitAtEnd(dw: Dwarf, types: bool)
    requires Chained(Units(dw, types))
    ensures NextUnitAt(Some(dw), PhaseEnd(Units(dw, types)), types) == NoMore
  {
    var hs := Units(dw, types);
    forall j | 0 <= j < |hs| ensures hs[j].start != PhaseEnd(hs) {
      ChainedBelowEnd(hs, j);
    }
    FindUnitMiss(hs, PhaseEnd(hs), 0);
  }

  /** The pre-order of a sibling chain is the concatenation of the subtrees of
      the siblings, which are exactly the entries SiblingChain lists. */
  lemma {:induction false} ForestIsSubtreesOfChain(dw: Dwarf, first: Option<Die>)
    ensures Forest(dw, first) == Subtrees(dw, SiblingChain(dw, first))
    decreases ChainRank(dw, first)
  {
    match first
    case None =>
    case Some(d) =>
      ForestIsSubtreesOfChain(dw, NextSibling(dw, d));
      var rest := SiblingChain(dw, NextSibling(dw, d));
      assert ([d] + rest)[1..] == rest;
  }

  /** A subtree is its root followed by the subtrees of its children. */
  lemma SubtreeIsRootAndChildren(dw: Dwarf, d: Die)
    ensures Subtree(dw, d) == [d] + Subtrees(dw, Children(dw, d))
  {
    ForestIsSubtreesOfChain(dw, FirstChild(dw, d));
  }

  /** Every entry of a sibling chain from an entry of a well-formed section is
      an entry of that section, in the same phase. */
  lemma {:induction false} ChainIn(dw: Dwarf, first: Option<Die>)
    requires first.Some? ==> SectionOk(dw, first.value.types) && Has(dw, first.value)
    ensures AllIn(dw, SiblingChain(dw, first))
    ensures forall i :: 0 <= i < |SiblingChain(dw, first)| ==> SiblingChain(dw, first)[i].types == first.value.types
    decreases ChainRank(dw, first)
  {
    match first
    case None =>
    case Some(d) =>
      ForwardOk(dw, d);
      ChainIn(dw, NextSibling(dw, d));
  }

  ghost predicate AllIn(dw: Dwarf, ds: seq<Die>)
  {
    forall i :: 0 <= i < |ds| ==> SectionOk(dw, ds[i].types) && Has(dw, ds[i])
  }

  /** The concatenation of the subtrees of ds. */
  ghost function Subtrees(dw: Dwarf, ds: seq<Die>): seq<Die>
  {
    if ds == [] then [] else Subtree(dw, ds[0]) + Subtrees(dw, ds[1..])
  }
}
