/**
 * dwarf_getmacros: decoding the macro information of .debug_macro (the
 * version-4 GNU format that DWARF 5 section 6.3 later standardised) and of
 * .debug_macinfo (DWARF 4 sections 6.3 and 7.22), with opcode tables, the
 * resume-token protocol and the public entry points.
 *
 * Section bytes are a sequence; positions are offsets from the start of the
 * section, and a section's buffer address is SectionData.base, so a token,
 * which in the library is the address of the next byte to read, is
 * base + offset.
 */
module Macros {
  import opened Wrappers

  /** The number of opcodes 1..255 an opcode table has a slot for. */
  const OPCODES: nat := 255
  /** The opcode-slot value meaning "no prototype for this opcode". */
  const NOT_PRESENT: byte := 0xff
  /** Addresses and Dwarf_Off are 64-bit. */
  const ADDRESS_SPACE: nat := 0x1_0000_0000_0000_0000
  /** (Dwarf_Off) -1: the line offset of a header without one. */
  const NO_LINE_OFFSET: nat := 0xffff_ffff_ffff_ffff

  const DW_FORM_string: byte := 0x08
  const DW_FORM_strp: byte := 0x0e
  const DW_FORM_udata: byte := 0x0f
  const DW_FORM_sec_offset: byte := 0x17

  const DW_MACINFO_define: byte := 1
  const DW_MACINFO_undef: byte := 2
  const DW_MACINFO_start_file: byte := 3
  const DW_MACINFO_end_file: byte := 4
  const DW_MACINFO_vendor_ext: byte := 0xff

  const DW_MACRO_GNU_define: byte := 1
  const DW_MACRO_GNU_undef: byte := 2
  const DW_MACRO_GNU_start_file: byte := 3
  const DW_MACRO_GNU_end_file: byte := 4
  const DW_MACRO_GNU_define_indirect: byte := 5
  const DW_MACRO_GNU_undef_indirect: byte := 6
  const DW_MACRO_GNU_transparent_include: byte := 7

  /** Dwarf_Macro_Op_Proto: the forms of an opcode's operands. A prototype
      with a NULL forms pointer (no prototype) is None in a Protos slot. */
  datatype Proto = Proto(forms: seq<byte>)

  /** op_protos: slot opcode - 1 describes the opcode. */
  type Protos = seq<Option<Proto>>

  datatype MacroError = InvalidDwarf | InvalidVersion | TooManyOpcodes

  /** The decoding primitives of libdw this file relies on, whose code is not
      part of this model: read_ubyte_unaligned (data, position, width),
      get_uleb128 (its value and the number of bytes it occupies) and
      __libdw_form_val_len (data, form, offset size, position). */
  datatype Primitives = Primitives(
    readUnsigned: (seq<byte>, nat, nat) -> nat,
    uleb128: (seq<byte>, nat) -> (nat, nat),
    formLength: (seq<byte>, byte, nat, nat) -> nat)

  /** A section's Elf_Data: the buffer's address (0 for NULL) and its bytes. */
  datatype SectionData = SectionData(base: nat, bytes: seq<byte>)

  // ---------------------------------------------------------------------
  // demand and macro_op_compare

  /** demand: at least n bytes are left between r and e, and r is not at e. */
  function Demand(n: nat, r: nat, e: nat): (b: bool)
    ensures b <==> r < e && r + n <= e
  {
    r < e && e - r >= n
  }

  /** macro_op_compare of a key offset against a table that starts at offset
      and has been read up to offset + read. */
  function Compare(key: nat, offset: nat, read: nat): (c: int)
    ensures c == -1 <==> key < offset
    ensures c == 1 <==> offset + read < key
    ensures c == 0 <==> offset <= key <= offset + read
  {
    if key < offset then -1 else if key > offset + read then 1 else 0
  }

  // ---------------------------------------------------------------------
  // Built-in prototypes

  function UdataString(): Proto { Proto([DW_FORM_udata, DW_FORM_string]) }
  function UdataStrp(): Proto { Proto([DW_FORM_udata, DW_FORM_strp]) }
  function UdataUdata(): Proto { Proto([DW_FORM_udata, DW_FORM_udata]) }
  function SecOffset(): Proto { Proto([DW_FORM_sec_offset]) }
  function NoOperands(): Proto { Proto([]) }

  /** The op_protos of get_macinfo_table: the DW_MACINFO_* opcodes. */
  function MacinfoProtos(): (ps: Protos)
    ensures |ps| == OPCODES
  {
    seq(OPCODES, i =>
      if i == DW_MACINFO_define - 1 || i == DW_MACINFO_undef - 1 || i == DW_MACINFO_vendor_ext - 1 then Some(UdataString())
      else if i == DW_MACINFO_start_file - 1 then Some(UdataUdata())
      else if i == DW_MACINFO_end_file - 1 then Some(NoOperands())
      else None)
  }

  /** The op_protos a .debug_macro header starts from: the DW_MACRO_GNU_*
      opcodes, which a header's opcode_operands_table may override. */
  function GnuProtos(): (ps: Protos)
    ensures |ps| == OPCODES
  {
    seq(OPCODES, i =>
      if i == DW_MACRO_GNU_define - 1 || i == DW_MACRO_GNU_undef - 1 then Some(UdataString())
      else if i == DW_MACRO_GNU_define_indirect - 1 || i == DW_MACRO_GNU_undef_indirect - 1 then Some(UdataStrp())
      else if i == DW_MACRO_GNU_start_file - 1 then Some(UdataUdata())
      else if i == DW_MACRO_GNU_end_file - 1 then Some(NoOperands())
      else if i == DW_MACRO_GNU_transparent_include - 1 then Some(SecOffset())
      else None)
  }

  // ---------------------------------------------------------------------
  // build_table

  /** The prototypes present in ps, in slot order: the table build_table fills. */
  function Present(ps: Protos): seq<Proto>
  {
    if ps == [] then []
    else Present(ps[..|ps| - 1]) + (if ps[|ps| - 1].Some? then [ps[|ps| - 1].value] else [])
  }

  /** The index build_table gives slot j: the number of prototypes before it
      when it has one, NOT_PRESENT otherwise. */
  function Slot(ps: Protos, j: nat): byte
    requires j < |ps| && |Present(ps)| < NOT_PRESENT
  {
    if ps[j].Some? then
      PresentPrefix(ps, j, |ps|);
      assert ps[..|ps|] == ps;
      |Present(ps[..j])|
    else NOT_PRESENT
  }

  /** The slots build_table fills in. */
  function Slots(ps: Protos): (r: seq<byte>)
    requires |Present(ps)| < NOT_PRESENT
    ensures |r| == |ps|
  {
    seq(|ps|, j requires 0 <= j < |ps| => Slot(ps, j))
  }

  lemma {:induction false} PresentPrefix(ps: Protos, j: nat, k: nat)
    requires j <= k <= |ps|
    ensures Present(ps[..j]) <= Present(ps[..k])
    decreases k - j
  {
    if j < k {
      PresentPrefix(ps, j, k - 1);
      assert ps[..k][..k - 1] == ps[..k - 1];
    }
  }

  /** A slot without a prototype leaves room: fewer prototypes than slots. */
  lemma {:induction false} PresentMissing(ps: Protos, j: nat)
    requires j < |ps| && ps[j].None?
    ensures |Present(ps)| < |ps|
    decreases |ps|
  {
    var n := |ps| - 1;
    PresentBound(ps[..n]);
    if j < n {
      PresentMissing(ps[..n], j);
    }
  }

  lemma {:induction false} PresentBound(ps: Protos)
    ensures |Present(ps)| <= |ps|
    decreases |ps|
  {
    if ps != [] {
      PresentBound(ps[..|ps| - 1]);
    }
  }

  lemma PresentStep(ps: Protos, j: nat)
    requires j < |ps|
    ensures Present(ps[..j + 1]) == Present(ps[..j]) + (if ps[j].Some? then [ps[j].value] else [])
  {
    assert ps[..j + 1][..j] == ps[..j];
  }

  /** A slot with a prototype indexes that prototype in the built table; a
      slot without one holds NOT_PRESENT, and no slot with one does. */
  lemma SlotLookup(ps: Protos, j: nat)
    requires j < |ps| && |Present(ps)| < NOT_PRESENT
    ensures ps[j].Some? <==> Slot(ps, j) != NOT_PRESENT
    ensures ps[j].Some? ==> Slot(ps, j) < |Present(ps)| && Present(ps)[Slot(ps, j)] == ps[j].value
  {
    PresentStep(ps, j);
    PresentPrefix(ps, j + 1, |ps|);
    assert ps[..|ps|] == ps;
  }

  /** Slots with prototypes get increasing indices in opcode order. */
  lemma SlotsIncrease(ps: Protos, i: nat, j: nat)
    requires i < j < |ps| && ps[i].Some? && ps[j].Some? && |Present(ps)| < NOT_PRESENT
    ensures Slot(ps, i) < Slot(ps, j)
  {
    PresentStep(ps, i);
    PresentPrefix(ps, i + 1, j);
  }

  /** ... and the indices are dense: every entry of the table is some slot's. */
  lemma {:induction false} SlotsDense(ps: Protos, k: nat)
    requires k < |Present(ps)| < NOT_PRESENT
    ensures exists j :: 0 <= j < |ps| && ps[j].Some? && Slot(ps, j) == k
    decreases |ps|
  {
    var n := |ps| - 1;
    assert ps[..n + 1] == ps;
    PresentStep(ps, n);
    if k < |Present(ps[..n])| {
      SlotsDense(ps[..n], k);
      var j :| 0 <= j < n && ps[..n][j].Some? && Slot(ps[..n], j) == k;
      assert ps[..n][..j] == ps[..j];
      assert ps[j].Some? && Slot(ps, j) == k;
    } else {
      assert ps[n].Some? && Slot(ps, n) == k;
    }
  }

  /** build_table as written: slot i - 1 is set for a present prototype, but
      slot i (the next opcode's) for an absent one; the loop runs for i from
      `from` to 255 over the slots ops with ct prototypes placed so far. The
      write at i == 255 falls outside the 255 slots and is dropped here. */
  function BuildAsWritten(ps: Protos, from: nat, ct: nat, ops: seq<nat>): (r: seq<nat>)
    requires |ps| == OPCODES && |ops| == OPCODES && 1 <= from <= 256
    ensures |r| == OPCODES
    decreases 256 - from
  {
    if from == 256 then ops
    else if ps[from - 1].Some? then BuildAsWritten(ps, from + 1, ct + 1, ops[from - 1 := ct % 256])
    else BuildAsWritten(ps, from + 1, ct, if from < OPCODES then ops[from := NOT_PRESENT] else ops)
  }

  /** A slot without a prototype that follows a slot with one (or is the
      first) is never written by build_table as written. */
  lemma {:induction false} AsWrittenSkips(ps: Protos, from: nat, ct: nat, ops: seq<nat>, s: nat)
    requires |ps| == OPCODES && |ops| == OPCODES && 1 <= from <= 256
    requires s < OPCODES && ps[s].None? && (s == 0 || ps[s - 1].Some?)
    ensures BuildAsWritten(ps, from, ct, ops)[s] == ops[s]
    decreases 256 - from
  {
    if from < 256 {
      if ps[from - 1].Some? {
        AsWrittenSkips(ps, from + 1, ct + 1, ops[from - 1 := ct % 256], s);
      } else {
        AsWrittenSkips(ps, from + 1, ct, if from < OPCODES then ops[from := NOT_PRESENT] else ops, s);
      }
    }
  }

  /** The .debug_macinfo table built as written maps opcode 5, which has no
      prototype, to index 0 (DW_MACINFO_define's) instead of NOT_PRESENT:
      the table is zero-filled before build_table runs. */
  lemma MacinfoAsWrittenMapsOpcode5()
    ensures MacinfoProtos()[5 - 1].None? && |Present(MacinfoProtos())| < NOT_PRESENT
    ensures BuildAsWritten(MacinfoProtos(), 1, 0, seq(OPCODES, i => 0))[5 - 1] == 0
    ensures Slot(MacinfoProtos(), 5 - 1) == NOT_PRESENT
  {
    PresentMissing(MacinfoProtos(), 5);
    AsWrittenSkips(MacinfoProtos(), 1, 0, seq(OPCODES, i => 0), 4);
  }

  // ---------------------------------------------------------------------
  // Dwarf_Macro_Op_Table

  /** The parts of an opcode table that decoding reads. */
  datatype TableInfo = TableInfo(
    lineOffset: nat, version: nat, is64bit: bool, headerLen: nat,
    opcodes: seq<byte>, protos: seq<Proto>)

  /** Every slot is NOT_PRESENT or indexes the table. */
  ghost predicate TableOk(t: TableInfo)
  {
    && |t.opcodes| == OPCODES
    && forall j :: 0 <= j < OPCODES ==> t.opcodes[j] == NOT_PRESENT || t.opcodes[j] < |t.protos|
  }

  function OffsetSize(t: TableInfo): nat
  {
    if t.is64bit then 8 else 4
  }

  class MacroOpTable {
    var offset: nat
    var lineOffset: nat
    var headerLen: nat
    var version: nat
    var is64bit: bool
    /** The highest section offset read through this table so far. */
    var read: nat
    const opcodes: array<byte>
    var protos: seq<Proto>

    function Info(): TableInfo
      reads this, opcodes
    {
      TableInfo(lineOffset, version, is64bit, headerLen, opcodes[..], protos)
    }

    ghost predicate Valid()
      reads this, opcodes
    {
      TableOk(Info())
    }

    /** A zero-filled table with the header's fields. */
    constructor (offset: nat, lineOffset: nat, headerLen: nat, version: nat, is64bit: bool)
      ensures this.offset == offset && this.lineOffset == lineOffset && this.headerLen == headerLen
      ensures this.version == version && this.is64bit == is64bit && read == 0 && protos == []
      ensures fresh(opcodes) && opcodes[..] == seq(OPCODES, i => 0)
    {
      this.offset := offset;
      this.lineOffset := lineOffset;
      this.headerLen := headerLen;
      this.version := version;
      this.is64bit := is64bit;
      read := 0;
      protos := [];
      opcodes := new byte[OPCODES](i => 0);
    }

    /** build_table, with the slot of an absent prototype written at i - 1:
        every slot holds its prototype's index or NOT_PRESENT. */
    method BuildTable(ps: Protos)
      requires |ps| == OPCODES && opcodes.Length == OPCODES && |Present(ps)| < NOT_PRESENT
      modifies this, opcodes
      ensures forall j :: 0 <= j < OPCODES ==> opcodes[j] == Slot(ps, j)
      ensures protos == Present(ps)
      ensures offset == old(offset) && lineOffset == old(lineOffset) && headerLen == old(headerLen)
      ensures version == old(version) && is64bit == old(is64bit) && read == old(read)
      ensures Valid()
    {
      var ct := 0;
      protos := [];
      for i := 1 to 256
        invariant protos == Present(ps[..i - 1]) && ct == |protos|
        invariant forall j :: 0 <= j < i - 1 ==> opcodes[j] == Slot(ps, j)
        invariant offset == old(offset) && lineOffset == old(lineOffset) && headerLen == old(headerLen)
        invariant version == old(version) && is64bit == old(is64bit) && read == old(read)
      {
        PresentStep(ps, i - 1);
        PresentPrefix(ps, i, OPCODES);
        assert ps[..OPCODES] == ps;
        if ps[i - 1].Some? {
          opcodes[i - 1] := ct;
          protos := protos + [ps[i - 1].value];
          ct := ct + 1;
        } else {
          opcodes[i - 1] := NOT_PRESENT;
        }
      }
      assert ps[..OPCODES] == ps;
      forall j | 0 <= j < OPCODES ensures opcodes[j] == NOT_PRESENT || opcodes[j] < |protos| {
        SlotLookup(ps, j);
      }
    }
  }

  // ---------------------------------------------------------------------
  // read_macros

  /** Dwarf_Macro: what the callback receives; args are the positions of the
      operands (the attributes' valp). */
  datatype Macro = Macro(lineOffset: nat, version: nat, opcode: byte, forms: seq<byte>, args: seq<nat>)

  /** The operand positions of forms read from p on, and the position after them. */
  function Operands(data: seq<byte>, forms: seq<byte>, size: nat, p: nat, prims: Primitives): (r: (seq<nat>, nat))
    ensures |r.0| == |forms| && r.1 >= p
    ensures forall i :: 0 <= i < |r.0| ==> p <= r.0[i] <= r.1
    ensures forall i, j :: 0 <= i < j < |r.0| ==> r.0[i] <= r.0[j]
    ensures |forms| > 0 ==> r.0[0] == p
  {
    if forms == [] then ([], p)
    else
      var rest := Operands(data, forms[1..], size, p + prims.formLength(data, forms[0], size, p), prims);
      ([p] + rest.0, rest.1)
  }

  /** How read_macros ends: 0 on opcode 0 or at the end, -1 on an opcode
      without a prototype, a resume position after a callback said stop. */
  datatype ReadEnd = Finished | BadOpcode | Paused(pos: nat)

  /** The macros read_macros passes to the callback, how it ends, and the
      offset after the last macro read (0 if none). */
  datatype ReadRun = ReadRun(macros: seq<Macro>, end: ReadEnd, top: nat)

  /** The opcode at p has a prototype in t. */
  predicate Decodable(data: seq<byte>, t: TableInfo, p: nat)
    requires TableOk(t)
  {
    p < |data| && data[p] != 0 && t.opcodes[data[p] - 1] != NOT_PRESENT
  }

  /** The macro read_macros builds for the opcode at p, and the position
      after its operands. */
  function Head(data: seq<byte>, t: TableInfo, p: nat, prims: Primitives): (h: (Macro, nat))
    requires TableOk(t) && Decodable(data, t, p)
    ensures h.1 > p
  {
    var forms := t.protos[t.opcodes[data[p] - 1]].forms;
    var ops := Operands(data, forms, OffsetSize(t), p + 1, prims);
    (Macro(t.lineOffset, t.version, data[p], forms, ops.0), ops.1)
  }

  /** The run so far (seen, ending at top) followed by the run w. */
  function After(seen: seq<Macro>, top: nat, w: ReadRun): ReadRun
  {
    ReadRun(seen + w.macros, w.end, if w.macros == [] then top else w.top)
  }

  lemma AfterAfter(a: seq<Macro>, ta: nat, b: seq<Macro>, tb: nat, w: ReadRun)
    requires b != []
    ensures After(a, ta, After(b, tb, w)) == After(a + b, tb, w)
  {
    assert a + (b + w.macros) == (a + b) + w.macros;
  }

  /** read_macros from p on: each opcode's prototype gives its operands; the
      callback's verdict decides whether to go on. */
  function Walk(data: seq<byte>, t: TableInfo, p: nat, prims: Primitives, cb: Macro -> bool): (w: ReadRun)
    requires TableOk(t)
    ensures w.macros == [] <==> w.top == 0
    ensures w.macros != [] ==> w.top > p
    ensures w.end.Paused? ==> w.macros != [] && w.end.pos == w.top
    decreases |data| - p
  {
    if p >= |data| || data[p] == 0 then ReadRun([], Finished, 0)
    else if t.opcodes[data[p] - 1] == NOT_PRESENT then ReadRun([], BadOpcode, 0)
    else
      var (m, q) := Head(data, t, p, prims);
      if !cb(m) then ReadRun([m], Paused(q), q)
      else After([m], q, Walk(data, t, q, prims, cb))
  }

  /** A pause comes right after a macro the callback refused, every earlier
      macro having been accepted. */
  lemma {:induction false} PauseAfterRefusal(data: seq<byte>, t: TableInfo, p: nat, prims: Primitives, cb: Macro -> bool)
    requires TableOk(t) && Walk(data, t, p, prims, cb).end.Paused?
    ensures var ms := Walk(data, t, p, prims, cb).macros;
      && !cb(ms[|ms| - 1])
      && forall i :: 0 <= i < |ms| - 1 ==> cb(ms[i])
    decreases |data| - p
  {
    var (m, q) := Head(data, t, p, prims);
    if cb(m) {
      PauseAfterRefusal(data, t, q, prims, cb);
    }
  }

  /** Resuming at the pause position with a callback that accepts what the
      first pass saw gives, together, what one uninterrupted pass gives. */
  lemma {:induction false} ResumeContinues(data: seq<byte>, t: TableInfo, p: nat, prims: Primitives,
                                           cb: Macro -> bool, cb2: Macro -> bool)
    requires TableOk(t) && Walk(data, t, p, prims, cb).end.Paused?
    requires forall m :: m in Walk(data, t, p, prims, cb).macros ==> cb2(m)
    ensures var w := Walk(data, t, p, prims, cb);
      Walk(data, t, p, prims, cb2) == After(w.macros, w.top, Walk(data, t, w.end.pos, prims, cb2))
    decreases |data| - p
  {
    var w := Walk(data, t, p, prims, cb);
    var (m, q) := Head(data, t, p, prims);
    assert m in w.macros;
    if cb(m) {
      var w' := Walk(data, t, q, prims, cb);
      assert w == After([m], q, w');
      forall m' | m' in w'.macros ensures cb2(m') {
        assert m' in w.macros;
      }
      ResumeContinues(data, t, q, prims, cb, cb2);
      AfterAfter([m], q, w'.macros, w'.top, Walk(data, t, w.end.pos, prims, cb2));
    }
  }

  /** The operand loop of read_macros: one attribute per form, each at the
      position the lengths of the forms before it lead to. */
  method ReadOperands(data: seq<byte>, forms: seq<byte>, size: nat, p: nat, prims: Primitives)
    returns (args: seq<nat>, q: nat)
    ensures (args, q) == Operands(data, forms, size, p, prims)
  {
    args := [];
    q := p;
    var i := 0;
    assert forms[0..] == forms;
    assert [] + Operands(data, forms, size, p, prims).0 == Operands(data, forms, size, p, prims).0;
    while i < |forms|
      invariant 0 <= i <= |forms|
      invariant Operands(data, forms, size, p, prims)
        == (args + Operands(data, forms[i..], size, q, prims).0, Operands(data, forms[i..], size, q, prims).1)
    {
      assert forms[i..][1..] == forms[i + 1..] && forms[i..][0] == forms[i];
      ghost var next := Operands(data, forms[i + 1..], size, q + prims.formLength(data, forms[i], size, q), prims);
      assert args + ([q] + next.0) == (args + [q]) + next.0;
      args := args + [q];
      q := q + prims.formLength(data, forms[i], size, q);
      i := i + 1;
    }
    assert forms[i..] == [];
    assert args + [] == args;
  }

  /** The read mark after reading through a table at offset up to section
      offset top, as written: the absolute offset, although macro_op_compare
      adds the table's own offset to it. */
  function MarkAsWritten(read: nat, top: nat): nat
  {
    Max(read, top)
  }

  /** The read mark measured from the table's offset, as macro_op_compare
      reads it (top is 0 when nothing was read). */
  function Mark(offset: nat, read: nat, top: nat): nat
  {
    if top > offset then Max(read, top - offset) else read
  }

  /** With the mark measured from the table's offset, a fresh table's range
      is exactly what was read through it. */
  lemma MarkIsReadRange(offset: nat, top: nat, key: nat)
    requires top > offset
    ensures Compare(key, offset, Mark(offset, 0, top)) == 0 <==> offset <= key <= top
  {
  }

  /** As written, a table at offset 100 read through to offset 199 claims
      offsets up to 299, so the unit that starts at 200, right after it, is
      looked up as this table; measured from the offset, it is not. */
  lemma MarkAsWrittenCoversNextUnit()
    ensures Compare(200, 100, MarkAsWritten(0, 199)) == 0
    ensures Compare(200, 100, Mark(100, 0, 199)) == 1
  {
  }

  lemma WalkDecodes(data: seq<byte>, t: TableInfo, p: nat, prims: Primitives, cb: Macro -> bool)
    requires TableOk(t) && Decodable(data, t, p)
    ensures var h := Head(data, t, p, prims);
      Walk(data, t, p, prims, cb)
        == if cb(h.0) then After([h.0], h.1, Walk(data, t, h.1, prims, cb)) else ReadRun([h.0], Paused(h.1), h.1)
  {
  }

  lemma MarkStep(offset: nat, read: nat, top: nat, q: nat)
    requires top < q && offset < q && (top == 0 || top > offset)
    ensures Max(Mark(offset, read, top), q - offset) == Mark(offset, read, q)
  {
  }

  /** read_macros: reads macros from start until the end of data, opcode 0,
      an opcode without a prototype, or a callback that says stop, raising
      the table's read mark to the offset after each macro read. */
  method ReadMacros(data: seq<byte>, t: MacroOpTable, start: nat, prims: Primitives, cb: Macro -> bool)
    returns (r: ReadEnd, ghost seen: seq<Macro>)
    requires t.Valid() && t.offset <= start
    modifies t
    ensures t.Info() == old(t.Info()) && t.offset == old(t.offset)
    ensures r == Walk(data, t.Info(), start, prims, cb).end
    ensures seen == Walk(data, t.Info(), start, prims, cb).macros
    ensures t.read == Mark(t.offset, old(t.read), Walk(data, t.Info(), start, prims, cb).top)
  {
    ghost var info := t.Info();
    var readp: nat := start;
    ghost var top: nat := 0;
    seen := [];
    while readp < |data|
      invariant t.Info() == info && t.offset == old(t.offset)
      invariant Walk(data, info, start, prims, cb) == After(seen, top, Walk(data, info, readp, prims, cb))
      invariant t.read == Mark(t.offset, old(t.read), top) && top <= readp && start <= readp
      invariant top == 0 || top > start
      decreases |data| - readp
    {
      ghost var before := readp;
      var opcode := data[readp];
      if opcode == 0 {
        return Finished, seen;
      }
      var idx := t.opcodes[opcode - 1];
      if idx == NOT_PRESENT {
        return BadOpcode, seen;
      }
      var forms := t.protos[idx].forms;
      var args, next := ReadOperands(data, forms, if t.is64bit then 8 else 4, readp + 1, prims);
      readp := next;
      var m := Macro(t.lineOffset, t.version, opcode, forms, args);
      assert (m, readp) == Head(data, info, before, prims);
      WalkDecodes(data, info, before, prims, cb);
      MarkStep(t.offset, old(t.read), top, readp);
      if readp - t.offset > t.read {
        t.read := readp - t.offset;
      }
      if cb(m) {
        AfterAfter(seen, top, [m], readp, Walk(data, info, readp, prims, cb));
      }
      seen := seen + [m];
      top := readp;
      if !cb(m) {
        return Paused(readp), seen;
      }
    }
    return Finished, seen;
  }

  // ---------------------------------------------------------------------
  // The .debug_macro header (get_table_for_offset)

  /** A header table entry as written: the prototype goes to op_protos[opcode],
      the slot of opcode + 1 (a write to slot 255, past the array, is dropped). */
  function InstallAsWritten(ps: Protos, opcode: byte, e: Proto): (r: Protos)
    requires |ps| == OPCODES
    ensures |r| == OPCODES
    ensures opcode < OPCODES ==> r[opcode] == Some(e)
    ensures forall i :: 0 <= i < OPCODES && i != opcode ==> r[i] == ps[i]
  {
    if opcode < OPCODES then ps[opcode := Some(e)] else ps
  }

  /** A header table entry into slot opcode - 1, the convention of the
      built-in prototypes; opcode 0, which has no slot, is malformed. */
  function Install(ps: Protos, opcode: byte, e: Proto): (r: Option<Protos>)
    requires |ps| == OPCODES
    ensures r.None? <==> opcode == 0
    ensures r.Some? ==> |r.value| == OPCODES && r.value[opcode - 1] == Some(e)
    ensures r.Some? ==> forall i :: 0 <= i < OPCODES && i != opcode - 1 ==> r.value[i] == ps[i]
  {
    if opcode == 0 then None else Some(ps[opcode - 1 := Some(e)])
  }

  /** As written, a header that redefines DW_MACRO_GNU_define (opcode 1)
      leaves opcode 1 with its built-in prototype and gives the new one to
      DW_MACRO_GNU_undef (opcode 2); installed at opcode - 1, opcode 1 gets it. */
  lemma RedefineDefineAsWritten(e: Proto)
    requires e != UdataString()
    ensures InstallAsWritten(GnuProtos(), DW_MACRO_GNU_define, e)[DW_MACRO_GNU_define - 1] == Some(UdataString())
    ensures InstallAsWritten(GnuProtos(), DW_MACRO_GNU_define, e)[DW_MACRO_GNU_undef - 1] == Some(e)
    ensures Install(GnuProtos(), DW_MACRO_GNU_define, e).value[DW_MACRO_GNU_define - 1] == Some(e)
    ensures Install(GnuProtos(), DW_MACRO_GNU_define, e).value[DW_MACRO_GNU_undef - 1] == Some(UdataString())
  {
  }

  /** The n bytes from p on that lie within data. */
  function Clip(data: seq<byte>, p: nat, n: nat): (r: seq<byte>)
    ensures |r| <= n
    ensures p + n <= |data| ==> r == data[p..p + n]
  {
    if p >= |data| then [] else data[p..Min(p + n, |data|)]
  }

  /** One entry of an opcode_operands_table: the opcode, its prototype and
      the position after the entry. */
  datatype TableEntry = TableEntry(opcode: byte, proto: Proto, next: nat)

  /** The entry at p: an opcode byte, a ULEB128 number of forms (kept in an
      8-bit nforms) and the forms. The demand on the forms is not checked, as
      in the source: forms running past the data are not an error. */
  function Entry(data: seq<byte>, p: nat, prims: Primitives): (e: TableEntry)
    requires p < |data|
    ensures e.next > p && e.opcode == data[p]
  {
    var n := prims.uleb128(data, p + 1);
    var nforms := n.0 % 256;
    var q := p + 1 + n.1;
    TableEntry(data[p], Proto(Clip(data, q, nforms)), q + nforms)
  }

  /** One entry of the opcode_operands_table at p installed into ps: the new
      prototypes and the position after the entry, or None when the opcode
      byte is missing or is 0. */
  function TableStep(data: seq<byte>, p: nat, ps: Protos, prims: Primitives): (r: Option<(Protos, nat)>)
    requires |ps| == OPCODES
    ensures r.Some? ==> |r.value.0| == OPCODES && r.value.1 > p
  {
    if !Demand(1, p, |data|) then None
    else
      var e := Entry(data, p, prims);
      match Install(ps, e.opcode, e.proto)
      case None => None
      case Some(ps') => Some((ps', e.next))
  }

  /** The opcode_operands_table: count entries from p. Returns the prototypes
      and the position after the table. */
  function OperandTable(data: seq<byte>, p: nat, count: nat, ps: Protos, prims: Primitives)
    : (r: Result<(Protos, nat), MacroError>)
    requires |ps| == OPCODES
    ensures r.Success? ==> |r.value.0| == OPCODES && r.value.1 >= p + count
    ensures r.Failure? ==> r.error == InvalidDwarf
    decreases count
  {
    if count == 0 then Success((ps, p))
    else
      match TableStep(data, p, ps, prims)
      case None => Failure(InvalidDwarf)
      case Some((ps', q)) => OperandTable(data, q, count - 1, ps', prims)
  }

  /** A table of count > 0 entries is its first entry, then the rest. */
  lemma OperandTableStep(data: seq<byte>, p: nat, count: nat, ps: Protos, prims: Primitives)
    requires |ps| == OPCODES && count > 0
    ensures TableStep(data, p, ps, prims).None? ==> OperandTable(data, p, count, ps, prims) == Failure(InvalidDwarf)
    ensures var s := TableStep(data, p, ps, prims);
      s.Some? ==> OperandTable(data, p, count, ps, prims) == OperandTable(data, s.value.1, count - 1, s.value.0, prims)
  {
  }

  /** A table of one entry with a non-zero opcode gives that opcode the
      entry's prototype, keeps every other slot, and ends after the entry. */
  lemma OperandTableOne(data: seq<byte>, p: nat, ps: Protos, prims: Primitives)
    requires |ps| == OPCODES && p < |data| && data[p] != 0
    ensures var e := Entry(data, p, prims);
      OperandTable(data, p, 1, ps, prims) == Success((ps[data[p] - 1 := Some(e.proto)], e.next))
  {
    var e := Entry(data, p, prims);
    OperandTableStep(data, p, 1, ps, prims);
    assert TableStep(data, p, ps, prims) == Some((ps[data[p] - 1 := Some(e.proto)], e.next));
  }

  /** The table only adds or replaces prototypes: a slot either keeps its
      prototype or gets one from an entry, so no opcode loses its prototype;
      a malformed table fails only with INVALID_DWARF. */
  lemma {:induction false} OperandTableKeeps(data: seq<byte>, p: nat, count: nat, ps: Protos, prims: Primitives)
    requires |ps| == OPCODES
    ensures var r := OperandTable(data, p, count, ps, prims);
      r.Success? ==> forall i :: 0 <= i < OPCODES ==> r.value.0[i] == ps[i] || r.value.0[i].Some?
    decreases count
  {
    if count > 0 {
      OperandTableStep(data, p, count, ps, prims);
      match TableStep(data, p, ps, prims)
      case None =>
      case Some((ps', q)) =>
        var e := Entry(data, p, prims);
        assert ps' == ps[e.opcode - 1 := Some(e.proto)];
        OperandTableKeeps(data, q, count - 1, ps', prims);
    }
  }

  /** The reads of one table entry in get_table_for_offset. */
  method ReadEntry(data: seq<byte>, p: nat, prims: Primitives) returns (e: TableEntry)
    requires p < |data|
    ensures e == Entry(data, p, prims)
  {
    var readp := p;
    var opcode := data[readp];
    readp := readp + 1;
    var n := prims.uleb128(data, readp);
    readp := readp + n.1;
    var nforms := n.0 % 256;
    var forms := Clip(data, readp, nforms);
    readp := readp + nforms;
    e := TableEntry(opcode, Proto(forms), readp);
  }

  /** What the header gives a new opcode table. */
  datatype Header = Header(version: nat, is64bit: bool, lineOffset: nat, protos: Protos, headerLen: nat)

  function LineOffsetWidth(flags: byte): nat
  {
    if flags % 2 == 1 then 8 else 4
  }

  /** The header fields after the flags byte at macoff + 2. */
  function ParseFlags(data: seq<byte>, macoff: nat, flags: byte, prims: Primitives): (r: Result<Header, MacroError>)
  {
    var p := macoff + 3;
    var w := LineOffsetWidth(flags);
    if (flags / 2) % 2 == 1 && !Demand(w, p, |data|) then Failure(InvalidDwarf)
    else
      var lineOffset := if (flags / 2) % 2 == 1 then prims.readUnsigned(data, p, w) % ADDRESS_SPACE else NO_LINE_OFFSET;
      var p2 := if (flags / 2) % 2 == 1 then p + w else p;
      FinishHeader(flags % 2 == 1, lineOffset, macoff, TableOf(data, p2, flags, prims))
  }

  /** The prototypes after the header's table, if the flags say it has one,
      and the position after it. */
  function TableOf(data: seq<byte>, p: nat, flags: byte, prims: Primitives): (r: Result<(Protos, nat), MacroError>)
    ensures r.Success? ==> |r.value.0| == OPCODES && r.value.1 >= p
  {
    if (flags / 4) % 2 == 0 then Success((GnuProtos(), p))
    else if !Demand(1, p, |data|) then Failure(InvalidDwarf)
    else OperandTable(data, p + 1, data[p], GnuProtos(), prims)
  }

  /** The header, once at most 0xfe prototypes are known to be present. */
  function FinishHeader(is64bit: bool, lineOffset: nat, macoff: nat, t: Result<(Protos, nat), MacroError>)
    : (r: Result<Header, MacroError>)
    requires t.Success? ==> |t.value.0| == OPCODES && t.value.1 >= macoff
  {
    match t
    case Failure(e) => Failure(e)
    case Success(t) =>
      if |Present(t.0)| >= NOT_PRESENT then Failure(TooManyOpcodes)
      else Success(Header(4, is64bit, lineOffset, t.0, t.1 - macoff))
  }

  /** The header of a .debug_macro unit at macoff: a 2-byte version, which must
      be 4, a flags byte, then as the flags say a line offset and an
      opcode_operands_table. */
  function ParseHeader(data: seq<byte>, macoff: nat, prims: Primitives): (r: Result<Header, MacroError>)
    ensures r == Failure(InvalidVersion)
      <==> Demand(2, macoff, |data|) && prims.readUnsigned(data, macoff, 2) % 0x10000 != 4
    ensures r.Success? ==> r.value.version == 4 && |r.value.protos| == OPCODES
    ensures r.Success? ==> |Present(r.value.protos)| < NOT_PRESENT && r.value.headerLen >= 3
    ensures r.Success? ==> macoff + 2 < |data| && r.value.is64bit == (data[macoff + 2] % 2 == 1)
    ensures r.Success? && (data[macoff + 2] / 2) % 2 == 0 ==> r.value.lineOffset == NO_LINE_OFFSET
    ensures r.Success? && (data[macoff + 2] / 2) % 2 == 1 ==>
      r.value.lineOffset == prims.readUnsigned(data, macoff + 3, LineOffsetWidth(data[macoff + 2])) % ADDRESS_SPACE
      && r.value.headerLen >= 3 + LineOffsetWidth(data[macoff + 2])
    ensures r.Success? && (data[macoff + 2] / 4) % 2 == 0 ==>
      r.value.protos == GnuProtos()
      && r.value.headerLen == 3 + (if (data[macoff + 2] / 2) % 2 == 1 then LineOffsetWidth(data[macoff + 2]) else 0)
  {
    if !Demand(2, macoff, |data|) then Failure(InvalidDwarf)
    else if prims.readUnsigned(data, macoff, 2) % 0x10000 != 4 then Failure(InvalidVersion)
    else if !Demand(1, macoff + 2, |data|) then Failure(InvalidDwarf)
    else ParseFlags(data, macoff, data[macoff + 2], prims)
  }

  /** With flag bit 2, the fields after the flags byte end with the
      opcode_operands_table, whose count byte follows the line offset. */
  lemma FlagsTable(data: seq<byte>, macoff: nat, flags: byte, prims: Primitives)
    requires ParseFlags(data, macoff, flags, prims).Success? && (flags / 4) % 2 == 1
    ensures var h := ParseFlags(data, macoff, flags, prims).value;
      var p := macoff + 3 + (if (flags / 2) % 2 == 1 then LineOffsetWidth(flags) else 0);
      && p < |data|
      && OperandTable(data, p + 1, data[p], GnuProtos(), prims) == Success((h.protos, macoff + h.headerLen))
  {
    var p := macoff + 3 + (if (flags / 2) % 2 == 1 then LineOffsetWidth(flags) else 0);
    var t := TableOf(data, p, flags, prims);
    assert t.Success?;
    assert p < |data| && t == OperandTable(data, p + 1, data[p], GnuProtos(), prims);
  }

  /** With flag bit 2, a header's prototypes are those the
      opcode_operands_table makes of the GNU ones: its count byte follows the
      line offset, and the header ends where the table ends. */
  lemma HeaderTable(data: seq<byte>, macoff: nat, prims: Primitives)
    requires ParseHeader(data, macoff, prims).Success? && (data[macoff + 2] / 4) % 2 == 1
    ensures var h := ParseHeader(data, macoff, prims).value;
      var p := macoff + 3 + (if (data[macoff + 2] / 2) % 2 == 1 then LineOffsetWidth(data[macoff + 2]) else 0);
      && p < |data|
      && OperandTable(data, p + 1, data[p], GnuProtos(), prims) == Success((h.protos, macoff + h.headerLen))
  {
    assert ParseHeader(data, macoff, prims) == ParseFlags(data, macoff, data[macoff + 2], prims);
    FlagsTable(data, macoff, data[macoff + 2], prims);
  }

  /** The header part of get_table_for_offset up to the flags byte. */
  method ReadHeader(data: seq<byte>, macoff: nat, prims: Primitives) returns (r: Result<Header, MacroError>)
    ensures r == ParseHeader(data, macoff, prims)
  {
    var readp := macoff;
    if !Demand(2, readp, |data|) {
      return Failure(InvalidDwarf);
    }
    var version := prims.readUnsigned(data, readp, 2) % 0x10000;
    readp := readp + 2;
    if version != 4 {
      return Failure(InvalidVersion);
    }
    if !Demand(1, readp, |data|) {
      return Failure(InvalidDwarf);
    }
    r := ReadFlags(data, macoff, data[readp], prims);
  }

  /** The rest of the header: the line offset, the table entries, the count
      of prototypes and the table's fields. */
  method ReadFlags(data: seq<byte>, macoff: nat, flags: byte, prims: Primitives) returns (r: Result<Header, MacroError>)
    ensures r == ParseFlags(data, macoff, flags, prims)
  {
    var readp: nat := macoff + 3;
    var is64bit := flags % 2 == 1;
    var lineOffset := NO_LINE_OFFSET;
    if (flags / 2) % 2 == 1 {
      var w := if is64bit then 8 else 4;
      if !Demand(w, readp, |data|) {
        return Failure(InvalidDwarf);
      }
      lineOffset := prims.readUnsigned(data, readp, w) % ADDRESS_SPACE;
      readp := readp + w;
    }
    var table := ReadTableOf(data, readp, flags, prims);
    r := ReadFinish(is64bit, lineOffset, macoff, table);
  }

  method ReadTableOf(data: seq<byte>, p: nat, flags: byte, prims: Primitives) returns (r: Result<(Protos, nat), MacroError>)
    ensures r == TableOf(data, p, flags, prims)
  {
    if (flags / 4) % 2 == 0 {
      return Success((GnuProtos(), p));
    }
    if !Demand(1, p, |data|) {
      return Failure(InvalidDwarf);
    }
    r := ReadOperandTable(data, p + 1, data[p], GnuProtos(), prims);
  }

  method ReadFinish(is64bit: bool, lineOffset: nat, macoff: nat, t: Result<(Protos, nat), MacroError>)
    returns (r: Result<Header, MacroError>)
    requires t.Success? ==> |t.value.0| == OPCODES && t.value.1 >= macoff
    ensures r == FinishHeader(is64bit, lineOffset, macoff, t)
  {
    if t.Failure? {
      return Failure(t.error);
    }
    var ct := CountPresent(t.value.0);
    if ct >= NOT_PRESENT {
      return Failure(TooManyOpcodes);
    }
    return Success(Header(4, is64bit, lineOffset, t.value.0, t.value.1 - macoff));
  }

  /** The loop over the opcode_operands_table's entries. */
  method ReadOperandTable(data: seq<byte>, p: nat, count: nat, ps0: Protos, prims: Primitives)
    returns (r: Result<(Protos, nat), MacroError>)
    requires |ps0| == OPCODES
    ensures r == OperandTable(data, p, count, ps0, prims)
  {
    var ps := ps0;
    var readp: nat := p;
    var left := count;
    ghost var goal := OperandTable(data, p, count, ps0, prims);
    while left > 0
      invariant |ps| == OPCODES
      invariant goal == OperandTable(data, readp, left, ps, prims)
    {
      var step := ReadTableEntry(data, readp, ps, prims);
      OperandTableStep(data, readp, left, ps, prims);
      if step.None? {
        return Failure(InvalidDwarf);
      }
      ps, readp, left := step.value.0, step.value.1, left - 1;
    }
    return Success((ps, readp));
  }

  /** One iteration of that loop: the entry at p installed, or None. */
  method ReadTableEntry(data: seq<byte>, p: nat, ps: Protos, prims: Primitives)
    returns (r: Option<(Protos, nat)>)
    requires |ps| == OPCODES
    ensures r == TableStep(data, p, ps, prims)
  {
    if !Demand(1, p, |data|) {
      return None;
    }
    var e := ReadEntry(data, p, prims);
    if e.opcode == 0 {
      return None;
    }
    return Some((ps[e.opcode - 1 := Some(e.proto)], e.next));
  }

  /** The loop counting the prototypes present. */
  method CountPresent(ps: Protos) returns (ct: nat)
    requires |ps| == OPCODES
    ensures ct == |Present(ps)|
  {
    ct := 0;
    for i := 1 to OPCODES + 1
      invariant ct == |Present(ps[..i - 1])|
    {
      PresentStep(ps, i - 1);
      if ps[i - 1].Some? {
        ct := ct + 1;
      }
    }
    assert ps[..OPCODES] == ps;
  }

  /** The table get_table_for_offset builds from a header. */
  function NewInfo(h: Header): (t: TableInfo)
    requires |h.protos| == OPCODES && |Present(h.protos)| < NOT_PRESENT
    ensures TableOk(t)
  {
    var t := TableInfo(h.lineOffset, h.version, h.is64bit, h.headerLen, Slots(h.protos), Present(h.protos));
    assert forall j :: 0 <= j < OPCODES ==> t.opcodes[j] == NOT_PRESENT || t.opcodes[j] < |t.protos| by {
      forall j | 0 <= j < OPCODES ensures t.opcodes[j] == NOT_PRESENT || t.opcodes[j] < |t.protos| {
        SlotLookup(h.protos, j);
      }
    }
    t
  }

  /** get_macinfo_table: the zero-filled table built from the DW_MACINFO_*
      prototypes. */
  function MacinfoInfo(): (t: TableInfo)
    ensures TableOk(t)
  {
    PresentMissing(MacinfoProtos(), 5);
    NewInfo(Header(0, false, 0, MacinfoProtos(), 0))
  }

  // ---------------------------------------------------------------------
  // The table cache (dbg->macro_ops)

  /** What a cached table holds: its offset, its read mark and its table. */
  datatype CachedTable = CachedTable(offset: nat, read: nat, info: TableInfo)

  ghost predicate CacheOk(cache: seq<CachedTable>)
  {
    forall i :: 0 <= i < |cache| ==> TableOk(cache[i].info)
  }

  /** tfind with macro_op_compare, over the tables in the order they were
      added: the first table from i on whose range holds key. */
  function FindFrom(cache: seq<CachedTable>, key: nat, i: nat): (r: Option<nat>)
    ensures r.Some? ==> i <= r.value < |cache| && Compare(key, cache[r.value].offset, cache[r.value].read) == 0
    ensures r.Some? ==> forall j :: i <= j < r.value ==> Compare(key, cache[j].offset, cache[j].read) != 0
    ensures r.None? ==> forall j :: i <= j < |cache| ==> Compare(key, cache[j].offset, cache[j].read) != 0
    decreases |cache| - i
  {
    if i >= |cache| then None
    else if Compare(key, cache[i].offset, cache[i].read) == 0 then Some(i)
    else FindFrom(cache, key, i + 1)
  }

  /** get_table_for_offset: the index of the table used for key and its
      contents; a table not yet cached gets index |cache|. */
  ghost function Lookup(cache: seq<CachedTable>, data: seq<byte>, key: nat, prims: Primitives)
    : (r: Result<(nat, CachedTable), MacroError>)
    requires CacheOk(cache)
    ensures r.Success? ==> r.value.0 <= |cache| && TableOk(r.value.1.info) && r.value.1.offset <= key
    ensures r.Success? && r.value.0 < |cache| ==> r.value.1 == cache[r.value.0]
    ensures r.Success? ==> (r.value.0 < |cache| <==> FindFrom(cache, key, 0).Some?)
    ensures r.Success? && r.value.0 < |cache| ==> r.value.0 == FindFrom(cache, key, 0).value
    ensures r.Success? && r.value.0 == |cache| ==>
      && ParseHeader(data, key, prims).Success?
      && r.value.1 == CachedTable(key, 0, NewInfo(ParseHeader(data, key, prims).value))
    ensures r.Failure? ==> FindFrom(cache, key, 0).None? && ParseHeader(data, key, prims) == Failure(r.error)
  {
    match FindFrom(cache, key, 0)
    case Some(j) => Success((j, cache[j]))
    case None =>
      match ParseHeader(data, key, prims)
      case Failure(e) => Failure(e)
      case Success(h) => Success((|cache|, CachedTable(key, 0, NewInfo(h))))
  }

  /** read_macros' result: 0, -1, or the token of the resume position, the
      address base + q as a ptrdiff_t. */
  function Ret(base: nat, e: ReadEnd): int
  {
    match e
    case Finished => 0
    case BadOpcode => -1
    case Paused(q) => ToSigned((base + q) % ADDRESS_SPACE)
  }

  /** A 64-bit address as a two's-complement ptrdiff_t. */
  function ToSigned(a: nat): int
  {
    if a >= ADDRESS_SPACE / 2 then a - ADDRESS_SPACE else a
  }

  /** comes_from: the position in sec of the address a token holds, if the
      address is not NULL and lies within the section, its end included. */
  function ComesFrom(sec: Option<SectionData>, token: int): (r: Option<nat>)
    ensures r.Some? <==> (sec.Some? && token % ADDRESS_SPACE != 0
                          && sec.value.base <= token % ADDRESS_SPACE <= sec.value.base + |sec.value.bytes|)
    ensures r.Some? ==> r.value <= |sec.value.bytes| && sec.value.base + r.value == token % ADDRESS_SPACE
  {
    if sec.None? then None
    else
      var addr := token % ADDRESS_SPACE;
      if addr == 0 || addr < sec.value.base || addr > sec.value.base + |sec.value.bytes| then None
      else Some(addr - sec.value.base)
  }

  /** A resume token names the position it was made from, and is neither 0
      nor -1, for a section whose addresses are neither NULL nor the last one. */
  lemma ResumeTokenRoundTrip(sec: SectionData, q: nat)
    requires 0 < sec.base && sec.base + |sec.bytes| < ADDRESS_SPACE - 1 && q <= |sec.bytes|
    ensures ComesFrom(Some(sec), Ret(sec.base, Paused(q))) == Some(q)
    ensures Ret(sec.base, Paused(q)) != 0 && Ret(sec.base, Paused(q)) != -1
  {
  }

  /** Reading a .debug_macro unit through the table get_table_for_offset
      finds or makes for key, from the header's end (skip) or from key: the
      result and the cache afterwards. */
  ghost function MacroRun(cache: seq<CachedTable>, sec: SectionData, key: nat, skip: bool,
                          prims: Primitives, cb: Macro -> bool): (int, seq<CachedTable>)
    requires CacheOk(cache)
  {
    match Lookup(cache, sec.bytes, key, prims)
    case Failure(_) => (-1, cache)
    case Success((j, c)) => RunAt(if j < |cache| then cache else cache + [c], j, sec, key, skip, prims, cb)
  }

  /** read_macros through the j-th cached table: the result, and the cache
      with that table's read mark raised. */
  function RunAt(cache: seq<CachedTable>, j: nat, sec: SectionData, key: nat, skip: bool,
                 prims: Primitives, cb: Macro -> bool): (int, seq<CachedTable>)
    requires j < |cache| && TableOk(cache[j].info)
  {
    var c := cache[j];
    var w := Walk(sec.bytes, c.info, if skip then key + c.info.headerLen else key, prims, cb);
    (Ret(sec.base, w.end), cache[j := c.(read := Mark(c.offset, c.read, w.top))])
  }

  /** dwarf_getmacros_addr on the cache and the .debug_macro section. */
  ghost function AddrSpec(cache: seq<CachedTable>, macro: Option<SectionData>, offset: nat,
                          prims: Primitives, cb: Macro -> bool): (int, seq<CachedTable>)
    requires CacheOk(cache)
  {
    if macro.None? then (-1, cache) else MacroRun(cache, macro.value, offset, true, prims, cb)
  }

  /** read_macros over .debug_macinfo with the macinfo table, from pos: the
      result and the table's read mark afterwards. */
  function MacinfoRun(sec: SectionData, mread: nat, pos: nat, prims: Primitives, cb: Macro -> bool): (int, nat)
  {
    var w := Walk(sec.bytes, MacinfoInfo(), pos, prims, cb);
    (Ret(sec.base, w.end), Mark(0, mread, w.top))
  }

  /** dwarf_getmacros_next: the token is tried as a .debug_macro address,
      then as a .debug_macinfo one; reading resumes at the address itself. */
  ghost function NextSpec(cache: seq<CachedTable>, macro: Option<SectionData>, macinfo: Option<SectionData>,
                          mread: nat, token: int, prims: Primitives, cb: Macro -> bool): (int, seq<CachedTable>, nat)
    requires CacheOk(cache)
  {
    match ComesFrom(macro, token)
    case Some(pos) =>
      var run := MacroRun(cache, macro.value, pos, false, prims, cb);
      (run.0, run.1, mread)
    case None =>
      match ComesFrom(macinfo, token)
      case Some(pos) =>
        var run := MacinfoRun(macinfo.value, mread, pos, prims, cb);
        (run.0, cache, run.1)
      case None => (-1, cache, mread)
  }

  /** An attribute of a compile unit's entry, as get_offset_from sees it:
      absent, without an unsigned value, or an offset. */
  datatype AttrValue = Absent | Unreadable | Offset(off: nat)

  /** The two attributes of a compile unit's entry that locate its macros. */
  datatype CuDie = CuDie(gnuMacros: AttrValue, macroInfo: AttrValue)

  /** old_style_data: the entry has DW_AT_macro_info and .debug_macinfo has
      data, with a non-NULL buffer. */
  predicate OldStyle(die: CuDie, macinfo: Option<SectionData>)
  {
    !die.macroInfo.Absent? && macinfo.Some? && macinfo.value.base != 0
  }

  /** dwarf_getmacros_die: DW_AT_GNU_macros takes precedence and goes through
      dwarf_getmacros_addr; otherwise DW_AT_macro_info with the macinfo table. */
  ghost function DieSpec(cache: seq<CachedTable>, macro: Option<SectionData>, macinfo: Option<SectionData>,
                         mread: nat, die: Option<CuDie>, prims: Primitives, cb: Macro -> bool): (int, seq<CachedTable>, nat)
    requires CacheOk(cache)
  {
    if die.None? then (-1, cache, mread)
    else if die.value.gnuMacros.Offset? then
      var run := AddrSpec(cache, macro, die.value.gnuMacros.off, prims, cb);
      (run.0, run.1, mread)
    else if die.value.gnuMacros.Unreadable? || !OldStyle(die.value, macinfo) || !die.value.macroInfo.Offset? then
      (-1, cache, mread)
    else
      var run := MacinfoRun(macinfo.value, mread, die.value.macroInfo.off, prims, cb);
      (run.0, cache, run.1)
  }

  /** dwarf_getmacros: only for entries with old-style data; token 0 starts
      at the entry, any other resumes. */
  ghost function GetMacrosSpec(cache: seq<CachedTable>, macro: Option<SectionData>, macinfo: Option<SectionData>,
                               mread: nat, die: Option<CuDie>, token: int, prims: Primitives, cb: Macro -> bool)
    : (int, seq<CachedTable>, nat)
    requires CacheOk(cache)
  {
    if die.None? || !OldStyle(die.value, macinfo) then (-1, cache, mread)
    else if token == 0 then DieSpec(cache, macro, macinfo, mread, die, prims, cb)
    else NextSpec(cache, macro, macinfo, mread, token, prims, cb)
  }

  /** A token is taken from .debug_macro when it lies there, even if it also
      lies in .debug_macinfo; a token from neither gives -1 and changes
      nothing. */
  lemma NextDispatch(cache: seq<CachedTable>, macro: Option<SectionData>, macinfo: Option<SectionData>,
                     mread: nat, token: int, prims: Primitives, cb: Macro -> bool)
    requires CacheOk(cache)
    ensures ComesFrom(macro, token).Some? ==>
      NextSpec(cache, macro, macinfo, mread, token, prims, cb).2 == mread
      && NextSpec(cache, macro, macinfo, mread, token, prims, cb).0
         == MacroRun(cache, macro.value, ComesFrom(macro, token).value, false, prims, cb).0
    ensures ComesFrom(macro, token).None? && ComesFrom(macinfo, token).None? ==>
      NextSpec(cache, macro, macinfo, mread, token, prims, cb) == (-1, cache, mread)
    ensures token == 0 ==> NextSpec(cache, macro, macinfo, mread, token, prims, cb) == (-1, cache, mread)
  {
  }

  /** A macro table found by its key covers every position read through it,
      once the read mark has been raised to where reading stopped. */
  lemma MarkCovers(cache: seq<CachedTable>, j: nat, c: CachedTable, top: nat)
    requires j < |cache| && cache[j] == c.(read := Mark(c.offset, c.read, top)) && c.offset < top
    ensures FindFrom(cache, top, 0).Some? && FindFrom(cache, top, 0).value <= j
  {
    assert Compare(top, cache[j].offset, cache[j].read) == 0;
  }

  /** dwarf_getmacros_addr stopped by its callback returns a token that
      dwarf_getmacros_next accepts and resolves to a cached table, without
      reading a header; when that table is the one the first call used (the
      first cached table covering the token), resuming with a callback that
      accepts the macros already seen reports exactly what one uninterrupted
      pass with it reports. */
  lemma AddrThenNext(cache: seq<CachedTable>, j: nat, c: CachedTable, macro: SectionData, macinfo: Option<SectionData>,
                     mread: nat, offset: nat, prims: Primitives, cb: Macro -> bool, cb2: Macro -> bool)
    requires CacheOk(cache) && 0 < macro.base && macro.base + |macro.bytes| < ADDRESS_SPACE - 1
    requires Lookup(cache, macro.bytes, offset, prims) == Success((j, c))
    requires Walk(macro.bytes, c.info, offset + c.info.headerLen, prims, cb).end.Paused?
    requires Walk(macro.bytes, c.info, offset + c.info.headerLen, prims, cb).end.pos <= |macro.bytes|
    ensures CacheOk(MacroRun(cache, macro, offset, true, prims, cb).1)
    ensures ComesFrom(Some(macro), MacroRun(cache, macro, offset, true, prims, cb).0)
      == Some(Walk(macro.bytes, c.info, offset + c.info.headerLen, prims, cb).end.pos)
    ensures FindFrom(MacroRun(cache, macro, offset, true, prims, cb).1,
                     Walk(macro.bytes, c.info, offset + c.info.headerLen, prims, cb).end.pos, 0).Some?
    ensures FindFrom(MacroRun(cache, macro, offset, true, prims, cb).1,
                     Walk(macro.bytes, c.info, offset + c.info.headerLen, prims, cb).end.pos, 0) == Some(j)
            && (forall m :: m in Walk(macro.bytes, c.info, offset + c.info.headerLen, prims, cb).macros ==> cb2(m))
      ==> NextSpec(MacroRun(cache, macro, offset, true, prims, cb).1, Some(macro), macinfo, mread,
                   MacroRun(cache, macro, offset, true, prims, cb).0, prims, cb2).0
          == Ret(macro.base, Walk(macro.bytes, c.info, offset + c.info.headerLen, prims, cb2).end)
  {
    var run := MacroRun(cache, macro, offset, true, prims, cb);
    AddrRun(cache, j, c, macro, offset, prims, cb);
    PauseThenResume(run.1, j, c, macro, macinfo, mread, run.0, offset, prims, cb, cb2);
  }

  /** dwarf_getmacros_addr through the table Lookup gives: the result of the
      walk from the header's end, and the cache with that table's mark raised. */
  lemma AddrRun(cache: seq<CachedTable>, j: nat, c: CachedTable, macro: SectionData, offset: nat,
                prims: Primitives, cb: Macro -> bool)
    requires CacheOk(cache)
    requires Lookup(cache, macro.bytes, offset, prims) == Success((j, c))
    ensures var run := MacroRun(cache, macro, offset, true, prims, cb);
      var w := Walk(macro.bytes, c.info, offset + c.info.headerLen, prims, cb);
      run.0 == Ret(macro.base, w.end)
      && CacheOk(run.1) && j < |run.1| && run.1[j] == c.(read := Mark(c.offset, c.read, w.top))
  {
    assert MacroRun(cache, macro, offset, true, prims, cb)
      == RunAt(if j < |cache| then cache else cache + [c], j, macro, offset, true, prims, cb);
    CachedRun(cache, j, c, macro, offset, prims, cb);
  }

  /** After a pause through the j-th table, whose mark now covers the pause:
      the token resolves to a cached table, and resuming through table j
      continues the pass. */
  lemma PauseThenResume(cache: seq<CachedTable>, j: nat, c: CachedTable, macro: SectionData,
                        macinfo: Option<SectionData>, mread: nat, token: int, offset: nat,
                        prims: Primitives, cb: Macro -> bool, cb2: Macro -> bool)
    requires 0 < macro.base && macro.base + |macro.bytes| < ADDRESS_SPACE - 1
    requires TableOk(c.info) && c.offset <= offset
    requires var w := Walk(macro.bytes, c.info, offset + c.info.headerLen, prims, cb);
      w.end.Paused? && w.end.pos <= |macro.bytes| && token == Ret(macro.base, w.end)
      && CacheOk(cache) && j < |cache| && cache[j] == c.(read := Mark(c.offset, c.read, w.top))
    ensures var w := Walk(macro.bytes, c.info, offset + c.info.headerLen, prims, cb);
      ComesFrom(Some(macro), token) == Some(w.end.pos) && FindFrom(cache, w.end.pos, 0).Some?
    ensures var w := Walk(macro.bytes, c.info, offset + c.info.headerLen, prims, cb);
      FindFrom(cache, w.end.pos, 0) == Some(j) && (forall m :: m in w.macros ==> cb2(m))
      ==> NextSpec(cache, Some(macro), macinfo, mread, token, prims, cb2).0
          == Ret(macro.base, Walk(macro.bytes, c.info, offset + c.info.headerLen, prims, cb2).end)
  {
    var start := offset + c.info.headerLen;
    var w := Walk(macro.bytes, c.info, start, prims, cb);
    assert start < w.top == w.end.pos;
    ResumeTokenRoundTrip(macro, w.end.pos);
    MarkCovers(cache, j, c, w.top);
    if FindFrom(cache, w.end.pos, 0) == Some(j) && (forall m :: m in w.macros ==> cb2(m)) {
      ResumeFromCache(cache, j, macro, macinfo, mread, token, c.info, start, prims, cb, cb2);
    }
  }

  /** The cache after a run through table j of the cache, or a new one. */
  lemma CachedRun(cache: seq<CachedTable>, j: nat, c: CachedTable, macro: SectionData, offset: nat,
                  prims: Primitives, cb: Macro -> bool)
    requires CacheOk(cache) && TableOk(c.info) && j <= |cache| && (j < |cache| ==> cache[j] == c)
    ensures var cache' := RunAt(if j < |cache| then cache else cache + [c], j, macro, offset, true, prims, cb).1;
      var w := Walk(macro.bytes, c.info, offset + c.info.headerLen, prims, cb);
      CacheOk(cache') && j < |cache'| && cache'[j] == c.(read := Mark(c.offset, c.read, w.top))
  {
    var cache' := RunAt(if j < |cache| then cache else cache + [c], j, macro, offset, true, prims, cb).1;
    forall i | 0 <= i < |cache'| ensures TableOk(cache'[i].info) {
      if i != j { assert cache'[i] == cache[i]; }
    }
  }

  /** dwarf_getmacros_next with a token from a pause, resolved to the table the
      paused pass used, continues that pass. */
  lemma ResumeFromCache(cache: seq<CachedTable>, j: nat, macro: SectionData, macinfo: Option<SectionData>, mread: nat,
                        token: int, info: TableInfo, start: nat, prims: Primitives, cb: Macro -> bool, cb2: Macro -> bool)
    requires CacheOk(cache) && j < |cache| && cache[j].info == info
    requires Walk(macro.bytes, info, start, prims, cb).end.Paused?
    requires var pos := Walk(macro.bytes, info, start, prims, cb).end.pos;
      ComesFrom(Some(macro), token) == Some(pos) && FindFrom(cache, pos, 0) == Some(j)
    requires forall m :: m in Walk(macro.bytes, info, start, prims, cb).macros ==> cb2(m)
    ensures NextSpec(cache, Some(macro), macinfo, mread, token, prims, cb2).0
      == Ret(macro.base, Walk(macro.bytes, info, start, prims, cb2).end)
  {
    var pos := Walk(macro.bytes, info, start, prims, cb).end.pos;
    ResumeContinues(macro.bytes, info, start, prims, cb, cb2);
    assert Lookup(cache, macro.bytes, pos, prims) == Success((j, cache[j]));
    assert NextSpec(cache, Some(macro), macinfo, mread, token, prims, cb2).0
      == RunAt(cache, j, macro, pos, false, prims, cb2).0;
  }

  /** dwarf_getmacros_die: an entry with DW_AT_GNU_macros is read as
      dwarf_getmacros_addr reads its offset (so AddrThenNext applies);
      otherwise an entry with old-style data and a DW_AT_macro_info offset is
      read from there with the macinfo table, and leaves the cache alone;
      anything else gives -1 and changes nothing. */
  lemma DieDispatch(cache: seq<CachedTable>, macro: Option<SectionData>, macinfo: Option<SectionData>,
                    mread: nat, d: CuDie, prims: Primitives, cb: Macro -> bool)
    requires CacheOk(cache)
    ensures d.gnuMacros.Offset? ==>
      var a := AddrSpec(cache, macro, d.gnuMacros.off, prims, cb);
      DieSpec(cache, macro, macinfo, mread, Some(d), prims, cb) == (a.0, a.1, mread)
    ensures d.gnuMacros.Absent? && OldStyle(d, macinfo) && d.macroInfo.Offset? ==>
      var m := MacinfoRun(macinfo.value, mread, d.macroInfo.off, prims, cb);
      DieSpec(cache, macro, macinfo, mread, Some(d), prims, cb) == (m.0, cache, m.1)
    ensures (d.gnuMacros.Unreadable? || (d.gnuMacros.Absent? && !(OldStyle(d, macinfo) && d.macroInfo.Offset?))) ==>
      DieSpec(cache, macro, macinfo, mread, Some(d), prims, cb) == (-1, cache, mread)
  {
  }

  /** dwarf_getmacros refuses an entry without old-style data, even one with
      DW_AT_GNU_macros: -1, and nothing changes. */
  lemma GetMacrosNeedsOldStyle(cache: seq<CachedTable>, macro: Option<SectionData>, macinfo: Option<SectionData>,
                               mread: nat, die: Option<CuDie>, token: int, prims: Primitives, cb: Macro -> bool)
    requires CacheOk(cache) && (die.None? || !OldStyle(die.value, macinfo))
    ensures GetMacrosSpec(cache, macro, macinfo, mread, die, token, prims, cb) == (-1, cache, mread)
  {
  }

  /** A token dwarf_getmacros (die, cb, arg, 0) returns for a pause in
      .debug_macinfo, passed back with a callback that accepts what the first
      pass saw, continues that pass: together the two calls give what one
      uninterrupted pass gives. The sections' address ranges are disjoint. */
  lemma GetMacrosResumes(cache: seq<CachedTable>, macro: Option<SectionData>, macinfo: SectionData,
                         mread: nat, d: CuDie, prims: Primitives, cb: Macro -> bool, cb2: Macro -> bool)
    requires CacheOk(cache)
    requires d.gnuMacros.Absent? && d.macroInfo.Offset? && OldStyle(d, Some(macinfo))
    requires 0 < macinfo.base && macinfo.base + |macinfo.bytes| < ADDRESS_SPACE - 1
    requires macro.Some? ==>
      macro.value.base + |macro.value.bytes| < macinfo.base || macinfo.base + |macinfo.bytes| < macro.value.base
    requires var w := Walk(macinfo.bytes, MacinfoInfo(), d.macroInfo.off, prims, cb);
      && w.end.Paused? && w.end.pos <= |macinfo.bytes|
      && forall m :: m in w.macros ==> cb2(m)
    ensures var first := GetMacrosSpec(cache, macro, Some(macinfo), mread, Some(d), 0, prims, cb);
      && first.1 == cache
      && GetMacrosSpec(first.1, macro, Some(macinfo), first.2, Some(d), first.0, prims, cb2).0
         == Ret(macinfo.base, Walk(macinfo.bytes, MacinfoInfo(), d.macroInfo.off, prims, cb2).end)
  {
    var off := d.macroInfo.off;
    var w := Walk(macinfo.bytes, MacinfoInfo(), off, prims, cb);
    var first := GetMacrosSpec(cache, macro, Some(macinfo), mread, Some(d), 0, prims, cb);
    assert first == (Ret(macinfo.base, w.end), cache, Mark(0, mread, w.top));
    var token := first.0;
    ResumeTokenRoundTrip(macinfo, w.end.pos);
    assert ComesFrom(macro, token).None?;
    ResumeContinues(macinfo.bytes, MacinfoInfo(), off, prims, cb, cb2);
    assert GetMacrosSpec(first.1, macro, Some(macinfo), first.2, Some(d), token, prims, cb2).0
      == MacinfoRun(macinfo, first.2, w.end.pos, prims, cb2).0;
  }

  /** A section's buffer and bytes. */
  class MacroData {
    /** sectiondata[IDX_debug_macro] and sectiondata[IDX_debug_macinfo]. */
    const macro: Option<SectionData>
    const macinfo: Option<SectionData>
    /** dbg->macro_ops, in the order the tables were added. */
    var tables: seq<MacroOpTable>

    ghost function Arrays(): set<array<byte>>
      reads this
    {
      set t | t in tables :: t.opcodes
    }

    /** What the cached tables hold, in order. */
    ghost var cache: seq<CachedTable>

    /** cache is what the tables hold; every cached table is valid, and none
        is cached twice. */
    ghost predicate Valid()
      reads this, tables, Arrays()
    {
      && |cache| == |tables| && CacheOk(cache)
      && (forall i :: 0 <= i < |tables| ==> cache[i] == Snapshot(tables[i]))
      && (forall i, j :: 0 <= i < j < |tables| ==> tables[i] != tables[j])
    }

    constructor (macro: Option<SectionData>, macinfo: Option<SectionData>)
      ensures this.macro == macro && this.macinfo == macinfo && tables == [] && cache == []
      ensures Valid()
    {
      this.macro := macro;
      this.macinfo := macinfo;
      tables := [];
      cache := [];
    }

    /** get_table_for_offset: the first cached table whose range holds
        macoff, or else a new table from the header at macoff, cached. */
    method GetTableForOffset(data: seq<byte>, macoff: nat, prims: Primitives)
      returns (r: Result<MacroOpTable, MacroError>, ghost j: nat)
      requires Valid()
      modifies this
      ensures Valid()
      ensures var l := Lookup(old(cache), data, macoff, prims);
        && (l.Failure? ==> r == Failure(l.error) && tables == old(tables) && cache == old(cache))
        && (l.Success? ==>
              && r.Success? && j == l.value.0 < |tables| && tables[j] == r.value
              && tables == (if j < |old(tables)| then old(tables) else old(tables) + [r.value])
              && (j == |old(tables)| ==> fresh(r.value))
              && cache == (if j < |old(tables)| then old(cache) else old(cache) + [l.value.1]))
    {
      ghost var l := Lookup(cache, data, macoff, prims);
      var found := FindTable(macoff);
      if found.Some? {
        assert l == Success((found.value, cache[found.value]));
        return Success(tables[found.value]), found.value;
      }
      var h := ReadHeader(data, macoff, prims);
      if h.Failure? {
        assert l == Failure(h.error);
        return Failure(h.error), 0;
      }
      assert l == Success((|tables|, CachedTable(macoff, 0, NewInfo(h.value))));
      var t := AddTable(macoff, h.value);
      r, j := Success(t), |tables| - 1;
    }

    /** The tfind of get_table_for_offset. */
    method FindTable(macoff: nat) returns (r: Option<nat>)
      requires Valid()
      ensures r == FindFrom(cache, macoff, 0)
    {
      var i := 0;
      while i < |tables|
        invariant 0 <= i <= |tables|
        invariant FindFrom(cache, macoff, 0) == FindFrom(cache, macoff, i)
      {
        if Compare(macoff, tables[i].offset, tables[i].read) == 0 {
          return Some(i);
        }
        i := i + 1;
      }
      return None;
    }

    /** A new table from the header h at macoff, built and cached (tsearch). */
    method AddTable(macoff: nat, h: Header) returns (t: MacroOpTable)
      requires Valid() && |h.protos| == OPCODES && |Present(h.protos)| < NOT_PRESENT
      modifies this
      ensures fresh(t) && tables == old(tables) + [t] && Valid()
      ensures Snapshot(t) == CachedTable(macoff, 0, NewInfo(h))
      ensures cache == old(cache) + [Snapshot(t)]
    {
      t := new MacroOpTable(macoff, h.lineOffset, h.headerLen, h.version, h.is64bit);
      t.BuildTable(h.protos);
      assert t.opcodes[..] == Slots(h.protos);
      tables := tables + [t];
      cache := cache + [Snapshot(t)];
    }

    /** get_table_for_offset then read_macros over .debug_macro sec, from
        the header's end (skip) or from key. */
    method RunMacro(sec: SectionData, key: nat, skip: bool, prims: Primitives, cb: Macro -> bool) returns (r: int)
      requires Valid()
      modifies this, set t | t in tables
      ensures Valid()
      ensures (r, cache) == MacroRun(old(cache), sec, key, skip, prims, cb)
      ensures old(tables) <= tables && |tables| <= |old(tables)| + 1 && (|tables| > |old(tables)| ==> fresh(tables[|old(tables)|]))
    {
      var found;
      ghost var j;
      found, j := GetTableForOffset(sec.bytes, key, prims);
      if found.Failure? {
        return -1;
      }
      r := ReadTable(found.value, j, sec, key, skip, prims, cb);
    }

    /** read_macros through the cached table t, the j-th: only its read mark
        changes. */
    method ReadTable(t: MacroOpTable, ghost j: nat, sec: SectionData, key: nat, skip: bool, prims: Primitives, cb: Macro -> bool)
      returns (r: int)
      requires Valid() && j < |tables| && tables[j] == t && t.offset <= key
      modifies this, t
      ensures Valid() && tables == old(tables)
      ensures (r, cache) == RunAt(old(cache), j, sec, key, skip, prims, cb)
    {
      ghost var seen;
      var e;
      e, seen := ReadMacros(sec.bytes, t, if skip then key + t.headerLen else key, prims, cb);
      r := Ret(sec.base, e);
      assert forall i :: 0 <= i < |tables| && i != j ==> tables[i] != t;
      cache := cache[j := Snapshot(t)];
    }

    /** read_macros through the macinfo table, which is not cached: the
        cache does not change. */
    method ReadMacinfoTable(mt: MacroOpTable, sec: SectionData, pos: nat, prims: Primitives, cb: Macro -> bool)
      returns (r: int)
      requires Valid() && MacinfoTable(mt) && mt !in tables
      modifies mt
      ensures Valid() && MacinfoTable(mt) && cache == old(cache)
      ensures (r, mt.read) == MacinfoRun(sec, old(mt.read), pos, prims, cb)
    {
      r := ReadMacinfo(mt, sec, pos, prims, cb);
      assert forall i :: 0 <= i < |tables| ==> tables[i] != mt;
    }

    /** dwarf_getmacros_addr (for a Dwarf that is not NULL). */
    method Addr(offset: nat, prims: Primitives, cb: Macro -> bool) returns (r: int)
      requires Valid()
      modifies this, set t | t in tables
      ensures Valid()
      ensures (r, cache) == AddrSpec(old(cache), macro, offset, prims, cb)
      ensures old(tables) <= tables && |tables| <= |old(tables)| + 1 && (|tables| > |old(tables)| ==> fresh(tables[|old(tables)|]))
    {
      if macro.None? {
        return -1;
      }
      r := RunMacro(macro.value, offset, true, prims, cb);
    }

    /** dwarf_getmacros_next, with mt the macinfo table. */
    method Next(mt: MacroOpTable, token: int, prims: Primitives, cb: Macro -> bool) returns (r: int)
      requires Valid() && MacinfoTable(mt) && mt !in tables
      modifies this, mt, set t | t in tables
      ensures Valid() && MacinfoTable(mt) && mt !in tables
      ensures (r, cache, mt.read) == NextSpec(old(cache), macro, macinfo, old(mt.read), token, prims, cb)
    {
      var pos := ComesFrom(macro, token);
      if pos.Some? {
        r := RunMacro(macro.value, pos.value, false, prims, cb);
        return;
      }
      pos := ComesFrom(macinfo, token);
      if pos.Some? {
        r := ReadMacinfoTable(mt, macinfo.value, pos.value, prims, cb);
        return;
      }
      return -1;
    }

    /** dwarf_getmacros_die, with mt the macinfo table. */
    method DieMacros(mt: MacroOpTable, die: Option<CuDie>, prims: Primitives, cb: Macro -> bool) returns (r: int)
      requires Valid() && MacinfoTable(mt) && mt !in tables
      modifies this, mt, set t | t in tables
      ensures Valid() && MacinfoTable(mt) && mt !in tables
      ensures (r, cache, mt.read) == DieSpec(old(cache), macro, macinfo, old(mt.read), die, prims, cb)
    {
      if die.None? {
        return -1;
      }
      if !die.value.gnuMacros.Absent? {
        if die.value.gnuMacros.Unreadable? {
          return -1;
        }
        r := Addr(die.value.gnuMacros.off, prims, cb);
        return;
      }
      if !OldStyle(die.value, macinfo) {
        return -1;
      }
      if !die.value.macroInfo.Offset? {
        return -1;
      }
      r := ReadMacinfoTable(mt, macinfo.value, die.value.macroInfo.off, prims, cb);
    }

    /** dwarf_getmacros, with mt the macinfo table. */
    method GetMacros(mt: MacroOpTable, die: Option<CuDie>, token: int, prims: Primitives, cb: Macro -> bool)
      returns (r: int)
      requires Valid() && MacinfoTable(mt) && mt !in tables
      modifies this, mt, set t | t in tables
      ensures Valid() && MacinfoTable(mt) && mt !in tables
      ensures (r, cache, mt.read) == GetMacrosSpec(old(cache), macro, macinfo, old(mt.read), die, token, prims, cb)
    {
      if die.None? || !OldStyle(die.value, macinfo) {
        return -1;
      }
      if token == 0 {
        r := DieMacros(mt, die, prims, cb);
      } else {
        r := Next(mt, token, prims, cb);
      }
    }
  }

  /** What a cached table holds now. */
  function Snapshot(t: MacroOpTable): CachedTable
    reads t, t.opcodes
  {
    CachedTable(t.offset, t.read, t.Info())
  }

  /** mt is the macinfo table: built from the DW_MACINFO_* prototypes, all
      other fields zero but the read mark. */
  ghost predicate MacinfoTable(mt: MacroOpTable)
    reads mt, mt.opcodes
  {
    mt.Valid() && mt.Info() == MacinfoInfo() && mt.offset == 0
  }

  /** get_macinfo_table, made once by the caller. */
  method NewMacinfoTable() returns (mt: MacroOpTable)
    ensures fresh(mt) && fresh(mt.opcodes) && MacinfoTable(mt) && mt.read == 0
  {
    mt := new MacroOpTable(0, 0, 0, 0, false);
    PresentMissing(MacinfoProtos(), 5);
    mt.BuildTable(MacinfoProtos());
    assert mt.opcodes[..] == Slots(MacinfoProtos());
  }

  /** read_macros over .debug_macinfo with the macinfo table. */
  method ReadMacinfo(mt: MacroOpTable, sec: SectionData, pos: nat, prims: Primitives, cb: Macro -> bool) returns (r: int)
    requires MacinfoTable(mt)
    modifies mt
    ensures MacinfoTable(mt)
    ensures (r, mt.read) == MacinfoRun(sec, old(mt.read), pos, prims, cb)
  {
    var e, seen := ReadMacros(sec.bytes, mt, pos, prims, cb);
    r := Ret(sec.base, e);
  }

  function Max(a: nat, b: nat): nat
  {
    if a >= b then a else b
  }

  function Min(a: nat, b: nat): nat
  {
    if a <= b then a else b
  }
}
