/**
 * elf32_getchdr: the compression header of a section of an ELFCLASS32 file,
 * either a real Elf32_Chdr (SHF_COMPRESSED, the "Section Compression" part
 * of the System V gABI) or one built from the legacy GNU format ("ZLIB" and
 * an 8-byte big-endian uncompressed size), cached on the section with a
 * marker for "not compressed".
 */
module Getchdr {
  import opened Wrappers

  /** sh_flags bits and the sh_type value the function tests. */
  const SHF_ALLOC: nat := 0x2
  const SHF_COMPRESSED: nat := 0x800
  const SHT_NOBITS: nat := 8
  /** ch_type of a zlib-compressed section. */
  const ELFCOMPRESS_ZLIB: nat := 1
  /** sizeof (Elf32_Chdr): three 32-bit words. */
  const CHDR_SIZE: nat := 12
  /** The length of the GNU header: "ZLIB" and the 8-byte size. */
  const GNU_HEADER_SIZE: nat := 4 + 8
  /** SIZE_MAX of a host whose size_t has 64 bits. */
  const SIZE_MAX: nat := 0xFFFF_FFFF_FFFF_FFFF
  /** The values an Elf32_Word holds are those below WORD. */
  const WORD: nat := 0x1_0000_0000

  /** The four bytes "ZLIB". */
  function ZlibMagic(): seq<byte>
  {
    [0x5a, 0x4c, 0x49, 0x42]
  }

  /** flags & mask != 0, for a mask with one bit set. */
  predicate HasFlag(flags: nat, mask: nat)
    requires mask > 0
  {
    (flags / mask) % 2 == 1
  }

  /** The fields of an Elf32_Shdr that elf32_getchdr reads. */
  datatype Shdr = Shdr(shType: nat, shFlags: nat, shAddralign: nat)

  /** The three words of an Elf32_Chdr. */
  datatype Chdr = Chdr(chType: nat, chSize: nat, chAddralign: nat)

  /** What a returned header pointer designates: the first sizeof (Elf32_Chdr)
      bytes of the section's data (in place when aligned, else a malloc'd
      copy), or a header filled in from the GNU format. */
  datatype Header = Raw(bytes: seq<byte>) | Built(chdr: Chdr)

  /** scn->chdr.e32: NULL before the section is examined, the (void *) -1
      marker once it is known not to be compressed, or the header. */
  datatype ChdrSlot = Unexamined | NotCompressed | Cached(header: Header)

  /** The ELF_ZSCN_T_* values scn->chdr_type takes. */
  datatype ZscnType = ZscnNone | ZscnElf | ZscnGnu

  /** What *type receives: -1 on error, otherwise a compression type. */
  datatype TypeOut = Failed | Type(zscn: ZscnType)

  /** What examining a section concludes, before any allocation. */
  datatype Verdict = Error | Plain | ElfHeader(raw: seq<byte>) | GnuHeader(built: Chdr)

  /** The number a sequence of bytes spells, most significant byte first. */
  function BigEndian(s: seq<byte>): nat
    decreases |s|
  {
    if |s| == 0 then 0 else BigEndian(s[..|s| - 1]) * 256 + s[|s| - 1]
  }

  /** 256 to the k. */
  function Pow256(k: nat): (r: nat)
    ensures r > 0
  {
    if k == 0 then 1 else 256 * Pow256(k - 1)
  }

  /** n in k bytes, most significant first: the encoding be64toh reverses. */
  function BigEndianBytes(n: nat, k: nat): (s: seq<byte>)
    ensures |s| == k
  {
    if k == 0 then [] else BigEndianBytes(n / 256, k - 1) + [n % 256]
  }

  /** The examination after the cache check: shdr is what elf32_getshdr
      returns and data is the buffer of elf_getdata's first Elf_Data, None
      when either pointer is NULL. */
  function Examine(shdr: Option<Shdr>, data: Option<seq<byte>>): (v: Verdict)
    ensures v.ElfHeader? ==> data.Some? && |data.value| >= CHDR_SIZE && v.raw == data.value[..CHDR_SIZE]
    ensures v.GnuHeader? ==> (shdr.Some? && v.built.chType == ELFCOMPRESS_ZLIB && v.built.chSize < WORD
      && v.built.chAddralign == shdr.value.shAddralign)
  {
    if shdr.None? then Error
    else if HasFlag(shdr.value.shFlags, SHF_ALLOC) || shdr.value.shType == SHT_NOBITS then Plain
    else if data.None? then Error
    else
      var d := data.value;
      if |d| >= CHDR_SIZE && HasFlag(shdr.value.shFlags, SHF_COMPRESSED) then ElfHeader(d[..CHDR_SIZE])
      else if |d| >= GNU_HEADER_SIZE && d[..4] == ZlibMagic() then
        var size := BigEndian(d[4..GNU_HEADER_SIZE]);
        if size < |d| || size > SIZE_MAX then Plain
        else GnuHeader(Chdr(ELFCOMPRESS_ZLIB, size % WORD, shdr.value.shAddralign))
      else Plain
  }

  /** An answer of elf32_getchdr: the returned header (None for NULL) and *type. */
  datatype Answer = Answer(header: Option<Header>, typ: TypeOut)

  /** elf32_getchdr on a section whose cache is slot and stored type is
      stype; aligned says whether the data may be used in place (ALLOW_UNALIGNED
      or a suitably aligned data_base) and mallocOk whether malloc succeeds.
      Returns the answer, the new cache and the new stored type. */
  function GetChdrSpec(slot: ChdrSlot, stype: ZscnType, shdr: Option<Shdr>, data: Option<seq<byte>>,
                       aligned: bool, mallocOk: bool): (Answer, ChdrSlot, ZscnType)
  {
    match slot
    case Cached(h) => (Answer(Some(h), Type(stype)), slot, stype)
    case NotCompressed => (Answer(None, Type(stype)), slot, stype)
    case Unexamined =>
      match Examine(shdr, data)
      case Error => (Answer(None, Failed), slot, stype)
      case Plain => (Answer(None, Type(ZscnNone)), NotCompressed, ZscnNone)
      case ElfHeader(raw) =>
        if !aligned && !mallocOk then (Answer(None, Failed), slot, stype)
        else (Answer(Some(Raw(raw)), Type(ZscnElf)), Cached(Raw(raw)), ZscnElf)
      case GnuHeader(c) =>
        if !mallocOk then (Answer(None, Failed), slot, stype)
        else (Answer(Some(Built(c)), Type(ZscnGnu)), Cached(Built(c)), ZscnGnu)
  }

  /** An Elf_Scn as far as elf32_getchdr sees it. */
  class Scn {
    /** What elf32_getshdr (scn) returns, None for NULL. */
    const shdr: Option<Shdr>
    /** The buffer of elf_getdata (scn, NULL), None when it or its d_buf is NULL. */
    const data: Option<seq<byte>>
    /** ALLOW_UNALIGNED, or data_base aligned for an Elf32_Chdr. */
    const aligned: bool
    /** scn->chdr.e32 */
    var chdr: ChdrSlot
    /** scn->chdr_type */
    var chdrType: ZscnType

    /** A section as it is read in: nothing examined yet. */
    constructor (shdr: Option<Shdr>, data: Option<seq<byte>>, aligned: bool)
      ensures this.shdr == shdr && this.data == data && this.aligned == aligned
      ensures chdr == Unexamined && chdrType == ZscnNone
    {
      this.shdr := shdr;
      this.data := data;
      this.aligned := aligned;
      chdr := Unexamined;
      chdrType := ZscnNone;
    }

    /** elf32_getchdr (scn, &type); mallocOk stands for malloc's success. */
    method GetChdr(mallocOk: bool) returns (h: Option<Header>, t: TypeOut)
      modifies this
      ensures (Answer(h, t), chdr, chdrType) == GetChdrSpec(old(chdr), old(chdrType), shdr, data, aligned, mallocOk)
    {
      if !chdr.Unexamined? {
        t := Type(chdrType);
        h := if chdr.Cached? then Some(chdr.header) else None;
        return;
      }
      if shdr.None? {
        return None, Failed;
      }
      if HasFlag(shdr.value.shFlags, SHF_ALLOC) || shdr.value.shType == SHT_NOBITS {
        h, t := MarkNotCompressed();
        return;
      }
      if data.None? {
        return None, Failed;
      }
      var d := data.value;
      if |d| >= CHDR_SIZE && HasFlag(shdr.value.shFlags, SHF_COMPRESSED) {
        if !aligned && !mallocOk {
          return None, Failed;
        }
        chdr := Cached(Raw(d[..CHDR_SIZE]));
        chdrType := ZscnElf;
        return Some(Raw(d[..CHDR_SIZE])), Type(ZscnElf);
      } else if |d| >= GNU_HEADER_SIZE && d[..4] == ZlibMagic() {
        var size := BigEndian(d[4..GNU_HEADER_SIZE]);
        if size < |d| || size > SIZE_MAX {
          h, t := MarkNotCompressed();
          return;
        }
        if !mallocOk {
          return None, Failed;
        }
        var c := Chdr(ELFCOMPRESS_ZLIB, size % WORD, shdr.value.shAddralign);
        chdr := Cached(Built(c));
        chdrType := ZscnGnu;
        return Some(Built(c)), Type(ZscnGnu);
      }
      h, t := MarkNotCompressed();
    }

    /** The not_compressed label: the marker, type NONE, and NULL. */
    method MarkNotCompressed() returns (h: Option<Header>, t: TypeOut)
      modifies this
      ensures chdr == NotCompressed && chdrType == ZscnNone
      ensures h == None && t == Type(ZscnNone)
    {
      chdr := NotCompressed;
      chdrType := ZscnNone;
      h, t := None, Type(ZscnNone);
    }
  }

  /** Once cached, the header or the marker is returned with the stored type,
      without examining the section again; the marker yields NULL. */
  lemma CachedAnswer(slot: ChdrSlot, stype: ZscnType, shdr: Option<Shdr>, data: Option<seq<byte>>,
                     aligned: bool, mallocOk: bool)
    requires !slot.Unexamined?
    ensures var r := GetChdrSpec(slot, stype, shdr, data, aligned, mallocOk);
      r.0.typ == Type(stype) && r.1 == slot && r.2 == stype
      && (r.0.header.Some? <==> slot.Cached?)
      && (slot.Cached? ==> r.0.header == Some(slot.header))
  {
  }

  /** An allocated or SHT_NOBITS section is never compressed, whatever its
      data: it gets the marker and type NONE. */
  lemma AllocatedNotCompressed(stype: ZscnType, s: Shdr, data: Option<seq<byte>>, aligned: bool, mallocOk: bool)
    requires HasFlag(s.shFlags, SHF_ALLOC) || s.shType == SHT_NOBITS
    ensures GetChdrSpec(Unexamined, stype, Some(s), data, aligned, mallocOk)
      == (Answer(None, Type(ZscnNone)), NotCompressed, ZscnNone)
  {
  }

  /** Without a section header, or without data for a section that could be
      compressed, the result is NULL with type -1 and nothing is cached. */
  lemma MissingDataFails(stype: ZscnType, shdr: Option<Shdr>, data: Option<seq<byte>>, aligned: bool, mallocOk: bool)
    requires shdr.None? || (!HasFlag(shdr.value.shFlags, SHF_ALLOC) && shdr.value.shType != SHT_NOBITS && data.None?)
    ensures GetChdrSpec(Unexamined, stype, shdr, data, aligned, mallocOk) == (Answer(None, Failed), Unexamined, stype)
  {
  }

  /** A section flagged SHF_COMPRESSED with room for an Elf32_Chdr has type
      ELF, and the header is its first sizeof (Elf32_Chdr) bytes. */
  lemma ElfHeaderCase(stype: ZscnType, s: Shdr, d: seq<byte>, aligned: bool, mallocOk: bool)
    requires !HasFlag(s.shFlags, SHF_ALLOC) && s.shType != SHT_NOBITS
    requires HasFlag(s.shFlags, SHF_COMPRESSED) && |d| >= CHDR_SIZE
    requires aligned || mallocOk
    ensures var r := GetChdrSpec(Unexamined, stype, Some(s), Some(d), aligned, mallocOk);
      r.0 == Answer(Some(Raw(d[..CHDR_SIZE])), Type(ZscnElf)) && r.1 == Cached(Raw(d[..CHDR_SIZE])) && r.2 == ZscnElf
  {
  }

  /** Otherwise, data of at least 12 bytes starting "ZLIB" whose size field
      is at least the data's size (and fits a size_t) gives type GNU and a
      zlib header with that size, truncated to an Elf32_Word, and the
      section's alignment. */
  lemma GnuHeaderCase(stype: ZscnType, s: Shdr, d: seq<byte>, aligned: bool)
    requires !HasFlag(s.shFlags, SHF_ALLOC) && s.shType != SHT_NOBITS
    requires !(HasFlag(s.shFlags, SHF_COMPRESSED) && |d| >= CHDR_SIZE)
    requires |d| >= GNU_HEADER_SIZE && d[..4] == ZlibMagic()
    requires |d| <= BigEndian(d[4..GNU_HEADER_SIZE]) <= SIZE_MAX
    ensures var c := Chdr(ELFCOMPRESS_ZLIB, BigEndian(d[4..GNU_HEADER_SIZE]) % WORD, s.shAddralign);
      GetChdrSpec(Unexamined, stype, Some(s), Some(d), aligned, true)
        == (Answer(Some(Built(c)), Type(ZscnGnu)), Cached(Built(c)), ZscnGnu)
  {
  }

  /** A GNU size below the data's size or beyond SIZE_MAX means not compressed. */
  lemma GnuSizeRejected(stype: ZscnType, s: Shdr, d: seq<byte>, aligned: bool, mallocOk: bool)
    requires !HasFlag(s.shFlags, SHF_ALLOC) && s.shType != SHT_NOBITS
    requires !(HasFlag(s.shFlags, SHF_COMPRESSED) && |d| >= CHDR_SIZE)
    requires |d| >= GNU_HEADER_SIZE && d[..4] == ZlibMagic()
    requires BigEndian(d[4..GNU_HEADER_SIZE]) < |d| || BigEndian(d[4..GNU_HEADER_SIZE]) > SIZE_MAX
    ensures GetChdrSpec(Unexamined, stype, Some(s), Some(d), aligned, mallocOk)
      == (Answer(None, Type(ZscnNone)), NotCompressed, ZscnNone)
  {
  }

  /** Data that is neither an SHF_COMPRESSED section with room for an
      Elf32_Chdr nor at least 12 bytes starting "ZLIB" is not compressed: the
      marker, type NONE and NULL, whatever malloc would do. */
  lemma PlainSection(stype: ZscnType, s: Shdr, d: seq<byte>, aligned: bool, mallocOk: bool)
    requires !HasFlag(s.shFlags, SHF_ALLOC) && s.shType != SHT_NOBITS
    requires !(HasFlag(s.shFlags, SHF_COMPRESSED) && |d| >= CHDR_SIZE)
    requires !(|d| >= GNU_HEADER_SIZE && d[..4] == ZlibMagic())
    ensures GetChdrSpec(Unexamined, stype, Some(s), Some(d), aligned, mallocOk)
      == (Answer(None, Type(ZscnNone)), NotCompressed, ZscnNone)
  {
  }

  /** When the header must be allocated (an ELF header that cannot be used in
      place, or any GNU header, aligned or not) and malloc fails, the result
      is NULL with type -1 and nothing is cached. */
  lemma AllocationFails(stype: ZscnType, s: Shdr, d: seq<byte>, aligned: bool)
    requires !HasFlag(s.shFlags, SHF_ALLOC) && s.shType != SHT_NOBITS
    requires || (HasFlag(s.shFlags, SHF_COMPRESSED) && |d| >= CHDR_SIZE && !aligned)
             || (&& !(HasFlag(s.shFlags, SHF_COMPRESSED) && |d| >= CHDR_SIZE)
                 && |d| >= GNU_HEADER_SIZE && d[..4] == ZlibMagic()
                 && |d| <= BigEndian(d[4..GNU_HEADER_SIZE]) <= SIZE_MAX)
    ensures GetChdrSpec(Unexamined, stype, Some(s), Some(d), aligned, false) == (Answer(None, Failed), Unexamined, stype)
  {
  }

  /** A call that did not fail leaves the section in a state where every
      later call gives the same answer and changes nothing, whether or not
      malloc would succeed; a call that failed changed nothing. */
  lemma Idempotent(slot: ChdrSlot, stype: ZscnType, shdr: Option<Shdr>, data: Option<seq<byte>>,
                   aligned: bool, mallocOk: bool, mallocOk2: bool)
    ensures var r := GetChdrSpec(slot, stype, shdr, data, aligned, mallocOk);
      var r2 := GetChdrSpec(r.1, r.2, shdr, data, aligned, mallocOk2);
      (r.0.typ != Failed ==> r2 == r)
      && (r.0.typ == Failed ==> r.1 == slot && r.2 == stype && r.0.header.None?)
  {
  }

  /** be64toh reverses the big-endian encoding of a number below 256^k. */
  lemma {:induction false} BigEndianRoundTrip(n: nat, k: nat)
    requires n < Pow256(k)
    ensures BigEndian(BigEndianBytes(n, k)) == n
  {
    if k > 0 {
      var s := BigEndianBytes(n, k);
      assert s[..|s| - 1] == BigEndianBytes(n / 256, k - 1);
      BigEndianRoundTrip(n / 256, k - 1);
    }
  }

  /** k bytes spell a number below 256^k, so eight of them always fit a
      64-bit size_t. */
  lemma {:induction false} BigEndianBound(s: seq<byte>)
    ensures BigEndian(s) < Pow256(|s|)
  {
    if |s| > 0 {
      BigEndianBound(s[..|s| - 1]);
    }
  }

  /** Every sequence of bytes is the encoding of the number it spells. */
  lemma {:induction false} BigEndianBytesRoundTrip(s: seq<byte>)
    ensures BigEndianBytes(BigEndian(s), |s|) == s
  {
    if |s| > 0 {
      var init := s[..|s| - 1];
      BigEndianBytesRoundTrip(init);
      assert init + [s[|s| - 1]] == s;
    }
  }

  /** A GNU-format section whose header encodes size n (with n at least the
      data's size and below 2^64) yields a header whose ch_size is n modulo
      2^32. */
  lemma GnuSizeRoundTrip(s: Shdr, n: nat, rest: seq<byte>)
    requires !HasFlag(s.shFlags, SHF_ALLOC) && s.shType != SHT_NOBITS && !HasFlag(s.shFlags, SHF_COMPRESSED)
    requires GNU_HEADER_SIZE + |rest| <= n <= SIZE_MAX
    ensures Examine(Some(s), Some(ZlibMagic() + BigEndianBytes(n, 8) + rest))
      == GnuHeader(Chdr(ELFCOMPRESS_ZLIB, n % WORD, s.shAddralign))
  {
    var d := ZlibMagic() + BigEndianBytes(n, 8) + rest;
    assert d[..4] == ZlibMagic();
    assert d[4..GNU_HEADER_SIZE] == BigEndianBytes(n, 8);
    BigEndianRoundTrip(n, 8);
    assert Pow256(8) == SIZE_MAX + 1;
  }
}
