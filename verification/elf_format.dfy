/**
  The ELF64 file format from the writer's side (System V gABI, chapters "ELF Header" and
  "Program Header"): which bytes hold which field, and what the loader accepts, said on
  the fields alone.
*/
module ElfFormat {
  import opened Bits
  import opened BootInformation
  import opened Bytes
  import opened ElfImage
  import ElfLoader

  // ---------------------------------------------------------------- little-endian numbers

  /** The lowest `n` bytes of a number, least significant first. */
  function Little(x: nat, n: nat): (s: seq<byte>)
    ensures |s| == n
  {
    if n == 0 then [] else [x % 256] + Little(x / 256, n - 1)
  }

  function Drop(x: nat, n: nat): nat {
    if n == 0 then x else Drop(x / 256, n - 1)
  }

  lemma {:induction false} LittleSplit(x: nat, n: nat, k: nat)
    ensures Little(x, n + k) == Little(x, n) + Little(Drop(x, n), k)
    decreases n
  {
    if n > 0 { LittleSplit(x / 256, n - 1, k); }
  }

  lemma DropTwo(x: nat)
    ensures Drop(x, 2) == x / 256 / 256
  {
    assert Drop(x / 256, 1) == Drop(x / 256 / 256, 0);
  }

  lemma Drops(x: nat)
    ensures Drop(x, 2) == x / 0x1_0000 && Drop(x, 4) == x / 0x1_0000_0000
  {
    DropTwo(x);
    DropTwo(x / 256 / 256);
    assert Drop(x, 4) == Drop(x / 256, 3);
    assert Drop(x / 256, 3) == Drop(x / 256 / 256, 2);
  }

  /** `field` lies at `at`. */
  predicate Holds(data: seq<byte>, at: nat, field: seq<byte>) {
    at + |field| <= |data| && data[at..at + |field|] == field
  }

  lemma HoldsParts(data: seq<byte>, at: nat, first: seq<byte>, second: seq<byte>)
    requires Holds(data, at, first + second)
    ensures Holds(data, at, first) && Holds(data, at + |first|, second)
  {
    var field := first + second;
    assert data[at..at + |field|][..|first|] == data[at..at + |first|];
    assert data[at..at + |field|][|first|..] == data[at + |first|..at + |field|];
  }

  lemma ReadBack16(data: seq<byte>, at: nat, x: nat)
    requires Holds(data, at, Little(x, 2))
    ensures Read16(data, at) == x % 0x1_0000
  {
    var field := Little(x, 2);
    assert Little(x / 256, 1) == [x / 256 % 256] + Little(x / 256 / 256, 0);
    assert field == [x % 256, x / 256 % 256];
    assert data[at] == data[at..at + 2][0] && data[at + 1] == data[at..at + 2][1];
  }

  lemma ReadBack32(data: seq<byte>, at: nat, x: nat)
    requires Holds(data, at, Little(x, 4))
    ensures Read32(data, at) == x % 0x1_0000_0000
  {
    hide Little;
    LittleSplit(x, 2, 2);
    Drops(x);
    HoldsParts(data, at, Little(x, 2), Little(x / 0x1_0000, 2));
    ReadBack16(data, at, x);
    ReadBack16(data, at + 2, x / 0x1_0000);
  }

  lemma ReadBack64(data: seq<byte>, at: nat, x: u64)
    requires Holds(data, at, Little(x, 8))
    ensures Read64(data, at) == x
  {
    hide Little;
    LittleSplit(x, 4, 4);
    Drops(x);
    HoldsParts(data, at, Little(x, 4), Little(x / 0x1_0000_0000, 4));
    ReadBack32(data, at, x);
    ReadBack32(data, at + 4, x / 0x1_0000_0000);
  }

  // ---------------------------------------------------------------- program headers

  /** A program header as it is written: type, flags, offset, vaddr, paddr, filesz, memsz, align. */
  function SegmentBytes(s: Segment): (bytes: seq<byte>)
    ensures |bytes| == 56
  {
    Little(s.kind, 4) + (Little(s.flags, 4) + (Little(s.offset, 8) + (Little(s.vaddr, 8) + (Little(s.paddr, 8)
    + (Little(s.filesz, 8) + (Little(s.memsz, 8) + Little(s.align, 8)))))))
  }

  /** What fits into the fields of a program header. */
  predicate SegmentFits(s: Segment) {
    s.kind < 0x1_0000_0000 && s.flags < 0x1_0000_0000
  }

  lemma SegmentHeld(data: seq<byte>, at: nat, s: Segment)
    requires SegmentFits(s) && Holds(data, at, SegmentBytes(s))
    ensures at + PROGRAM_SIZE <= |data| && SegmentAt(data, at) == s
  {
    hide Holds, Read32, Read64, Little;
    HoldsSize(data, at, SegmentBytes(s));
    var memsz := Little(s.memsz, 8) + Little(s.align, 8);
    var filesz := Little(s.filesz, 8) + memsz;
    var paddr := Little(s.paddr, 8) + filesz;
    var vaddr := Little(s.vaddr, 8) + paddr;
    var offset := Little(s.offset, 8) + vaddr;
    HoldsParts(data, at, Little(s.kind, 4), Little(s.flags, 4) + offset);
    HoldsParts(data, at + 4, Little(s.flags, 4), offset);
    HoldsParts(data, at + 8, Little(s.offset, 8), vaddr);
    HoldsParts(data, at + 16, Little(s.vaddr, 8), paddr);
    HoldsParts(data, at + 24, Little(s.paddr, 8), filesz);
    HoldsParts(data, at + 32, Little(s.filesz, 8), memsz);
    HoldsParts(data, at + 40, Little(s.memsz, 8), Little(s.align, 8));
    ReadBack32(data, at, s.kind);
    ReadBack32(data, at + 4, s.flags);
    ReadBack64(data, at + 8, s.offset);
    ReadBack64(data, at + 16, s.vaddr);
    ReadBack64(data, at + 24, s.paddr);
    ReadBack64(data, at + 32, s.filesz);
    ReadBack64(data, at + 40, s.memsz);
    ReadBack64(data, at + 48, s.align);
  }

  lemma HoldsSize(data: seq<byte>, at: nat, field: seq<byte>)
    requires Holds(data, at, field)
    ensures at + |field| <= |data|
  {
  }

  /** Reading a program header gives back what was written, wherever it lies. */
  lemma SegmentRoundTrip(pre: seq<byte>, s: Segment, post: seq<byte>)
    requires SegmentFits(s)
    ensures |pre| + PROGRAM_SIZE <= |pre + SegmentBytes(s) + post| && SegmentAt(pre + SegmentBytes(s) + post, |pre|) == s
  {
    hide SegmentBytes, SegmentAt;
    HoldsBetween(pre, SegmentBytes(s), post);
    SegmentHeld(pre + SegmentBytes(s) + post, |pre|, s);
  }

  lemma HoldsBetween(pre: seq<byte>, field: seq<byte>, post: seq<byte>)
    ensures Holds(pre + field + post, |pre|, field)
  {
  }

  // ---------------------------------------------------------------- the file header

  /** The fields of the file header that the loader does not look at. */
  datatype Ignored = Ignored(shoff: u64, flags: nat, shentsize: nat, shnum: nat, shstrndx: nat)

  /** A file header as it is written. */
  function HeaderBytes(h: Header, other: Ignored): (bytes: seq<byte>)
    requires |h.ident| == 16
    ensures |bytes| == 64
  {
    h.ident + (Little(h.kind, 2) + (Little(h.machine, 2) + (Little(h.version, 4) + (Little(h.entry, 8) + (Little(h.phoff, 8)
    + (Little(other.shoff, 8) + (Little(other.flags, 4) + (Little(h.ehsize, 2) + (Little(h.phentsize, 2) + (Little(h.phnum, 2)
    + (Little(other.shentsize, 2) + (Little(other.shnum, 2) + Little(other.shstrndx, 2)))))))))))))
  }

  predicate HeaderFits(h: Header) {
    && |h.ident| == 16 && h.kind < 0x1_0000 && h.machine < 0x1_0000 && h.version < 0x1_0000_0000
    && h.ehsize < 0x1_0000 && h.phentsize < 0x1_0000 && h.phnum < 0x1_0000
  }

  lemma HeaderHeld(data: seq<byte>, h: Header, other: Ignored)
    requires HeaderFits(h) && Holds(data, 0, HeaderBytes(h, other))
    ensures |data| >= HEADER_SIZE && HeaderOf(data) == h
  {
    hide Holds, Read16, Read32, Read64, Little;
    HoldsSize(data, 0, HeaderBytes(h, other));
    var sections := Little(other.shentsize, 2) + (Little(other.shnum, 2) + Little(other.shstrndx, 2));
    var phnum := Little(h.phnum, 2) + sections;
    var phentsize := Little(h.phentsize, 2) + phnum;
    var ehsize := Little(h.ehsize, 2) + phentsize;
    var flags := Little(other.flags, 4) + ehsize;
    var shoff := Little(other.shoff, 8) + flags;
    var phoff := Little(h.phoff, 8) + shoff;
    var entry := Little(h.entry, 8) + phoff;
    var version := Little(h.version, 4) + entry;
    var machine := Little(h.machine, 2) + version;
    HoldsParts(data, 0, h.ident, Little(h.kind, 2) + machine);
    HoldsParts(data, 16, Little(h.kind, 2), machine);
    HoldsParts(data, 18, Little(h.machine, 2), version);
    HoldsParts(data, 20, Little(h.version, 4), entry);
    HoldsParts(data, 24, Little(h.entry, 8), phoff);
    HoldsParts(data, 32, Little(h.phoff, 8), shoff);
    HoldsParts(data, 40, Little(other.shoff, 8), flags);
    HoldsParts(data, 48, Little(other.flags, 4), ehsize);
    HoldsParts(data, 52, Little(h.ehsize, 2), phentsize);
    HoldsParts(data, 54, Little(h.phentsize, 2), phnum);
    HoldsParts(data, 56, Little(h.phnum, 2), sections);
    IdentHeld(data, h.ident);
    ReadBack16(data, 16, h.kind);
    ReadBack16(data, 18, h.machine);
    ReadBack32(data, 20, h.version);
    ReadBack64(data, 24, h.entry);
    ReadBack64(data, 32, h.phoff);
    ReadBack16(data, 52, h.ehsize);
    ReadBack16(data, 54, h.phentsize);
    ReadBack16(data, 56, h.phnum);
  }

  lemma IdentHeld(data: seq<byte>, ident: seq<byte>)
    requires Holds(data, 0, ident) && |ident| == 16
    ensures |data| >= 16 && data[..16] == ident
  {
  }

  /** Reading a file header gives back what was written. */
  lemma HeaderRoundTrip(h: Header, other: Ignored, rest: seq<byte>)
    requires HeaderFits(h)
    ensures HeaderOf(HeaderBytes(h, other) + rest) == h
  {
    hide HeaderBytes, HeaderOf;
    assert [] + HeaderBytes(h, other) + rest == HeaderBytes(h, other) + rest;
    HoldsBetween([], HeaderBytes(h, other), rest);
    HeaderHeld(HeaderBytes(h, other) + rest, h, other);
  }

  /** What a valid header is: a little-endian ELF64 executable for x86-64 with 1 to 128 program headers in the file. */
  lemma HeaderMeaning(h: Header, size: u64)
    requires |h.ident| == 16
    ensures ValidHeader(h, size) <==>
      && h.ident[0] == 0x7f && h.ident[1] == 0x45 && h.ident[2] == 0x4c && h.ident[3] == 0x46
      && h.ident[4] == 2 && h.ident[5] == 1 && h.ident[6] == 1
      && h.kind == 2 && h.machine == 62 && h.version == 1 && h.ehsize == 64 && h.phentsize == 56
      && 1 <= h.phnum <= 128 && h.phoff % 8 == 0 && h.phoff + 56 * h.phnum <= size
  {
    var elf := [0x7f, 0x45, 0x4c, 0x46, 2, 1, 1];
    assert h.ident[..7] == elf <==> forall i :: 0 <= i < 7 ==> h.ident[i] == elf[i];
  }

  // ---------------------------------------------------------------- whole files

  function TableBytes(segments: seq<Segment>): (bytes: seq<byte>)
    ensures |bytes| == 56 * |segments|
  {
    if segments == [] then [] else SegmentBytes(segments[0]) + TableBytes(segments[1..])
  }

  lemma {:induction false} TableHeld(data: seq<byte>, at: nat, segments: seq<Segment>, i: nat)
    requires Holds(data, at, TableBytes(segments)) && i < |segments|
    ensures Holds(data, at + 56 * i, SegmentBytes(segments[i]))
    decreases i
  {
    hide Holds, SegmentBytes;
    HoldsParts(data, at, SegmentBytes(segments[0]), TableBytes(segments[1..]));
    if i > 0 { TableHeld(data, at + 56, segments[1..], i - 1); }
  }

  /** A file as a linker writes it: header, program headers where the header says, contents. */
  ghost predicate Written(data: seq<byte>, h: Header, other: Ignored, segments: seq<Segment>) {
    && HeaderFits(h) && (forall i :: 0 <= i < |segments| ==> SegmentFits(segments[i]))
    && h.phnum == |segments| && Holds(data, 0, HeaderBytes(h, other)) && Holds(data, h.phoff, TableBytes(segments))
  }

  /** The loader reads the headers that were written. */
  lemma FileRoundTrip(data: seq<byte>, h: Header, other: Ignored, segments: seq<Segment>)
    requires |data| < U64 && Written(data, h, other, segments) && ValidHeader(h, |data|)
    ensures |data| >= HEADER_SIZE && HeaderOf(data) == h && Programs(data) == segments
  {
    hide HeaderOf, SegmentAt, ValidHeader, HeaderFits, SegmentFits, HeaderBytes, SegmentBytes, TableBytes, Holds;
    HeaderHeld(data, h, other);
    forall i | 0 <= i < |segments|
      ensures Programs(data)[i] == segments[i]
    {
      TableHeld(data, h.phoff, segments, i);
      SegmentHeld(data, h.phoff + 56 * i, segments[i]);
    }
  }

  // ---------------------------------------------------------------- what is accepted

  /** A loadable segment lies in the file and in memory, where it is linked, and is aligned. */
  ghost predicate GoodSegment(s: Segment, size: u64) {
    && s.filesz <= s.memsz && s.offset + s.filesz <= size
    && s.paddr == s.vaddr && 0x10_0000 <= s.vaddr < 0x1_0000_0000 && s.vaddr + s.memsz <= 0x1_0000_0000
    && (s.align == 0 || (PowerOfTwo(s.align) && s.vaddr % s.align == s.offset % s.align))
  }

  /** The address belongs to the memory part of a loadable segment. */
  ghost predicate Claims(s: Segment, address: nat) {
    s.kind == 1 && s.vaddr <= address < s.vaddr + s.memsz
  }

  /**
    Which segments can be loaded into which range, address by address: none asks for dynamic
    linking, all are in order, no address is claimed twice, the entry is a file byte of an
    executable one, and the range is the smallest page range around them, of at most 64 MiB.
  */
  ghost predicate Acceptable(segments: seq<Segment>, size: u64, entry: u64, range: Range) {
    && (forall i :: 0 <= i < |segments| ==> segments[i].kind != 2 && segments[i].kind != 3)
    && (forall i :: 0 <= i < |segments| && segments[i].kind == 1 ==> GoodSegment(segments[i], size))
    && (forall i, j, a: nat :: 0 <= i < j < |segments| ==> !(Claims(segments[i], a) && Claims(segments[j], a)))
    && (exists i :: 0 <= i < |segments| && segments[i].kind == 1 && segments[i].flags % 2 == 1
                    && segments[i].vaddr <= entry < segments[i].vaddr + segments[i].filesz)
    && (forall i, a: nat :: 0 <= i < |segments| && Claims(segments[i], a) ==> range.base <= a < range.end)
    && range.base % 4096 == 0 && range.end % 4096 == 0 && range.end - range.base <= 64 * 1024 * 1024
    && (exists i, a: nat :: 0 <= i < |segments| && Claims(segments[i], a) && a < range.base + 4096)
    && (exists i, a: nat :: 0 <= i < |segments| && Claims(segments[i], a) && range.end - 4096 <= a)
  }

  lemma OddFlags(flags: nat)
    ensures And(flags, 1) != 0 <==> flags % 2 == 1
  {
    KeepLow(flags, 1);
    assert Pow2(1) == 2;
  }

  lemma EntryMeaning(segments: seq<Segment>, size: u64, entry: u64)
    requires forall i :: 0 <= i < |segments| && segments[i].kind == 1 ==> GoodSegment(segments[i], size)
    ensures HasEntry(segments, entry, |segments|) <==>
      exists i :: 0 <= i < |segments| && segments[i].kind == 1 && segments[i].flags % 2 == 1
                  && segments[i].vaddr <= entry < segments[i].vaddr + segments[i].filesz
  {
    hide And;
    forall i | 0 <= i < |segments|
      ensures And(segments[i].flags, 1) != 0 <==> segments[i].flags % 2 == 1
    {
      OddFlags(segments[i].flags);
    }
    if i :| 0 <= i < |segments| && segments[i].kind == 1 && segments[i].flags % 2 == 1
            && segments[i].vaddr <= entry < segments[i].vaddr + segments[i].filesz {
      assert segments[i].Occupies() && segments[i].FileBacks(entry);
    }
  }

  lemma InsideMeaning(s: Segment, range: Range)
    ensures Inside(s, range) <==> forall a: nat :: Claims(s, a) ==> range.base <= a < range.end
  {
    if s.Occupies() { assert Claims(s, s.vaddr) && Claims(s, s.vaddr + s.memsz - 1); }
  }

  lemma BeginsMeaning(s: Segment, range: Range)
    requires range.base % 4096 == 0 && Inside(s, range)
    ensures Begins(s, range.base) <==> exists a: nat :: Claims(s, a) && a < range.base + 4096
  {
    if Begins(s, range.base) { assert Claims(s, s.vaddr); }
  }

  lemma EndsMeaning(s: Segment, range: Range)
    requires range.end % 4096 == 0 && Inside(s, range)
    ensures Ends(s, range.end) <==> exists a: nat :: Claims(s, a) && range.end - 4096 <= a
  {
    if Ends(s, range.end) { assert Claims(s, s.vaddr + s.memsz - 1) && range.end - 4096 <= s.vaddr + s.memsz - 1; }
  }

  lemma EnclosesMeaning(segments: seq<Segment>, range: Range)
    ensures Encloses(segments, |segments|, range) <==>
      && (forall i, a: nat :: 0 <= i < |segments| && Claims(segments[i], a) ==> range.base <= a < range.end)
      && range.base % 4096 == 0 && range.end % 4096 == 0
      && (exists i, a: nat :: 0 <= i < |segments| && Claims(segments[i], a) && a < range.base + 4096)
      && (exists i, a: nat :: 0 <= i < |segments| && Claims(segments[i], a) && range.end - 4096 <= a)
  {
    hide Inside, Begins, Ends, Claims;
    forall i | 0 <= i < |segments|
      ensures Inside(segments[i], range) <==> forall a: nat :: Claims(segments[i], a) ==> range.base <= a < range.end
      ensures Inside(segments[i], range) && range.base % 4096 == 0 ==>
        (Begins(segments[i], range.base) <==> exists a: nat :: Claims(segments[i], a) && a < range.base + 4096)
      ensures Inside(segments[i], range) && range.end % 4096 == 0 ==>
        (Ends(segments[i], range.end) <==> exists a: nat :: Claims(segments[i], a) && range.end - 4096 <= a)
    {
      InsideMeaning(segments[i], range);
      if Inside(segments[i], range) && range.base % 4096 == 0 { BeginsMeaning(segments[i], range); }
      if Inside(segments[i], range) && range.end % 4096 == 0 { EndsMeaning(segments[i], range); }
    }
  }

  /** No header is rejected exactly if all are in order and no address is claimed twice. */
  lemma RejectedMeaning(segments: seq<Segment>, size: u64)
    ensures (forall i :: 0 <= i < |segments| ==> !Rejected(segments, size, i)) <==>
      && (forall i :: 0 <= i < |segments| ==> segments[i].kind != 2 && segments[i].kind != 3)
      && (forall i :: 0 <= i < |segments| && segments[i].kind == 1 ==> GoodSegment(segments[i], size))
      && (forall i, j, a: nat :: 0 <= i < j < |segments| ==> !(Claims(segments[i], a) && Claims(segments[j], a)))
  {
    hide ValidSegment, Overlaps, Claims, GoodSegment;
    forall i | 0 <= i < |segments|
      ensures ValidSegment(segments[i], size) <==> GoodSegment(segments[i], size)
    {
      GoodMeansValid(segments[i], size);
    }
    forall i, j | 0 <= i < j < |segments|
      ensures segments[i].Occupies() && segments[j].Occupies() && Overlaps(segments[i], segments[j])
         <==> exists a: nat :: Claims(segments[i], a) && Claims(segments[j], a)
    {
      SharedAddress(segments[i], segments[j]);
    }
    if forall i :: 0 <= i < |segments| ==> !Rejected(segments, size, i) {
      forall i | 0 <= i < |segments|
        ensures segments[i].kind != 2 && segments[i].kind != 3 && (segments[i].kind == 1 ==> GoodSegment(segments[i], size))
      {
        assert !Rejected(segments, size, i);
      }
      AcceptedAreDisjoint(segments, size);
    }
  }

  lemma GoodMeansValid(s: Segment, size: u64)
    ensures ValidSegment(s, size) <==> GoodSegment(s, size)
  {
    hide ValidSegment, PowerOfTwo;
    ValidSegmentMeaning(s, size);
  }

  lemma SharedAddress(s: Segment, other: Segment)
    ensures s.Occupies() && other.Occupies() && Overlaps(s, other) <==> exists a: nat :: Claims(s, a) && Claims(other, a)
  {
    if s.Occupies() && other.Occupies() && Overlaps(s, other) {
      var a := if s.vaddr < other.vaddr then other.vaddr else s.vaddr;
      assert Claims(s, a) && Claims(other, a);
    }
  }

  lemma LoadableMeaning(segments: seq<Segment>, size: u64, entry: u64, range: Range)
    ensures Loadable(segments, size, entry, range) <==> Acceptable(segments, size, entry, range)
  {
    hide Rejected, Encloses, HasEntry, GoodSegment, Claims;
    RejectedMeaning(segments, size);
    EnclosesMeaning(segments, range);
    if forall i :: 0 <= i < |segments| && segments[i].kind == 1 ==> GoodSegment(segments[i], size) {
      EntryMeaning(segments, size, entry);
    }
  }

  /**
    The loader accepts a written file exactly if its header describes a little-endian ELF64
    executable for x86-64 with its program headers in the file, and its segments can be loaded.
  */
  lemma AcceptedExactly(data: seq<byte>, h: Header, other: Ignored, segments: seq<Segment>, range: Range)
    requires |data| < U64 && Written(data, h, other, segments)
    ensures ElfLoader.Accepted(data, range) <==>
      && h.ident[..7] == [0x7f, 0x45, 0x4c, 0x46, 2, 1, 1]
      && h.kind == 2 && h.machine == 62 && h.version == 1 && h.ehsize == 64 && h.phentsize == 56
      && 1 <= |segments| <= 128 && h.phoff % 8 == 0
      && Acceptable(segments, |data|, h.entry, range)
  {
    hide SegmentAt, HeaderOf, ValidHeader, SegmentFits, HeaderBytes, SegmentBytes, TableBytes, Loadable, Acceptable, Programs;
    HeaderHeld(data, h, other);
    HeaderMeaning(h, |data|);
    var elf := [0x7f, 0x45, 0x4c, 0x46, 2, 1, 1];
    assert h.ident[..7] == elf <==> forall i :: 0 <= i < 7 ==> h.ident[i] == elf[i];
    LoadableMeaning(segments, |data|, h.entry, range);
    if ValidHeader(h, |data|) { FileRoundTrip(data, h, other, segments); }
  }

  /** The placed byte at an address: the file byte of the segment that covers it, or 0. */
  lemma PlacedMeaning(data: seq<byte>, segments: seq<Segment>, address: nat, b: byte)
    requires |data| < U64 && AllValid(segments, |data|) && PlacedAt(data, segments, address, b)
    ensures forall i {:trigger segments[i]} ::
      0 <= i < |segments| && segments[i].kind == 1 && segments[i].vaddr <= address < segments[i].vaddr + segments[i].filesz ==>
        segments[i].offset + (address - segments[i].vaddr) < |data|
        && b == data[segments[i].offset + (address - segments[i].vaddr)]
    ensures (forall i :: 0 <= i < |segments| && segments[i].kind == 1 ==>
              !(segments[i].vaddr <= address < segments[i].vaddr + segments[i].filesz)) ==> b == 0
  {
    hide And;
    forall i | 0 <= i < |segments| && segments[i].kind == 1 && segments[i].vaddr <= address < segments[i].vaddr + segments[i].filesz
      ensures segments[i].offset + (address - segments[i].vaddr) < |data|
      ensures b == data[segments[i].offset + (address - segments[i].vaddr)]
    {
      assert ValidSegment(segments[i], |data|) && segments[i].FileBacks(address);
    }
  }

  /** `EFI_UNSUPPORTED`: a header asks for dynamic linking, and all before it are in order. */
  lemma InterpretedMeaning(segments: seq<Segment>, size: u64, i: nat)
    requires i < |segments|
    ensures ElfLoader.Interpreted(segments, size, i) <==>
      && (segments[i].kind == 2 || segments[i].kind == 3)
      && (forall j :: 0 <= j < i ==> segments[j].kind != 2 && segments[j].kind != 3)
      && (forall j :: 0 <= j < i && segments[j].kind == 1 ==> GoodSegment(segments[j], size))
      && (forall j, k, a: nat :: 0 <= j < k < i ==> !(Claims(segments[j], a) && Claims(segments[k], a)))
  {
    hide ValidSegment, Overlaps, Claims, GoodSegment;
    var before := segments[..i];
    RejectedMeaning(before, size);
    forall j | 0 <= j < i
      ensures Rejected(before, size, j) <==> Rejected(segments, size, j)
    {
    }
    assert forall j :: 0 <= j < i ==> before[j] == segments[j];
  }
}
