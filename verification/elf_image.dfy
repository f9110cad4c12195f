/**
  ELF64 executables as the loader reads them (boot/load.c): headers as byte layouts, which
  files may be loaded, and what memory holds once a file has been placed. The format is
  that of the System V gABI, chapters "ELF Header" and "Program Header".
*/
module ElfImage {
  import opened Bits
  import opened BootInformation
  import opened Bytes

  const HEADER_SIZE: nat := 64
  const PROGRAM_SIZE: nat := 56
  const PT_LOAD: nat := 1
  const PT_DYNAMIC: nat := 2
  const PT_INTERP: nat := 3
  const SPAN_LIMIT: nat := 0x400_0000

  // ---------------------------------------------------------------- little-endian fields

  function Read16(data: seq<byte>, at: nat): (x: nat)
    requires at + 2 <= |data|
    ensures x < 0x1_0000
  {
    data[at] as nat + 0x100 * (data[at + 1] as nat)
  }

  function Read32(data: seq<byte>, at: nat): (x: nat)
    requires at + 4 <= |data|
    ensures x < 0x1_0000_0000
  {
    Read16(data, at) + 0x1_0000 * Read16(data, at + 2)
  }

  function Read64(data: seq<byte>, at: nat): u64
    requires at + 8 <= |data|
  {
    Read32(data, at) + 0x1_0000_0000 * Read32(data, at + 4)
  }

  datatype Header = Header(ident: seq<byte>, kind: nat, machine: nat, version: nat, entry: u64, phoff: u64,
                           ehsize: nat, phentsize: nat, phnum: nat)

  datatype Segment = Segment(kind: nat, flags: nat, offset: u64, vaddr: u64, paddr: u64, filesz: u64, memsz: u64, align: u64)
  {
    /** The segments that occupy memory. */
    predicate Occupies() { kind == PT_LOAD && memsz != 0 }

    /** The bytes that come from the file. */
    predicate FileBacks(address: nat) { kind == PT_LOAD && vaddr <= address < vaddr + filesz }
  }

  function HeaderOf(data: seq<byte>): Header
    requires |data| >= HEADER_SIZE
  {
    Header(data[..16], Read16(data, 16), Read16(data, 18), Read32(data, 20), Read64(data, 24), Read64(data, 32),
           Read16(data, 52), Read16(data, 54), Read16(data, 56))
  }

  function SegmentAt(data: seq<byte>, at: nat): Segment
    requires at + PROGRAM_SIZE <= |data|
  {
    Segment(Read32(data, at), Read32(data, at + 4), Read64(data, at + 8), Read64(data, at + 16), Read64(data, at + 24),
            Read64(data, at + 32), Read64(data, at + 40), Read64(data, at + 48))
  }

  // ---------------------------------------------------------------- validation

  /** `valid_elf_header` */
  predicate ValidHeader(h: Header, size: u64)
    requires |h.ident| == 16
  {
    && h.ident[..7] == [0x7f, 'E' as byte, 'L' as byte, 'F' as byte, 2, 1, 1]
    && h.kind == 2 && h.machine == 62 && h.version == 1
    && h.ehsize == HEADER_SIZE && h.phentsize == PROGRAM_SIZE
    && h.phnum != 0 && h.phnum <= 128
    && h.phoff % 8 == 0 && h.phoff <= size
    && h.phnum <= (size - h.phoff) / PROGRAM_SIZE
  }

  /** Every program header of a valid file can be read. */
  lemma ProgramsInFile(h: Header, size: u64, i: nat)
    requires |h.ident| == 16 && ValidHeader(h, size) && i < h.phnum
    ensures h.phoff + i * PROGRAM_SIZE + PROGRAM_SIZE <= size
  {
  }

  /** The program headers, in file order. */
  function Programs(data: seq<byte>): (segments: seq<Segment>)
    requires HEADER_SIZE <= |data| < U64 && ValidHeader(HeaderOf(data), |data|)
    ensures |segments| == HeaderOf(data).phnum
  {
    var h := HeaderOf(data);
    seq(h.phnum, i requires 0 <= i < h.phnum => ProgramsInFile(h, |data|, i); SegmentAt(data, h.phoff + i * PROGRAM_SIZE))
  }

  /** `valid_segment`, each expression as the source evaluates it. */
  predicate ValidSegment(s: Segment, size: u64) {
    && s.filesz <= s.memsz && s.offset <= size
    && s.filesz <= size - s.offset
    && s.paddr == s.vaddr
    && s.vaddr >= LOW_LIMIT && s.vaddr < PMM_LIMIT
    && s.memsz <= PMM_LIMIT - s.vaddr
    && (s.align <= 1 || (And(s.align, s.align - 1) == 0 && s.vaddr % s.align == s.offset % s.align))
  }

  ghost predicate PowerOfTwo(a: nat) {
    exists k: nat :: a == Pow2(k)
  }

  lemma HalfOfPower(a: nat)
    requires a > 0 && a % 2 == 0
    ensures PowerOfTwo(a / 2) <==> PowerOfTwo(a)
  {
    if PowerOfTwo(a / 2) {
      var k: nat :| a / 2 == Pow2(k);
      assert a == Pow2(k + 1);
    }
    if PowerOfTwo(a) {
      var k: nat :| a == Pow2(k);
      if k > 0 { assert a / 2 == Pow2(k - 1); }
    }
  }

  lemma OddPower(a: nat)
    requires a % 2 == 1 && a > 1
    ensures !PowerOfTwo(a)
  {
    forall k: nat
      ensures a != Pow2(k)
    {
      if k > 0 { assert Pow2(k) % 2 == 0; }
    }
  }

  /** `align & (align - 1)` is the usual test for a power of two. */
  lemma {:induction false} PowerTest(a: nat)
    requires a > 0
    ensures And(a, a - 1) == 0 <==> PowerOfTwo(a)
    decreases a
  {
    if a == 1 {
      assert Pow2(0) == 1;
    } else if a % 2 == 0 {
      PowerTest(a / 2);
      AndStep(a, a - 1);
      assert (a - 1) / 2 == a / 2 - 1;
      HalfOfPower(a);
    } else {
      AndStep(a, a - 1);
      AndSelf(a / 2);
      OddPower(a);
    }
  }

  lemma {:induction false} AndSelf(a: nat)
    ensures And(a, a) == a
    decreases a
  {
    if a > 0 { AndSelf(a / 2); }
  }

  ghost predicate AllValid(segments: seq<Segment>, size: u64) {
    forall i :: 0 <= i < |segments| && segments[i].kind == PT_LOAD ==> ValidSegment(segments[i], size)
  }

  /** What a valid segment is: in bounds of file and memory, placed where it is linked, and aligned. */
  lemma ValidSegmentMeaning(s: Segment, size: u64)
    ensures ValidSegment(s, size) <==>
      && s.filesz <= s.memsz && s.offset + s.filesz <= size
      && s.paddr == s.vaddr && LOW_LIMIT <= s.vaddr < PMM_LIMIT && s.vaddr + s.memsz <= PMM_LIMIT
      && (s.align == 0 || (PowerOfTwo(s.align) && s.vaddr % s.align == s.offset % s.align))
  {
    if s.align > 0 { PowerTest(s.align); }
    if s.align == 1 { assert And(1, 0) == 0; }
  }

  /** Segments of an accepted file do not wrap, and the sums in the source are exact. */
  lemma SumsAreExact(s: Segment, size: u64)
    requires ValidSegment(s, size)
    ensures Wrap(s.vaddr + s.memsz) == s.vaddr + s.memsz
    ensures Wrap(Wrap(s.vaddr + s.memsz) + 4095) == s.vaddr + s.memsz + 4095
    ensures Wrap(s.offset + s.filesz) == s.offset + s.filesz <= size
  {
  }

  // ---------------------------------------------------------------- which files may be loaded

  ghost predicate Overlaps(a: Segment, b: Segment) {
    a.vaddr < b.vaddr + b.memsz && b.vaddr < a.vaddr + a.memsz
  }

  /** What makes `inspect_segments` give up at the i-th header. */
  ghost predicate Rejected(segments: seq<Segment>, size: u64, i: nat)
    requires i < |segments|
  {
    var s := segments[i];
    || s.kind == PT_DYNAMIC || s.kind == PT_INTERP
    || (s.kind == PT_LOAD && !ValidSegment(s, size))
    || (s.Occupies() && exists j :: 0 <= j < i && segments[j].Occupies() && Overlaps(segments[j], s))
  }

  /** The entry point lies in file-backed code of one of the first `n` segments. */
  ghost predicate HasEntry(segments: seq<Segment>, entry: u64, n: nat)
    requires n <= |segments|
  {
    exists i :: 0 <= i < n && segments[i].Occupies() && And(segments[i].flags, 1) != 0 && segments[i].FileBacks(entry)
  }

  datatype Range = Range(base: u64, end: u64)

  function PageStart(x: nat): (y: nat)
    ensures y <= x < y + 4096 && y % 4096 == 0
  {
    x - x % 4096
  }

  /** `x & ~4095` */
  lemma PageMask(x: nat)
    ensures AndNot(x, 4095) == PageStart(x)
  {
    Powers();
    ClearLow(x, 12);
  }

  lemma PageStartIsGreatest(x: nat, y: nat)
    requires y % 4096 == 0 && y <= x
    ensures y <= PageStart(x)
  {
  }

  lemma PageEndIsLeast(x: nat, y: nat)
    requires y % 4096 == 0 && x <= y
    ensures PageStart(x + 4095) <= y
  {
  }

  ghost predicate Begins(s: Segment, base: u64) {
    s.Occupies() && base == PageStart(s.vaddr)
  }

  ghost predicate Ends(s: Segment, end: u64) {
    s.Occupies() && end == PageStart(s.vaddr + s.memsz + 4095)
  }

  ghost predicate Inside(s: Segment, range: Range) {
    s.Occupies() ==> range.base <= s.vaddr && s.vaddr + s.memsz <= range.end
  }

  /** The smallest page range that holds the first `n` segments. */
  ghost predicate Encloses(segments: seq<Segment>, n: nat, range: Range)
    requires n <= |segments|
  {
    && range.base % 4096 == 0 && range.end % 4096 == 0
    && (forall i :: 0 <= i < n ==> Inside(segments[i], range))
    && (exists i :: 0 <= i < n && Begins(segments[i], range.base))
    && (exists i :: 0 <= i < n && Ends(segments[i], range.end))
  }

  /** A file that passes all checks, and the memory it needs. */
  ghost predicate Loadable(segments: seq<Segment>, size: u64, entry: u64, range: Range) {
    && (forall i :: 0 <= i < |segments| ==> !Rejected(segments, size, i))
    && HasEntry(segments, entry, |segments|)
    && Encloses(segments, |segments|, range)
    && range.end - range.base <= SPAN_LIMIT
  }

  ghost predicate DisjointSegments(segments: seq<Segment>) {
    forall i, j :: 0 <= i < j < |segments| && segments[i].Occupies() && segments[j].Occupies()
                   ==> !Overlaps(segments[i], segments[j])
  }

  /** What acceptance implies: disjoint segments in a page-aligned range below 4 GiB. */
  lemma LoadableIsSound(segments: seq<Segment>, size: u64, entry: u64, range: Range)
    requires Loadable(segments, size, entry, range)
    ensures LOW_LIMIT <= range.base < range.end <= PMM_LIMIT && range.end - range.base <= SPAN_LIMIT
    ensures range.base % 4096 == 0 && range.end % 4096 == 0
    ensures AllValid(segments, size) && DisjointSegments(segments)
    ensures exists i :: 0 <= i < |segments| && And(segments[i].flags, 1) != 0 && segments[i].FileBacks(entry)
  {
    hide PageStart, And;
    var i :| 0 <= i < |segments| && Begins(segments[i], range.base);
    var j :| 0 <= j < |segments| && Ends(segments[j], range.end);
    assert !Rejected(segments, size, i) && !Rejected(segments, size, j);
    assert Inside(segments[i], range);
    PageStartIsGreatest(segments[i].vaddr, LOW_LIMIT);
    PageEndIsLeast(segments[j].vaddr + segments[j].memsz, PMM_LIMIT);
    forall k | 0 <= k < |segments| && segments[k].kind == PT_LOAD
      ensures ValidSegment(segments[k], size)
    {
      assert !Rejected(segments, size, k);
    }
    AcceptedAreDisjoint(segments, size);
  }

  lemma AcceptedAreDisjoint(segments: seq<Segment>, size: u64)
    requires forall i :: 0 <= i < |segments| ==> !Rejected(segments, size, i)
    ensures DisjointSegments(segments)
  {
    forall a, b | 0 <= a < b < |segments| && segments[a].Occupies() && segments[b].Occupies()
      ensures !Overlaps(segments[a], segments[b])
    {
      assert !Rejected(segments, size, b);
    }
  }

  /** The range is determined by the file. */
  lemma RangeIsUnique(segments: seq<Segment>, range: Range, range': Range)
    requires Encloses(segments, |segments|, range) && Encloses(segments, |segments|, range')
    ensures range == range'
  {
    hide PageStart;
    var i :| 0 <= i < |segments| && Begins(segments[i], range.base);
    var i' :| 0 <= i' < |segments| && Begins(segments[i'], range'.base);
    var j :| 0 <= j < |segments| && Ends(segments[j], range.end);
    var j' :| 0 <= j' < |segments| && Ends(segments[j'], range'.end);
    assert Inside(segments[i], range') && Inside(segments[i'], range);
    assert Inside(segments[j], range') && Inside(segments[j'], range);
    PageStartIsGreatest(segments[i].vaddr, range'.base);
    PageStartIsGreatest(segments[i'].vaddr, range.base);
    PageEndIsLeast(segments[j].vaddr + segments[j].memsz, range'.end);
    PageEndIsLeast(segments[j'].vaddr + segments[j'].memsz, range.end);
  }

  // ---------------------------------------------------------------- the placed image

  /** The byte at an address after loading: from the file where a segment's file part covers it, else 0. */
  ghost predicate PlacedAt(data: seq<byte>, segments: seq<Segment>, a: nat, b: byte)
    requires |data| < U64 && AllValid(segments, |data|)
  {
    && (forall i :: 0 <= i < |segments| && segments[i].FileBacks(a) ==> b == data[segments[i].offset + (a - segments[i].vaddr)])
    && ((forall i :: 0 <= i < |segments| ==> !segments[i].FileBacks(a)) ==> b == 0)
  }

  lemma NotBoth(segments: seq<Segment>, size: u64, i: nat, j: nat, a: nat)
    requires DisjointSegments(segments) && AllValid(segments, size) && i < j < |segments|
    ensures !(segments[i].FileBacks(a) && segments[j].FileBacks(a))
  {
    if segments[i].Occupies() && segments[j].Occupies() {
      assert !Overlaps(segments[i], segments[j]);
    }
  }

  /** In a file with disjoint segments, at most one file byte claims an address. */
  lemma OneFileByte(segments: seq<Segment>, size: u64, i: nat, j: nat, a: nat)
    requires DisjointSegments(segments) && AllValid(segments, size) && i < |segments| && j < |segments|
    requires segments[i].FileBacks(a) && segments[j].FileBacks(a)
    ensures i == j
  {
    hide DisjointSegments, AllValid;
    if i < j {
      NotBoth(segments, size, i, j, a);
    } else if j < i {
      NotBoth(segments, size, j, i, a);
    }
  }

  /** The order of the program headers makes no difference to the image. */
  lemma OrderIsIrrelevant(data: seq<byte>, segments: seq<Segment>, shuffled: seq<Segment>, a: nat, b: byte, b': byte)
    requires |data| < U64 && AllValid(segments, |data|) && AllValid(shuffled, |data|)
    requires multiset(segments) == multiset(shuffled)
    requires PlacedAt(data, segments, a, b) && PlacedAt(data, shuffled, a, b')
    ensures b == b'
  {
    hide ValidSegment;
    if i :| 0 <= i < |segments| && segments[i].FileBacks(a) {
      assert segments[i] in multiset(shuffled);
      var j :| 0 <= j < |shuffled| && shuffled[j] == segments[i];
    } else {
      forall j | 0 <= j < |shuffled|
        ensures !shuffled[j].FileBacks(a)
      {
        assert shuffled[j] in multiset(segments);
        var i :| 0 <= i < |segments| && segments[i] == shuffled[j];
      }
    }
  }

  lemma TwoPlaces(s: seq<Segment>, x: Segment) returns (a: nat, b: nat)
    requires multiset(s)[x] >= 2
    ensures a < |s| && b < |s| && a != b && s[a] == x && s[b] == x
  {
    assert x in multiset(s);
    a :| a < |s| && s[a] == x;
    var before, after := s[..a], s[a + 1..];
    assert s == before + [x] + after;
    assert multiset(s) == multiset(before) + multiset{x} + multiset(after);
    if x in before {
      b :| b < |before| && before[b] == x;
    } else {
      assert x in multiset(after);
      var c :| 0 <= c < |after| && after[c] == x;
      b := a + 1 + c;
    }
  }

  lemma CountedTwice(s: seq<Segment>, a: nat, b: nat)
    requires a < b < |s| && s[a] == s[b]
    ensures multiset(s)[s[a]] >= 2
  {
    assert s == s[..b] + [s[b]] + s[b + 1..];
    assert multiset(s) == multiset(s[..b]) + multiset{s[b]} + multiset(s[b + 1..]);
    assert s[..b][a] in multiset(s[..b]);
  }

  /** Two headers of a reordered table come from two different places of the table in file order. */
  lemma Places(segments: seq<Segment>, shuffled: seq<Segment>, k: nat, j: nat) returns (a: nat, b: nat)
    requires multiset(segments) == multiset(shuffled) && k < j < |shuffled|
    ensures a < |segments| && b < |segments| && a != b && segments[a] == shuffled[k] && segments[b] == shuffled[j]
  {
    if shuffled[k] == shuffled[j] {
      CountedTwice(shuffled, k, j);
      a, b := TwoPlaces(segments, shuffled[k]);
    } else {
      a, b := Place(segments, shuffled, k), Place(segments, shuffled, j);
    }
  }

  ghost function Place(segments: seq<Segment>, shuffled: seq<Segment>, j: nat): (a: nat)
    requires multiset(segments) == multiset(shuffled) && j < |shuffled|
    ensures a < |segments| && segments[a] == shuffled[j]
  {
    assert shuffled[j] in multiset(segments);
    var a: nat :| a < |segments| && segments[a] == shuffled[j];
    a
  }

  /** Whether a file can be loaded, and where, does not depend on the order of its program headers. */
  lemma AcceptanceIgnoresOrder(segments: seq<Segment>, shuffled: seq<Segment>, size: u64, entry: u64, range: Range)
    requires multiset(segments) == multiset(shuffled) && Loadable(segments, size, entry, range)
    ensures Loadable(shuffled, size, entry, range)
  {
    hide ValidSegment, PageStart, And;
    AcceptedAreDisjoint(segments, size);
    forall j | 0 <= j < |shuffled|
      ensures !Rejected(shuffled, size, j) && Inside(shuffled[j], range)
    {
      var i := Place(segments, shuffled, j);
      assert !Rejected(segments, size, i) && Inside(segments[i], range);
      NotOverlapping(segments, shuffled, j);
    }
    Moved(segments, shuffled, size, entry, range);
  }

  lemma NotOverlapping(segments: seq<Segment>, shuffled: seq<Segment>, j: nat)
    requires multiset(segments) == multiset(shuffled) && DisjointSegments(segments) && j < |shuffled|
    ensures forall k :: 0 <= k < j && shuffled[k].Occupies() && shuffled[j].Occupies() ==> !Overlaps(shuffled[k], shuffled[j])
  {
    forall k | 0 <= k < j && shuffled[k].Occupies() && shuffled[j].Occupies()
      ensures !Overlaps(shuffled[k], shuffled[j])
    {
      var a, b := Places(segments, shuffled, k, j);
      if a < b { assert !Overlaps(segments[a], segments[b]); } else { assert !Overlaps(segments[b], segments[a]); }
    }
  }

  lemma Moved(segments: seq<Segment>, shuffled: seq<Segment>, size: u64, entry: u64, range: Range)
    requires multiset(segments) == multiset(shuffled) && Loadable(segments, size, entry, range)
    ensures HasEntry(shuffled, entry, |shuffled|)
    ensures exists i :: 0 <= i < |shuffled| && Begins(shuffled[i], range.base)
    ensures exists i :: 0 <= i < |shuffled| && Ends(shuffled[i], range.end)
  {
    hide ValidSegment, PageStart, And, Rejected;
    var e :| 0 <= e < |segments| && segments[e].Occupies() && And(segments[e].flags, 1) != 0 && segments[e].FileBacks(entry);
    var b :| 0 <= b < |segments| && Begins(segments[b], range.base);
    var d :| 0 <= d < |segments| && Ends(segments[d], range.end);
    var e', b', d' := Place(shuffled, segments, e), Place(shuffled, segments, b), Place(shuffled, segments, d);
    assert shuffled[e'].Occupies() && Begins(shuffled[b'], range.base) && Ends(shuffled[d'], range.end);
  }
}
