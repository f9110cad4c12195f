/**
  The loader/kernel contract, said on single bytes and with the numbers of
  include/boot_info.h: which hand-offs are accepted, which pages may be used, which are mapped.
*/
module BootContract {
  import opened BootInformation
  import opened IdentityMap

  /** The byte lies in the described range. */
  ghost predicate Describes(d: Descriptor, b: nat) {
    d.start <= b < d.start + 4096 * d.pages
  }

  /** Which boot information is accepted: `valid_boot_info`, with sums that must not wrap. */
  lemma BootInfoMeaning(info: BootInfo)
    ensures ValidBootInfo(info) <==>
      && info.magic == 0x4f53_4249_4e46_4f31 && info.version == 2 && info.size == 88 && info.flags == 1
      && 0 < info.memoryMap && info.memoryMap % 8 == 0
      && 0 < info.memoryMapSize <= 65536 && info.memoryMap + info.memoryMapSize < 0x1_0000_0000_0000_0000
      && 40 <= info.descriptorSize && info.descriptorSize % 8 == 0 && info.descriptorVersion == 1
      && info.memoryMapSize % info.descriptorSize == 0
      && 0 < info.kernelSize && info.kernelBase + info.kernelSize < 0x1_0000_0000_0000_0000
      && 0 < info.stackSize && info.stackBase + info.stackSize < 0x1_0000_0000_0000_0000
      && info.address + 88 < 0x1_0000_0000_0000_0000
  {
  }

  /** The descriptors of an accepted map fill it without a rest. */
  lemma CountMeaning(info: BootInfo)
    requires ValidBootInfo(info)
    ensures info.Count() > 0 && info.Count() * info.descriptorSize == info.memoryMapSize
  {
    var n, d := info.memoryMapSize / info.descriptorSize, info.descriptorSize;
    assert info.memoryMapSize == d * n + info.memoryMapSize % d;
    assert d * n == n * d;
  }

  lemma DescriptorMeaning(d: Descriptor)
    ensures ValidDescriptor(d) <==>
      d.start % 4096 == 0 && d.pages > 0 && d.start + 4096 * d.pages < 0x1_0000_0000_0000_0000
  {
  }

  lemma DisjointMeaning(d: Descriptor, e: Descriptor)
    requires d.pages > 0 && e.pages > 0
    ensures Disjoint(d, e) <==> forall b: nat :: !(Describes(d, b) && Describes(e, b))
  {
    var b := if d.start < e.start then e.start else d.start;
    if !Disjoint(d, e) { assert Describes(d, b) && Describes(e, b); }
  }

  /** Which maps are accepted: aligned, non-empty ranges inside 64 bits, and no byte described twice. */
  lemma MapMeaning(ds: seq<Descriptor>)
    ensures WellFormedMap(ds) <==>
      && (forall i :: 0 <= i < |ds| ==>
           ds[i].start % 4096 == 0 && ds[i].pages > 0 && ds[i].start + 4096 * ds[i].pages < 0x1_0000_0000_0000_0000)
      && (forall i, j, b: nat :: 0 <= j < i < |ds| ==> !(Describes(ds[i], b) && Describes(ds[j], b)))
  {
    hide ValidDescriptor, Disjoint, Describes;
    forall i | 0 <= i < |ds|
      ensures ValidDescriptor(ds[i]) <==>
        ds[i].start % 4096 == 0 && ds[i].pages > 0 && ds[i].start + 4096 * ds[i].pages < 0x1_0000_0000_0000_0000
    {
      DescriptorMeaning(ds[i]);
    }
    forall i, j | 0 <= j < i < |ds| && ds[i].pages > 0 && ds[j].pages > 0
      ensures Disjoint(ds[i], ds[j]) <==> forall b: nat :: !(Describes(ds[i], b) && Describes(ds[j], b))
    {
      DisjointMeaning(ds[i], ds[j]);
    }
  }

  lemma TouchesMeaning(base: nat, size: nat, page: nat)
    requires size > 0
    ensures Touches(base, size, page) <==> exists b: nat :: base <= b < base + size && b / 4096 == page
  {
    if Touches(base, size, page) {
      var b := if base < page * 4096 then page * 4096 else base;
      assert base <= b < base + size && b / 4096 == page;
    }
  }

  /**
    Which pages the allocator may hand out: those between 1 MiB and 4 GiB that a
    conventional, non-runtime descriptor covers, and that hold no byte of the kernel, the
    boot information, the memory map or the stack.
  */
  lemma UsableMeaning(info: BootInfo, page: nat)
    requires info.Readable() && ValidBootInfo(info)
    ensures page in UsablePages(info) <==>
      && 0x100 <= page < 0x10_0000
      && (exists i :: 0 <= i < |info.Map()| && info.Map()[i].kind == 7 && !info.Map()[i].runtime
                      && Describes(info.Map()[i], page * 4096))
      && (forall b: nat :: info.kernelBase <= b < info.kernelBase + info.kernelSize ==> b / 4096 != page)
      && (forall b: nat :: info.address <= b < info.address + 88 ==> b / 4096 != page)
      && (forall b: nat :: info.memoryMap <= b < info.memoryMap + info.memoryMapSize ==> b / 4096 != page)
      && (forall b: nat :: info.stackBase <= b < info.stackBase + info.stackSize ==> b / 4096 != page)
  {
    hide Touches, ValidBootInfo;
    BootInfoMeaning(info);
    TouchesMeaning(info.kernelBase, info.kernelSize, page);
    TouchesMeaning(info.address, 88, page);
    TouchesMeaning(info.memoryMap, info.memoryMapSize, page);
    TouchesMeaning(info.stackBase, info.stackSize, page);
    ConventionalMeaning(info.Map(), page);
  }

  lemma ConventionalMeaning(ds: seq<Descriptor>, page: nat)
    ensures page in ConventionalPages(ds) <==>
      && 0x100 <= page < 0x10_0000
      && exists i :: 0 <= i < |ds| && ds[i].kind == 7 && !ds[i].runtime && Describes(ds[i], page * 4096)
  {
    if i :| 0 <= i < |ds| && ds[i].kind == 7 && !ds[i].runtime && Describes(ds[i], page * 4096) {
      assert ds[i].Conventional() && ds[i].Covers(page);
    }
    if ConventionalPage(ds, page) {
      var i :| 0 <= i < |ds| && ds[i].Conventional() && ds[i].Covers(page);
      assert Describes(ds[i], page * 4096);
    }
  }

  /** Which pages are RAM to be mapped: loader code, loader data and conventional memory, nothing else. */
  lemma RamMeaning(ds: seq<Descriptor>, page: nat)
    ensures page in RamPages(ds) <==>
      && 0x100 <= page < 0x10_0000
      && exists i :: 0 <= i < |ds| && ds[i].kind in {1, 2, 7} && !ds[i].runtime && Describes(ds[i], page * 4096)
  {
    if i :| 0 <= i < |ds| && ds[i].kind in {1, 2, 7} && !ds[i].runtime && Describes(ds[i], page * 4096) {
      assert ds[i].Ram() && ds[i].Covers(page);
    }
    if RamPage(ds, page) {
      var i :| 0 <= i < |ds| && ds[i].Ram() && ds[i].Covers(page);
      assert Describes(ds[i], page * 4096);
    }
  }

  /** `paging_init` wants write-back memory exactly where it maps something. */
  lemma WriteBackMeaning(ds: seq<Descriptor>)
    requires WellFormedMap(ds)
    ensures AllWriteBack(ds) <==>
      forall i, page ::
        && 0 <= i < |ds| && ds[i].kind in {1, 2, 7} && !ds[i].runtime
        && 0x100 <= page < 0x10_0000 && Describes(ds[i], page * 4096)
        ==> ds[i].writeBack
  {
    hide Describes;
    forall i | 0 <= i < |ds|
      ensures InManagedRange(ds[i]) <==> exists page :: 0x100 <= page < 0x10_0000 && Describes(ds[i], page * 4096)
    {
      ManagedRangeMeaning(ds[i]);
    }
  }

  lemma ManagedRangeMeaning(d: Descriptor)
    requires ValidDescriptor(d)
    ensures InManagedRange(d) <==> exists page :: 0x100 <= page < 0x10_0000 && Describes(d, page * 4096)
  {
    var page := if d.start < LOW_LIMIT then 0x100 else d.start / 4096;
    if InManagedRange(d) {
      DescriptorMeaning(d);
      assert 0x100 <= page < 0x10_0000 && Describes(d, page * 4096);
    }
  }

  // ---------------------------------------------------------------- what the loader writes

  /**
    The block that `allocate_handoff` and `start_kernel` fill in, for an allocation at
    `base`, a kernel of `pages` pages at `kernel`, and what `GetMemoryMap` has returned.
  */
  function LoaderBlock(base: u64, kernel: u64, pages: nat, mapSize: u64, stride: u64, version: nat,
                       descriptors: seq<Descriptor>): BootInfo
    requires base + 35 * 4096 < U64 && kernel + pages * 4096 < U64
  {
    BootInfo(base, 0x4f53_4249_4e46_4f31, 2, 88, base + 4096, mapSize, stride, version,
             kernel, pages * 4096, base + 4096 + 65536 + 4096, 16 * 4096, 1, descriptors)
  }

  lemma StillAligned(base: nat)
    requires base % 4096 == 0
    ensures (base + 4096) % 8 == 0
  {
  }

  /** The kernel accepts the loader's block exactly if the firmware's map has the size it says. */
  lemma LoaderBlockIsValid(base: u64, kernel: u64, pages: nat, mapSize: u64, stride: u64, version: nat, descriptors: seq<Descriptor>)
    requires base % 4096 == 0 && base + 35 * 4096 < U64 && kernel + pages * 4096 < U64 && 0 < pages
    ensures ValidBootInfo(LoaderBlock(base, kernel, pages, mapSize, stride, version, descriptors)) <==>
      0 < mapSize <= 65536 && 40 <= stride && stride % 8 == 0 && mapSize % stride == 0 && version == 1
  {
    hide ValidBootInfo;
    StillAligned(base);
    BootInfoMeaning(LoaderBlock(base, kernel, pages, mapSize, stride, version, descriptors));
  }

  /** ... and it is laid out as the kernel expects, if the memory map says what was allocated. */
  lemma LoaderBlockLayout(base: u64, kernel: u64, pages: nat, mapSize: u64, stride: u64, version: nat, descriptors: seq<Descriptor>)
    requires base % 4096 == 0 && base + 35 * 4096 < U64 && kernel + pages * 4096 < U64
    requires LoaderBlock(base, kernel, pages, mapSize, stride, version, descriptors).Readable()
    ensures var info := LoaderBlock(base, kernel, pages, mapSize, stride, version, descriptors);
      LoaderLayout(info) <==>
        && mapSize <= 65536
        && (forall page: nat :: Touches(base, 35 * 4096, page) ==> OwnedBy(info.Map(), 2, page))
        && (forall page: nat :: Touches(kernel, pages * 4096, page) ==> OwnedBy(info.Map(), 1, page))
  {
    hide Touches, OwnedBy;
  }
}
