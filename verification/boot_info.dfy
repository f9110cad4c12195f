/**
  The loader/kernel contract: boot information, the UEFI memory map, and which pages of
  physical memory the two memory managers may use.
*/
module BootInformation {
  const U64: nat := 0x1_0000_0000_0000_0000
  const PAGE_SIZE: nat := 4096
  const PMM_LIMIT: nat := 0x1_0000_0000
  const LOW_LIMIT: nat := 0x10_0000
  /** Page numbers below PAGE_COUNT lie below 4 GiB; those from LOW_PAGE on lie above 1 MiB. */
  const PAGE_COUNT: nat := 0x10_0000
  const LOW_PAGE: nat := 0x100

  const BOOT_INFO_MAGIC: nat := 0x4f53_4249_4e46_4f31
  const BOOT_INFO_SIZE: nat := 88
  const DESCRIPTOR_PREFIX: nat := 40

  const LOADER_CODE: nat := 1
  const LOADER_DATA: nat := 2
  const CONVENTIONAL: nat := 7

  type u64 = x: nat | x < 0x1_0000_0000_0000_0000

  /** Unsigned 64-bit arithmetic: the result modulo 2^64. */
  function Wrap(x: int): u64 {
    x % U64
  }

  datatype Option<+T> = None | Some(value: T)

  /** One memory descriptor; `runtime` and `writeBack` are attribute bits 63 and 3. */
  datatype Descriptor = Descriptor(kind: nat, start: u64, pages: u64, runtime: bool, writeBack: bool)
  {
    ghost function End(): nat { start + pages * PAGE_SIZE }

    /** The page lies inside the described range. */
    ghost predicate Covers(page: nat) { start <= page * PAGE_SIZE < End() }

    predicate Conventional() { kind == CONVENTIONAL && !runtime }

    predicate Ram() { (kind == LOADER_CODE || kind == LOADER_DATA || kind == CONVENTIONAL) && !runtime }
  }

  /**
    The boot information block at physical address `address`, together with the
    descriptors stored at `memoryMap`, one every `descriptorSize` bytes.
  */
  datatype BootInfo = BootInfo(
    address: u64, magic: u64, version: nat, size: nat,
    memoryMap: u64, memoryMapSize: u64, descriptorSize: u64, descriptorVersion: nat,
    kernelBase: u64, kernelSize: u64, stackBase: u64, stackSize: u64, flags: u64,
    descriptors: seq<Descriptor>)
  {
    /** How many descriptors the map holds. */
    function Count(): nat {
      if descriptorSize == 0 then 0 else memoryMapSize / descriptorSize
    }

    /** Every descriptor the map claims to hold can be read. */
    ghost predicate Readable() { Count() <= |descriptors| }

    ghost function Map(): seq<Descriptor>
      requires Readable()
    {
      descriptors[..Count()]
    }
  }

  predicate ValidRange(base: u64, size: u64) {
    size != 0 && base <= U64 - 1 - size
  }

  predicate ValidBootInfo(info: BootInfo) {
    && info.magic == BOOT_INFO_MAGIC
    && info.version == 2 && info.size == BOOT_INFO_SIZE
    && info.flags == 1
    && info.memoryMap != 0 && info.memoryMap % 8 == 0
    && info.descriptorSize >= DESCRIPTOR_PREFIX
    && info.descriptorSize % 8 == 0 && info.descriptorVersion == 1
    && ValidRange(info.memoryMap, info.memoryMapSize)
    && info.memoryMapSize <= 65536 && info.memoryMapSize % info.descriptorSize == 0
    && ValidRange(info.kernelBase, info.kernelSize)
    && ValidRange(info.stackBase, info.stackSize)
    && ValidRange(info.address, BOOT_INFO_SIZE)
  }

  predicate ValidDescriptor(d: Descriptor) {
    && d.start % PAGE_SIZE == 0 && d.pages != 0
    && d.pages <= (U64 - 1 - d.start) / PAGE_SIZE
  }

  ghost predicate Disjoint(d: Descriptor, e: Descriptor) {
    d.End() <= e.start || e.End() <= d.start
  }

  /** Every range is aligned, non-empty and inside 64 bits, and no two ranges overlap. */
  ghost predicate WellFormedMap(ds: seq<Descriptor>) {
    && (forall i :: 0 <= i < |ds| ==> ValidDescriptor(ds[i]))
    && (forall i, j :: 0 <= j < i < |ds| ==> Disjoint(ds[i], ds[j]))
  }

  /** The byte range [base, base + size) meets the page. */
  ghost predicate Touches(base: nat, size: nat, page: nat) {
    base < (page + 1) * PAGE_SIZE && page * PAGE_SIZE < base + size
  }

  ghost predicate Reserved(info: BootInfo, page: nat) {
    || Touches(info.kernelBase, info.kernelSize, page)
    || Touches(info.address, BOOT_INFO_SIZE, page)
    || Touches(info.memoryMap, info.memoryMapSize, page)
    || Touches(info.stackBase, info.stackSize, page)
  }

  ghost predicate Managed(page: nat) {
    LOW_PAGE <= page < PAGE_COUNT
  }

  ghost predicate ConventionalPage(ds: seq<Descriptor>, page: nat) {
    exists i :: 0 <= i < |ds| && ds[i].Conventional() && ds[i].Covers(page)
  }

  ghost predicate RamPage(ds: seq<Descriptor>, page: nat) {
    exists i :: 0 <= i < |ds| && ds[i].Ram() && ds[i].Covers(page)
  }

  /** The pages between 1 MiB and 4 GiB that conventional, non-runtime descriptors cover. */
  ghost function ConventionalPages(ds: seq<Descriptor>): set<nat> {
    set page | LOW_PAGE <= page < PAGE_COUNT && ConventionalPage(ds, page)
  }

  /** The pages between 1 MiB and 4 GiB that the kernel treats as ordinary RAM. */
  ghost function RamPages(ds: seq<Descriptor>): set<nat> {
    set page | LOW_PAGE <= page < PAGE_COUNT && RamPage(ds, page)
  }

  /** What the physical page allocator hands out: conventional memory nobody else claims. */
  ghost function UsablePages(info: BootInfo): set<nat>
    requires info.Readable()
  {
    set page | page in ConventionalPages(info.Map()) && !Reserved(info, page)
  }

  /** Sums over a valid descriptor do not wrap. */
  lemma EndDoesNotWrap(d: Descriptor)
    requires ValidDescriptor(d)
    ensures d.End() < U64
    ensures Wrap(d.start + Wrap(d.pages * PAGE_SIZE)) == d.End()
  {
    assert d.pages * PAGE_SIZE <= U64 - 1 - d.start;
  }

  /** In a well-formed map a page belongs to at most one descriptor. */
  lemma OneOwner(ds: seq<Descriptor>, i: nat, j: nat, page: nat)
    requires WellFormedMap(ds) && i < |ds| && j < |ds| && i != j
    requires ds[i].Covers(page)
    ensures !ds[j].Covers(page)
  {
    if j < i {
      assert Disjoint(ds[i], ds[j]);
    } else {
      assert Disjoint(ds[j], ds[i]);
    }
  }

  lemma UsableIsRam(info: BootInfo)
    requires info.Readable()
    ensures UsablePages(info) <= RamPages(info.Map())
  {
    forall page | page in UsablePages(info)
      ensures page in RamPages(info.Map())
    {
      var i :| 0 <= i < |info.Map()| && info.Map()[i].Conventional() && info.Map()[i].Covers(page);
      assert info.Map()[i].Ram();
    }
  }
}
