/**
  How kernel/paging.c computes with page-table entries: its own expressions, on the 64-bit
  numbers, each with the field or word that it amounts to.
*/
module Entries {
  import opened Bits
  import opened BootInformation
  import opened RadixTree

  // ---------------------------------------------------------------- reading an entry

  /** `*entry & 1` */
  predicate Present(entry: Word)
    ensures Present(entry) <==> entry.present
  {
    LowestDigit(entry);
    And(Encode(entry), 1) != 0
  }

  lemma LowestDigit(entry: Word)
    ensures And(Encode(entry), 1) != 0 <==> entry.present
  {
    hide And;
    KeepLow(Encode(entry), 1);
    EvenOrOdd(Digit(entry.present), Digit(entry.writable) + 2 * (entry.low + 0x400 *
      (entry.frame + FRAME_LIMIT * (entry.high + 0x800 * Digit(entry.noExecute)))));
  }

  lemma EvenOrOdd(digit: nat, rest: nat)
    requires digit < 2
    ensures (digit + 2 * rest) % Pow2(1) == digit
  {
  }

  /** `entry & ADDRESS_MASK`, as a frame number. */
  function FrameOf(entry: Word): (frame: nat)
    requires Encodable(entry)
    ensures frame == entry.frame
  {
    AddressBits(Encode(entry));
    DecodeEncode(entry);
    And(Encode(entry), ADDRESS_MASK) / PAGE_SIZE
  }

  /** Is the entry zero? */
  predicate IsZero(entry: Word)
    ensures IsZero(entry) <==> entry == ZERO
  {
    Encode(entry) == 0
  }

  /** The rights that `paging_query` reports. */
  function ReportedRights(entry: Word): (flags: nat)
    requires Encodable(entry)
    ensures flags == (if entry.writable then 1 else 0) + (if entry.noExecute then 0 else 2)
  {
    RightsOfBits(entry);
    Or(if And(Encode(entry), 2) != 0 then 1 else 0, if And(Encode(entry), NX) != 0 then 0 else 2)
  }

  lemma RightsOfBits(entry: Word)
    requires Encodable(entry)
    ensures And(Encode(entry), 2) != 0 <==> entry.writable
    ensures And(Encode(entry), NX) != 0 <==> entry.noExecute
    ensures Or(0, 0) == 0 && Or(1, 0) == 1 && Or(0, 2) == 2 && Or(1, 2) == 3
  {
    DecodeEncode(entry);
    TestedBits(Encode(entry));
    SmallFlags(0);
  }

  // ---------------------------------------------------------------- writing an entry

  /** `child | FLAGS` */
  function LinkTo(child: nat): (entry: Word)
    requires child < PAGE_COUNT
    ensures entry == LinkWord(child)
  {
    LinkBits(child);
    Decode(Or(child * PAGE_SIZE, FLAGS))
  }

  /** `physical | leaf_flags(flags)` */
  function LeafFor(physical: u64, flags: nat): (entry: Word)
    requires physical % PAGE_SIZE == 0 && physical < PMM_LIMIT && flags <= 3
    ensures entry == LeafWord(physical / PAGE_SIZE, flags % 2 == 1, flags / 2 == 1) && Encodable(entry)
  {
    LeafBits(physical / PAGE_SIZE, flags);
    Decode(Or(physical, LeafFlags(flags)))
  }

  /** `(*leaf & ADDRESS_MASK) | leaf_flags(flags)` */
  function LeafProtected(leaf: Word, flags: nat): (entry: Word)
    requires Encodable(leaf) && flags <= 3
    ensures entry == LeafWord(leaf.frame, flags % 2 == 1, flags / 2 == 1)
  {
    DecodeEncode(leaf);
    ProtectBits(Encode(leaf), flags);
    Decode(Or(And(Encode(leaf), ADDRESS_MASK), LeafFlags(flags)))
  }

  /** `flags & ~(PAGING_WRITE | PAGING_EXEC)` */
  predicate UnknownFlags(flags: nat)
    ensures UnknownFlags(flags) <==> flags > 3
  {
    Powers();
    ClearLow(flags, 2);
    AndNot(flags, 3) != 0
  }

  // ---------------------------------------------------------------- finding an entry

  /** The page of a 48-bit virtual address, whatever its sign extension. */
  function PageOf(address: u64): nat {
    address / PAGE_SIZE % VIRTUAL_PAGES
  }

  lemma PageAddress(page: nat)
    requires page < PAGE_COUNT
    ensures PageOf(page * PAGE_SIZE) == page
  {
  }

  /** `(address >> shift) & 511`, with shift 39, 30, 21 or 12. */
  function IndexOf(address: u64, level: nat): (index: nat)
    requires level < 4
    ensures index == PageOf(address) / Span(level + 1) % 512
  {
    IndexBits(address, level);
    And(Shr(address, 39 - 9 * level), 511)
  }

  lemma Spans(level: nat)
    requires level < 4
    ensures Pow2(27 - 9 * level) == Span(level + 1)
    ensures VIRTUAL_PAGES == Span(level + 1) * (512 * Span(4 - level))
  {
    assert Pow2(9) == 0x200 && Pow2(18) == 0x4_0000 && Pow2(27) == 0x800_0000;
  }

  lemma IndexBits(address: u64, level: nat)
    requires level < 4
    ensures And(Shr(address, 39 - 9 * level), 511) == PageOf(address) / Span(level + 1) % 512
  {
    hide And, Pow2, Shr, Span;
    Powers();
    KeepLow(Shr(address, 39 - 9 * level), 9);
    ShrTwice(address, 12, 27 - 9 * level);
    ShrValue(address, 12);
    ShrValue(Shr(address, 12), 27 - 9 * level);
    Spans(level);
    var page := address / PAGE_SIZE;
    Euclid(page, VIRTUAL_PAGES);
    HigherDigitsDropOut(page % VIRTUAL_PAGES, Span(level + 1), Span(4 - level), page / VIRTUAL_PAGES);
  }

  /** Digits above the index do not reach it: the sign extension of an address is immaterial. */
  lemma HigherDigitsDropOut(v: nat, span: nat, above: nat, high: nat)
    requires span > 0
    ensures (v + span * (512 * above) * high) / span % 512 == v / span % 512
  {
    Euclid(v, span);
    var q: nat, t: nat := v / span, above * high;
    assert v + span * (512 * above) * high == v % span + span * (q + 512 * t) by {
      assert span * (512 * above) * high == span * (512 * (above * high));
    }
    QuotientRemainder(q + 512 * t, v % span, span);
    QuotientRemainder(q / 512 + t, q % 512, 512);
  }

  // ---------------------------------------------------------------- round trip

  /** The bits that `paging_map` stores give back frame and flags to `paging_query`. */
  lemma QueriedBits(frame: nat, flags: nat)
    requires frame < PAGE_COUNT && flags <= 3
    ensures var bits := Or(frame * PAGE_SIZE, LeafFlags(flags));
      && And(bits, ADDRESS_MASK) == frame * PAGE_SIZE
      && Or(if And(bits, 2) != 0 then 1 else 0, if And(bits, NX) != 0 then 0 else 2) == flags
  {
    hide And, Or, LeafFlags, Decode, Encode;
    LeafBits(frame, flags);
    var bits := Or(frame * PAGE_SIZE, LeafFlags(flags));
    LeafBitsFit(frame, flags);
    AddressBits(bits);
    TestedBits(bits);
    SmallFlags(0);
    RightsOfBits(ZERO);
  }

  lemma LeafBitsFit(frame: nat, flags: nat)
    requires frame < PAGE_COUNT && flags <= 3
    ensures Or(frame * PAGE_SIZE, LeafFlags(flags)) < WORD_LIMIT
  {
    hide Or, And;
    LeafFlagsValue(flags);
    AddressOrFlags(frame, 1 + (if flags % 2 == 1 then 2 else 0), flags / 2 == 0);
  }
}
