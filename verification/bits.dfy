/**
  The bit-level layer. A 64-bit word is a number below 2^64; `And`, `Or` and `AndNot` are
  the bitwise operators, defined on binary digits.

  Everything above this module speaks about sets of page numbers and about decoded
  page-table words (`Word`). The lemmas here say that the masks, shifts and flag
  constants of the kernel compute exactly what those two views say.
*/
module Bits {

  // ---------------------------------------------------------------- binary digits

  function Pow2(k: nat): (r: nat)
    ensures r > 0
  {
    if k == 0 then 1 else 2 * Pow2(k - 1)
  }

  function And(a: nat, b: nat): nat {
    if a == 0 || b == 0 then 0
    else 2 * And(a / 2, b / 2) + (if a % 2 == 1 && b % 2 == 1 then 1 else 0)
  }

  function Or(a: nat, b: nat): nat
    decreases a + b
  {
    if a == 0 then b else if b == 0 then a
    else 2 * Or(a / 2, b / 2) + (if a % 2 == 1 || b % 2 == 1 then 1 else 0)
  }

  function Xor(a: nat, b: nat): nat
    decreases a + b
  {
    if a == 0 then b else if b == 0 then a
    else 2 * Xor(a / 2, b / 2) + (if a % 2 != b % 2 then 1 else 0)
  }

  /** `a & ~b` */
  function AndNot(a: nat, b: nat): nat {
    if a == 0 then 0
    else 2 * AndNot(a / 2, b / 2) + (if a % 2 == 1 && b % 2 == 0 then 1 else 0)
  }

  predicate BitAt(a: nat, k: nat) {
    if k == 0 then a % 2 == 1 else BitAt(a / 2, k - 1)
  }

  lemma {:induction false} ZeroBits(k: nat)
    ensures !BitAt(0, k)
  {
    if k > 0 { ZeroBits(k - 1); }
  }

  lemma {:induction false} OrBit(a: nat, b: nat, k: nat)
    ensures BitAt(Or(a, b), k) <==> BitAt(a, k) || BitAt(b, k)
    decreases k
  {
    ZeroBits(k);
    if k > 0 && a > 0 && b > 0 { OrBit(a / 2, b / 2, k - 1); }
  }

  lemma {:induction false} AndNotBit(a: nat, b: nat, k: nat)
    ensures BitAt(AndNot(a, b), k) <==> BitAt(a, k) && !BitAt(b, k)
    decreases k
  {
    ZeroBits(k);
    if k > 0 && a > 0 { AndNotBit(a / 2, b / 2, k - 1); }
  }

  lemma {:induction false} OneBit(k: nat, j: nat)
    ensures BitAt(Pow2(k), j) <==> k == j
    decreases k
  {
    if k == 0 {
      if j > 0 { ZeroBits(j - 1); }
    } else if j > 0 {
      OneBit(k - 1, j - 1);
    }
  }

  /** `(a & (1 << k)) != 0` reads bit `k`. */
  lemma {:induction false} TestBit(a: nat, k: nat)
    ensures And(a, Pow2(k)) != 0 <==> BitAt(a, k)
    decreases k
  {
    ZeroBits(k);
    if k > 0 && a > 0 { TestBit(a / 2, k - 1); }
  }

  lemma {:induction false} OrBound(a: nat, b: nat, k: nat)
    requires a < Pow2(k) && b < Pow2(k)
    ensures Or(a, b) < Pow2(k)
    decreases k
  {
    if a > 0 && b > 0 { OrBound(a / 2, b / 2, k - 1); }
  }

  lemma {:induction false} PowersGrow(j: nat, k: nat)
    requires j < k
    ensures Pow2(j) < Pow2(k)
  {
    if j + 1 < k { PowersGrow(j, k - 1); }
  }

  /** `a | (1ull << k)` is a 64-bit word again. */
  lemma SetInWord(a: nat, k: nat)
    requires a < 0x1_0000_0000_0000_0000 && k < 64
    ensures Or(a, Pow2(k)) < 0x1_0000_0000_0000_0000
  {
    Powers();
    assert Pow2(64) == 2 * NX;
    PowersGrow(k, 64);
    OrBound(a, Pow2(k), 64);
  }

  lemma {:induction false} AndNotBound(a: nat, b: nat)
    ensures AndNot(a, b) <= a
    decreases a
  {
    if a > 0 { AndNotBound(a / 2, b / 2); }
  }

  // ---------------------------------------------------------------- bitmaps

  /** The pages below `n` whose bit is set in a bitmap of 64-bit words. */
  ghost function Pages(words: seq<nat>, n: nat): (pages: set<nat>)
    requires n <= 64 * |words|
  {
    if n == 0 then {}
    else if BitAt(words[(n - 1) / 64], (n - 1) % 64) then Pages(words, n - 1) + {n - 1}
    else Pages(words, n - 1)
  }

  lemma {:induction false} PagesBounded(words: seq<nat>, n: nat)
    requires n <= 64 * |words|
    ensures forall p :: p in Pages(words, n) ==> p < n
  {
    if n > 0 { PagesBounded(words, n - 1); }
  }

  lemma {:induction false} PagesMember(words: seq<nat>, n: nat, p: nat)
    requires p < n <= 64 * |words|
    ensures p in Pages(words, n) <==> BitAt(words[p / 64], p % 64)
  {
    PagesBounded(words, n - 1);
    if p < n - 1 { PagesMember(words, n - 1, p); }
  }

  function WithBit(words: seq<nat>, p: nat): seq<nat>
    requires p / 64 < |words|
  {
    words[p / 64 := Or(words[p / 64], Pow2(p % 64))]
  }

  function WithoutBit(words: seq<nat>, p: nat): seq<nat>
    requires p / 64 < |words|
  {
    words[p / 64 := AndNot(words[p / 64], Pow2(p % 64))]
  }

  /** `map[page / 64] |= 1 << (page % 64)` inserts one page and nothing else. */
  lemma PagesSet(words: seq<nat>, n: nat, p: nat)
    requires p < n <= 64 * |words|
    ensures Pages(WithBit(words, p), n) == Pages(words, n) + {p}
  {
    var words' := WithBit(words, p);
    PagesBounded(words, n);
    PagesBounded(words', n);
    forall q | 0 <= q < n
      ensures q in Pages(words', n) <==> q in Pages(words, n) + {p}
    {
      PagesMember(words, n, q);
      PagesMember(words', n, q);
      OrBit(words[p / 64], Pow2(p % 64), q % 64);
      OneBit(p % 64, q % 64);
    }
  }

  /** `map[page / 64] &= ~(1 << (page % 64))` deletes one page and nothing else. */
  lemma PagesClear(words: seq<nat>, n: nat, p: nat)
    requires p < n <= 64 * |words|
    ensures Pages(WithoutBit(words, p), n) == Pages(words, n) - {p}
  {
    var words' := WithoutBit(words, p);
    PagesBounded(words, n);
    PagesBounded(words', n);
    forall q | 0 <= q < n
      ensures q in Pages(words', n) <==> q in Pages(words, n) - {p}
    {
      PagesMember(words, n, q);
      PagesMember(words', n, q);
      AndNotBit(words[p / 64], Pow2(p % 64), q % 64);
      OneBit(p % 64, q % 64);
    }
  }

  lemma {:induction false} PagesOfZeros(words: seq<nat>, n: nat)
    requires n <= 64 * |words|
    requires forall i :: 0 <= i < |words| ==> words[i] == 0
    ensures Pages(words, n) == {}
  {
    if n > 0 {
      PagesOfZeros(words, n - 1);
      ZeroBits((n - 1) % 64);
    }
  }

  // ---------------------------------------------------------------- page-table words

  const WORD_LIMIT: nat := 0x1_0000_0000_0000_0000
  const FRAME_LIMIT: nat := 0x100_0000_0000
  const ADDRESS_MASK: nat := 0x000f_ffff_ffff_f000
  const NX: nat := 0x8000_0000_0000_0000
  /** Present, writable, supervisor. */
  const FLAGS: nat := 3

  /**
    A 64-bit word of physical memory, seen through the fields that 4-level paging gives
    it (section 4.5 of the Intel SDM, Volume 3A). `frame` is bits 51:12; `low` and `high`
    are bits 11:2 and 62:52, which the kernel never sets in a table.
  */
  datatype Word = Word(present: bool, writable: bool, low: nat, frame: nat, high: nat, noExecute: bool)

  function Digit(b: bool): nat {
    if b then 1 else 0
  }

  /** The 64-bit number that a word is stored as. */
  function Encode(w: Word): nat {
    Digit(w.present) + 2 * (Digit(w.writable) + 2 * (w.low + 0x400 *
      (w.frame + FRAME_LIMIT * (w.high + 0x800 * Digit(w.noExecute)))))
  }

  function Decode(b: nat): Word {
    var b2 := b / 2 / 2;
    var b12 := b2 / 0x400;
    var b52 := b12 / FRAME_LIMIT;
    Word(b % 2 == 1, b / 2 % 2 == 1, b2 % 0x400, b12 % FRAME_LIMIT, b52 % 0x800, b52 / 0x800 == 1)
  }

  predicate Encodable(w: Word) {
    w.low < 0x400 && w.frame < FRAME_LIMIT && w.high < 0x800
  }

  const ZERO: Word := Word(false, false, 0, 0, 0, false)

  function LinkWord(frame: nat): Word {
    Word(true, true, 0, frame, 0, false)
  }

  function LeafWord(frame: nat, write: bool, exec: bool): Word {
    Word(true, write, 0, frame, 0, !exec)
  }

  function LeafFlags(flags: nat): nat {
    Or(Or(1, if And(flags, 1) != 0 then 2 else 0), if And(flags, 2) != 0 then 0 else NX)
  }

  lemma MultipleGrows(d: int, x: int)
    requires d > 0
    ensures x >= 1 ==> d * x >= d
    ensures x <= -1 ==> d * x <= -d
  {
    if x >= 1 {
      assert d * x == d + d * (x - 1);
    } else if x <= -1 {
      assert d * x == -d + d * (x + 1);
    }
  }

  lemma QuotientRemainder(q: nat, r: nat, d: nat)
    requires r < d
    ensures (r + d * q) / d == q && (r + d * q) % d == r
  {
    var n := r + d * q;
    assert d * (n / d - q) == r - n % d;
    MultipleGrows(d, n / d - q);
  }

  /** Decoding loses nothing, and every word with fields in range is some 64-bit number. */
  lemma DecodeEncode(w: Word)
    requires Encodable(w)
    ensures Encode(w) < WORD_LIMIT && Decode(Encode(w)) == w
  {
    var b2 := w.low + 0x400 * (w.frame + FRAME_LIMIT * (w.high + 0x800 * Digit(w.noExecute)));
    UpperFields(w.low, w.frame, w.high, Digit(w.noExecute));
    LowerFields(Digit(w.present), Digit(w.writable), b2);
  }

  lemma LowerFields(present: nat, writable: nat, b2: nat)
    requires present <= 1 && writable <= 1
    ensures var b := present + 2 * (writable + 2 * b2);
      b % 2 == present && b / 2 % 2 == writable && b / 2 / 2 == b2
  {
  }

  lemma UpperFields(low: nat, frame: nat, high: nat, noExecute: nat)
    requires low < 0x400 && frame < FRAME_LIMIT && high < 0x800 && noExecute <= 1
    ensures var b2 := low + 0x400 * (frame + FRAME_LIMIT * (high + 0x800 * noExecute));
      && b2 < WORD_LIMIT / 4 && b2 % 0x400 == low && b2 / 0x400 % FRAME_LIMIT == frame
      && b2 / 0x400 / FRAME_LIMIT % 0x800 == high && b2 / 0x400 / FRAME_LIMIT / 0x800 == noExecute
  {
    var b52 := high + 0x800 * noExecute;
    QuotientRemainder(noExecute, high, 0x800);
    QuotientRemainder(b52, frame, FRAME_LIMIT);
    QuotientRemainder(frame + FRAME_LIMIT * b52, low, 0x400);
  }

  lemma EncodeDecode(b: nat)
    requires b < WORD_LIMIT
    ensures Encodable(Decode(b)) && Encode(Decode(b)) == b
  {
    var b2 := b / 2 / 2;
    var b12 := b2 / 0x400;
    var b52 := b12 / FRAME_LIMIT;
    assert b52 < 0x1000;
    assert b52 == b52 % 0x800 + 0x800 * Digit(b52 / 0x800 == 1);
    assert b12 == b12 % FRAME_LIMIT + FRAME_LIMIT * b52;
    assert b2 == b2 % 0x400 + 0x400 * b12;
  }

  lemma AndStep(a: nat, b: nat)
    ensures And(a, b) == 2 * And(a / 2, b / 2) + (if a % 2 == 1 && b % 2 == 1 then 1 else 0)
  {
  }

  lemma OrStep(a: nat, b: nat)
    ensures Or(a, b) == 2 * Or(a / 2, b / 2) + (if a % 2 == 1 || b % 2 == 1 then 1 else 0)
  {
  }

  /** The number whose lowest `k` digits are those of `lo`, with the digits of `hi` above. */
  function Join(k: nat, lo: nat, hi: nat): nat {
    if k == 0 then hi else lo % 2 + 2 * Join(k - 1, lo / 2, hi)
  }

  lemma TwiceTimes(p: nat, x: nat)
    ensures (2 * p) * x == 2 * (p * x)
  {
  }

  lemma {:induction false} JoinValue(k: nat, lo: nat, hi: nat)
    requires lo < Pow2(k)
    ensures Join(k, lo, hi) == lo + Pow2(k) * hi
  {
    if k > 0 {
      JoinValue(k - 1, lo / 2, hi);
      TwiceTimes(Pow2(k - 1), hi);
    }
  }

  lemma JoinStep(k: nat, lo: nat, hi: nat)
    requires k > 0
    ensures Join(k, lo, hi) / 2 == Join(k - 1, lo / 2, hi) && Join(k, lo, hi) % 2 == lo % 2
  {
  }

  /** Bitwise operators work on the low and the high digits of a word separately. */
  lemma {:induction false} AndJoin(k: nat, lo: nat, hi: nat, mlo: nat, mhi: nat)
    ensures And(Join(k, lo, hi), Join(k, mlo, mhi)) == Join(k, And(lo, mlo), And(hi, mhi))
  {
    if k > 0 {
      AndJoin(k - 1, lo / 2, hi, mlo / 2, mhi);
      var bit := if lo % 2 == 1 && mlo % 2 == 1 then 1 else 0;
      assert And(Join(k, lo, hi), Join(k, mlo, mhi)) == 2 * And(Join(k - 1, lo / 2, hi), Join(k - 1, mlo / 2, mhi)) + bit by {
        JoinStep(k, lo, hi);
        JoinStep(k, mlo, mhi);
        AndStep(Join(k, lo, hi), Join(k, mlo, mhi));
      }
      assert And(lo, mlo) / 2 == And(lo / 2, mlo / 2) && And(lo, mlo) % 2 == bit by {
        AndStep(lo, mlo);
      }
    }
  }

  lemma {:induction false} OrJoin(k: nat, lo: nat, hi: nat, mlo: nat, mhi: nat)
    ensures Or(Join(k, lo, hi), Join(k, mlo, mhi)) == Join(k, Or(lo, mlo), Or(hi, mhi))
  {
    if k > 0 {
      OrJoin(k - 1, lo / 2, hi, mlo / 2, mhi);
      var bit := if lo % 2 == 1 || mlo % 2 == 1 then 1 else 0;
      assert Or(Join(k, lo, hi), Join(k, mlo, mhi)) == 2 * Or(Join(k - 1, lo / 2, hi), Join(k - 1, mlo / 2, mhi)) + bit by {
        JoinStep(k, lo, hi);
        JoinStep(k, mlo, mhi);
        OrStep(Join(k, lo, hi), Join(k, mlo, mhi));
      }
      assert Or(lo, mlo) / 2 == Or(lo / 2, mlo / 2) && Or(lo, mlo) % 2 == bit by {
        OrStep(lo, mlo);
      }
    }
  }

  lemma {:induction false} AndOnes(x: nat, k: nat)
    requires x < Pow2(k)
    ensures And(x, Pow2(k) - 1) == x
    decreases k
  {
    if k > 0 && x > 0 { AndOnes(x / 2, k - 1); }
  }

  lemma AndNotStep(a: nat, b: nat)
    ensures AndNot(a, b) == 2 * AndNot(a / 2, b / 2) + (if a % 2 == 1 && b % 2 == 0 then 1 else 0)
  {
  }

  lemma {:induction false} AndNotZero(x: nat)
    ensures AndNot(x, 0) == x
    decreases x
  {
    if x > 0 { AndNotZero(x / 2); }
  }

  lemma {:induction false} ClearJoin(k: nat, lo: nat, hi: nat)
    ensures AndNot(Join(k, lo, hi), Pow2(k) - 1) == Join(k, 0, hi)
    decreases k
  {
    if k == 0 {
      AndNotZero(hi);
    } else {
      ClearJoin(k - 1, lo / 2, hi);
      JoinStep(k, lo, hi);
      AndNotStep(Join(k, lo, hi), Pow2(k) - 1);
    }
  }

  lemma Euclid(x: nat, d: nat)
    requires d > 0
    ensures 0 <= x % d < d && 0 <= x / d && x == x % d + d * (x / d)
  {
  }

  /** `x >> k` */
  function Shr(x: nat, k: nat): nat {
    if k == 0 then x else Shr(x / 2, k - 1)
  }

  /** Dividing in two steps. */
  lemma HalveFirst(x: nat, b: nat)
    requires b > 0
    ensures x / (2 * b) == x / 2 / b
  {
    Euclid(x / 2, b);
    var r, q: nat := x / 2 % b, x / 2 / b;
    var p := b * q;
    assert (2 * b) * q == 2 * p;
    QuotientRemainder(q, x % 2 + 2 * r, 2 * b);
  }

  lemma {:induction false} ShrValue(x: nat, k: nat)
    ensures Shr(x, k) == x / Pow2(k)
    decreases k
  {
    if k > 0 {
      ShrValue(x / 2, k - 1);
      HalveFirst(x, Pow2(k - 1));
    }
  }

  lemma {:induction false} ShrTwice(x: nat, j: nat, k: nat)
    ensures Shr(Shr(x, j), k) == Shr(x, j + k)
    decreases j
  {
    if j > 0 { ShrTwice(x / 2, j - 1, k); }
  }

  /** Masking away the lowest `k` digits. */
  lemma ClearLow(x: nat, k: nat)
    ensures AndNot(x, Pow2(k) - 1) == x - x % Pow2(k)
  {
    hide Pow2, Join, AndNot;
    Euclid(x, Pow2(k));
    var lo: nat, hi: nat := x % Pow2(k), x / Pow2(k);
    JoinValue(k, lo, hi);
    ClearJoin(k, lo, hi);
    JoinValue(k, 0, hi);
  }

  /** Keeping only the lowest `k` digits. */
  lemma KeepLow(x: nat, k: nat)
    ensures And(x, Pow2(k) - 1) == x % Pow2(k)
  {
    hide Pow2, Join, And;
    Euclid(x, Pow2(k));
    var lo: nat, hi: nat := x % Pow2(k), x / Pow2(k);
    JoinValue(k, lo, hi);
    JoinOfLow(k, Pow2(k) - 1);
    AndJoin(k, lo, hi, Pow2(k) - 1, 0);
    AndOnes(lo, k);
    AndZero(hi);
    JoinOfLow(k, lo);
  }

  lemma AndZero(x: nat)
    ensures And(x, 0) == 0
  {
  }

  lemma JoinOfLow(k: nat, lo: nat)
    requires lo < Pow2(k)
    ensures Join(k, lo, 0) == lo
  {
    JoinValue(k, lo, 0);
  }

  lemma Powers()
    ensures Pow2(2) == 4 && Pow2(9) == 0x200 && Pow2(12) == 0x1000 && Pow2(40) == FRAME_LIMIT && Pow2(63) == NX
  {
    assert Pow2(10) == 0x400;
    assert Pow2(20) == 0x10_0000;
    assert Pow2(30) == 0x4000_0000;
    assert Pow2(40) == FRAME_LIMIT;
    assert Pow2(50) == 0x4_0000_0000_0000;
    assert Pow2(60) == 0x1000_0000_0000_0000;
  }

  /** Binary digit `k` of a number. */
  lemma BitMeaning(x: nat, k: nat)
    ensures BitAt(x, k) <==> x / Pow2(k) % 2 == 1
  {
    ShrValue(x, k);
    ShiftedBit(x, k);
  }

  lemma {:induction false} ShiftedBit(x: nat, k: nat)
    ensures BitAt(x, k) <==> Shr(x, k) % 2 == 1
    decreases k
  {
    if k > 0 { ShiftedBit(x / 2, k - 1); }
  }

  lemma {:induction false} JoinBit(n: nat, lo: nat, hi: nat, k: nat)
    ensures BitAt(Join(n, lo, hi), k) <==> if k < n then BitAt(lo, k) else BitAt(hi, k - n)
    decreases n
  {
    if n > 0 {
      JoinStep(n, lo, hi);
      if k > 0 { JoinBit(n - 1, lo / 2, hi, k - 1); }
    }
  }

  /** An encoded word, digit by digit: where each field lies (section 4.5 of the Intel SDM, Volume 3A). */
  lemma EncodedBits(w: Word, k: nat)
    requires Encodable(w)
    ensures BitAt(Encode(w), 0) <==> w.present
    ensures BitAt(Encode(w), 1) <==> w.writable
    ensures BitAt(Encode(w), 63) <==> w.noExecute
    ensures 12 <= k < 52 ==> (BitAt(Encode(w), k) <==> BitAt(w.frame, k - 12))
  {
    hide Encode, Join, BitAt;
    EncodedJoin(w);
    var b52 := Join(11, w.high, Digit(w.noExecute));
    var b12 := Join(40, w.frame, b52);
    var b2 := Join(10, w.low, b12);
    var b1 := Join(1, Digit(w.writable), b2);
    forall k: nat
      ensures BitAt(Encode(w), k) <==>
        if k < 1 then BitAt(Digit(w.present), k) else if k < 2 then BitAt(Digit(w.writable), k - 1)
        else if k < 12 then BitAt(w.low, k - 2) else if k < 52 then BitAt(w.frame, k - 12)
        else if k < 63 then BitAt(w.high, k - 52) else BitAt(Digit(w.noExecute), k - 63)
    {
      JoinBit(1, Digit(w.present), b1, k);
      if k >= 1 { JoinBit(1, Digit(w.writable), b2, k - 1); }
      if k >= 2 { JoinBit(10, w.low, b12, k - 2); }
      if k >= 12 { JoinBit(40, w.frame, b52, k - 12); }
      if k >= 52 { JoinBit(11, w.high, Digit(w.noExecute), k - 52); }
    }
    DigitBit(w.present);
    DigitBit(w.writable);
    DigitBit(w.noExecute);
  }

  lemma DigitBit(b: bool)
    ensures BitAt(Digit(b), 0) <==> b
  {
  }

  lemma EncodedJoin(w: Word)
    requires Encodable(w)
    ensures Encode(w) == Join(1, Digit(w.present), Join(1, Digit(w.writable),
                           Join(10, w.low, Join(40, w.frame, Join(11, w.high, Digit(w.noExecute))))))
  {
    hide Join, Pow2;
    Powers();
    SmallPowers();
    var b52 := Join(11, w.high, Digit(w.noExecute));
    JoinValue(11, w.high, Digit(w.noExecute));
    JoinValue(40, w.frame, b52);
    var b12 := Join(40, w.frame, b52);
    JoinValue(10, w.low, b12);
    var b2 := Join(10, w.low, b12);
    JoinValue(1, Digit(w.writable), b2);
    JoinValue(1, Digit(w.present), Join(1, Digit(w.writable), b2));
  }

  lemma SmallPowers()
    ensures Pow2(1) == 2 && Pow2(10) == 0x400 && Pow2(11) == 0x800
  {
  }

  lemma OrPage(frame: nat, low: nat, high: nat)
    requires low < 0x1000
    ensures Or(0x1000 * frame, low + 0x1000 * high) == low + 0x1000 * Or(frame, high)
  {
    Powers();
    JoinValue(12, 0, frame);
    JoinValue(12, low, high);
    OrJoin(12, 0, frame, low, high);
    JoinValue(12, low, Or(frame, high));
  }

  lemma OrAboveFrame(frame: nat, top: nat)
    requires frame < FRAME_LIMIT
    ensures Or(frame, FRAME_LIMIT * top) == frame + FRAME_LIMIT * top
  {
    hide Pow2, Join;
    Powers();
    JoinValue(40, frame, 0);
    JoinValue(40, 0, top);
    OrJoin(40, frame, 0, 0, top);
    JoinValue(40, frame, top);
  }

  /** An address word or-ed with flag bits in 11:0 and 63 is their sum. */
  lemma AddressOrFlags(frame: nat, low: nat, nx: bool)
    requires frame < FRAME_LIMIT && low < 0x1000
    ensures Or(0x1000 * frame, low + (if nx then NX else 0)) == low + 0x1000 * frame + (if nx then NX else 0)
  {
    var top := if nx then 0x800 else 0;
    OrPage(frame, low, FRAME_LIMIT * top);
    OrAboveFrame(frame, top);
  }

  lemma OrTopBit(low: nat)
    requires low < 0x1000
    ensures Or(low, NX) == low + NX
  {
    Powers();
    var hi := 0x8_0000_0000_0000;
    JoinValue(12, low, 0);
    JoinValue(12, 0, hi);
    OrJoin(12, low, 0, 0, hi);
    JoinValue(12, low, hi);
  }

  lemma SmallFlags(flags: nat)
    requires flags < 4
    ensures And(flags, 1) == flags % 2 && And(flags, 2) == flags / 2 * 2
    ensures Or(1, 2) == 3 && Or(1, 0) == 1
  {
    assert And(0, 1) == 0 && And(1, 1) == 1 && And(2, 1) == 0 && And(3, 1) == 1;
    assert And(0, 2) == 0 && And(1, 2) == 0 && And(2, 2) == 2 && And(3, 2) == 2;
  }

  lemma LeafFlagsValue(flags: nat)
    requires flags < 4
    ensures LeafFlags(flags) == 1 + (if flags % 2 == 1 then 2 else 0) + (if flags / 2 == 1 then 0 else NX)
  {
    SmallFlags(flags);
    OrTopBit(1);
    OrTopBit(3);
  }

  /** `child | FLAGS` is the link word of the child's frame. */
  lemma LinkBits(child: nat)
    requires child < FRAME_LIMIT
    ensures Decode(Or(0x1000 * child, FLAGS)) == LinkWord(child)
  {
    AddressOrFlags(child, 3, false);
    DecodeEncode(LinkWord(child));
  }

  lemma LeafNumber(frame: nat, write: bool, exec: bool)
    requires frame < FRAME_LIMIT
    ensures Decode(Or(0x1000 * frame, 1 + (if write then 2 else 0) + (if exec then 0 else NX))) == LeafWord(frame, write, exec)
  {
    AddressOrFlags(frame, 1 + (if write then 2 else 0), !exec);
    DecodeEncode(LeafWord(frame, write, exec));
  }

  /** `physical | leaf_flags(flags)` is a leaf word with exactly the requested rights. */
  lemma LeafBits(physical: nat, flags: nat)
    requires physical < FRAME_LIMIT && flags < 4
    ensures Decode(Or(0x1000 * physical, LeafFlags(flags))) == LeafWord(physical, flags % 2 == 1, flags / 2 == 1)
  {
    LeafFlagsValue(flags);
    LeafNumber(physical, flags % 2 == 1, flags / 2 == 1);
  }

  /** The three flag words of `map_page`: ordinary RAM, code, read-only data. */
  lemma IdentityBits(page: nat)
    requires page < FRAME_LIMIT
    ensures Decode(Or(0x1000 * page, FLAGS + NX)) == LeafWord(page, true, false)
    ensures Decode(Or(0x1000 * page, 1)) == LeafWord(page, false, true)
    ensures Decode(Or(0x1000 * page, 1 + NX)) == LeafWord(page, false, false)
  {
    LeafNumber(page, true, false);
    LeafNumber(page, false, true);
    LeafNumber(page, false, false);
  }

  lemma FrameOfWord(b: nat)
    ensures Decode(b).frame == b / 0x1000 % FRAME_LIMIT
  {
    assert b / 2 / 2 / 0x400 == b / 0x1000;
  }

  lemma MaskAboveOffset(low: nat, q: nat)
    requires low < 0x1000
    ensures And(low + 0x1000 * q, ADDRESS_MASK) == 0x1000 * And(q, FRAME_LIMIT - 1)
  {
    hide And;
    Powers();
    JoinValue(12, low, q);
    JoinValue(12, 0, FRAME_LIMIT - 1);
    AndJoin(12, low, q, 0, FRAME_LIMIT - 1);
    AndZero(low);
    JoinValue(12, 0, And(q, FRAME_LIMIT - 1));
  }

  /** `entry & ADDRESS_MASK` is the address of the frame that the entry names. */
  lemma AddressBits(b: nat)
    ensures And(b, ADDRESS_MASK) == 0x1000 * Decode(b).frame
  {
    hide And, Decode, Pow2;
    Powers();
    FrameOfWord(b);
    MaskAboveOffset(b % 0x1000, b / 0x1000);
    KeepLow(b / 0x1000, 40);
  }

  /** `(*leaf & ADDRESS_MASK) | leaf_flags(flags)` keeps the frame and replaces the rights. */
  lemma ProtectBits(b: nat, flags: nat)
    requires b < WORD_LIMIT && flags < 4
    ensures Decode(Or(And(b, ADDRESS_MASK), LeafFlags(flags)))
         == LeafWord(Decode(b).frame, flags % 2 == 1, flags / 2 == 1)
  {
    AddressBits(b);
    LeafBits(Decode(b).frame, flags);
  }

  /** The bit tests of the kernel: `& 1`, `& 2`, `& NX`, and comparison with zero. */
  lemma TestedBits(b: nat)
    requires b < WORD_LIMIT
    ensures And(b, 1) != 0 <==> Decode(b).present
    ensures And(b, 2) != 0 <==> Decode(b).writable
    ensures And(b, NX) != 0 <==> Decode(b).noExecute
    ensures b == 0 <==> Decode(b) == ZERO
  {
    Powers();
    TestBit(b, 0);
    TestBit(b, 1);
    TestBit(b, 63);
    TopBit(b, 63);
    EncodeDecode(b);
    assert Pow2(1) == 2;
    assert b / 2 / 2 / 0x400 / FRAME_LIMIT / 0x800 == b / NX;
    assert Encode(ZERO) == 0;
  }

  lemma {:induction false} TopBit(a: nat, k: nat)
    requires a < 2 * Pow2(k)
    ensures BitAt(a, k) <==> a / Pow2(k) == 1
    ensures a / Pow2(k) == 1 <==> a >= Pow2(k)
    decreases k
  {
    if a >= Pow2(k) {
      QuotientRemainder(1, a - Pow2(k), Pow2(k));
    } else {
      QuotientRemainder(0, a, Pow2(k));
    }
    if k > 0 { TopBit(a / 2, k - 1); }
  }
}
