/** A 64-bit memory word, seen through the bit-fields of a page table entry.

    The kernel reads the same physical words as page table entries, as free-list
    nodes and as data.  `Word` is the record of the twelve bit-fields of
    `page_table_entry_t`; `ToNat` and `FromNat` show that it is a bijection with
    the 64-bit numbers, so nothing is lost by storing records in memory. */
module Words {

  const PAGE_SIZE := 4096
  const WORDS_PER_FRAME := 512
  const TWO_64 := 0x1_0000_0000_0000_0000
  const MAX_FRAMES := 0x100_0000_0000

  type Bits4 = n: nat | n < 0x10
  type Bits11 = n: nat | n < 0x800
  type Bits40 = n: nat | n < MAX_FRAMES
  type Byte = n: nat | n < 0x100

  datatype Word = Word(
    present: bool, writable: bool, user: bool, writeThrough: bool, cacheDisable: bool,
    accessed: bool, dirty: bool, pageSize: bool, unused0: Bits4,
    frame: Bits40, unused1: Bits11, noExecute: bool)

  const ZERO := Word(false, false, false, false, false, false, false, false, 0, 0, 0, false)

  // The mark pmem_free leaves in the first word of a free frame.
  const SERIAL := Word(true, true, false, false, false, false, true, false, 0xF, 0x21FC92, 0, false)

  // A frame number as the 40-bit field keeps it.
  function Trunc40(f: nat): (r: Bits40)
    ensures f < MAX_FRAMES ==> r == f
  {
    f % MAX_FRAMES
  }

  // The word holding the page-aligned physical address of frame f.
  function Pointer(f: nat): Word {
    ZERO.(frame := Trunc40(f))
  }

  function Bit(b: bool): nat {
    if b then 1 else 0
  }

  // The first eight fields, one bit each.
  function Flags(w: Word): seq<bool> {
    [w.present, w.writable, w.user, w.writeThrough, w.cacheDisable, w.accessed, w.dirty, w.pageSize]
  }

  function Pow(b: nat, k: nat): nat {
    if k == 0 then 1 else b * Pow(b, k - 1)
  }

  lemma PowZero(b: nat)
    ensures Pow(b, 0) == 1
  {
  }

  lemma PowStep(b: nat, k: nat)
    requires k > 0
    ensures Pow(b, k) == b * Pow(b, k - 1)
  {
  }

  function FromBits(s: seq<bool>): nat {
    if s == [] then 0 else Bit(s[0]) + 2 * FromBits(s[1..])
  }

  lemma {:induction false} FromBitsBound(s: seq<bool>)
    ensures FromBits(s) < Pow(2, |s|)
  {
    hide Pow;
    if s == [] {
      PowZero(2);
    } else {
      PowStep(2, |s|);
      FromBitsBound(s[1..]);
    }
  }

  function BitAt(n: nat, k: nat): bool {
    if k == 0 then n % 2 == 1 else BitAt(n / 2, k - 1)
  }

  lemma {:induction false} BitAtFromBits(s: seq<bool>, k: nat)
    requires k < |s|
    ensures BitAt(FromBits(s), k) == s[k]
  {
    if k > 0 {
      assert FromBits(s) / 2 == FromBits(s[1..]);
      BitAtFromBits(s[1..], k - 1);
    }
  }

  lemma {:induction false} FromBitsBitAt(s: seq<bool>, n: nat)
    requires n < Pow(2, |s|)
    requires forall k: nat :: k < |s| ==> s[k] == BitAt(n, k)
    ensures FromBits(s) == n
  {
    hide Pow;
    if s == [] {
      PowZero(2);
    } else {
      PowStep(2, |s|);
      assert s[0] == BitAt(n, 0);
      forall k: nat | k < |s[1..]| ensures s[1..][k] == BitAt(n / 2, k) {
        assert s[1..][k] == s[k + 1] == BitAt(n, k + 1);
      }
      FromBitsBitAt(s[1..], n / 2);
    }
  }

  function LowByte(w: Word): (n: nat)
    ensures n < 0x100
  {
    assert Pow(2, 8) == 0x100;
    FromBitsBound(Flags(w));
    FromBits(Flags(w))
  }

  function HighPart(w: Word): (n: nat)
    ensures n < 0x100_0000_0000_0000
  {
    w.unused0 + 0x10 * (w.frame + MAX_FRAMES * (w.unused1 + 0x800 * Bit(w.noExecute)))
  }

  // The number the processor sees, least significant field first.
  function ToNat(w: Word): (n: nat)
    ensures n < TWO_64
  {
    LowByte(w) + 0x100 * HighPart(w)
  }

  function FromParts(low: nat, high: nat): Word {
    Word(BitAt(low, 0), BitAt(low, 1), BitAt(low, 2), BitAt(low, 3),
         BitAt(low, 4), BitAt(low, 5), BitAt(low, 6), BitAt(low, 7),
         high % 0x10, high / 0x10 % MAX_FRAMES, high / 0x10 / MAX_FRAMES % 0x800,
         high / 0x10 / MAX_FRAMES / 0x800 == 1)
  }

  function FromNat(n: nat): Word {
    FromParts(n % 0x100, n / 0x100)
  }

  lemma HighFields(w: Word)
    ensures var h := HighPart(w);
      && h % 0x10 == w.unused0 && h / 0x10 % MAX_FRAMES == w.frame
      && h / 0x10 / MAX_FRAMES % 0x800 == w.unused1 && (h / 0x10 / MAX_FRAMES / 0x800 == 1) == w.noExecute
  {
    var x := w.unused1 + 0x800 * Bit(w.noExecute);
    var g := w.frame + MAX_FRAMES * x;
    assert HighPart(w) / 0x10 == g && g / MAX_FRAMES == x;
  }

  lemma FromPartsOfWord(w: Word)
    ensures FromParts(LowByte(w), HighPart(w)) == w
  {
    var n, s := LowByte(w), Flags(w);
    BitAtFromBits(s, 0); BitAtFromBits(s, 1); BitAtFromBits(s, 2); BitAtFromBits(s, 3);
    BitAtFromBits(s, 4); BitAtFromBits(s, 5); BitAtFromBits(s, 6); BitAtFromBits(s, 7);
    HighFields(w);
  }

  lemma PartsOfFromParts(low: nat, high: nat)
    requires low < 0x100 && high < 0x100_0000_0000_0000
    ensures LowByte(FromParts(low, high)) == low
    ensures HighPart(FromParts(low, high)) == high
  {
    assert Pow(2, 8) == 0x100;
    FromBitsBitAt(Flags(FromParts(low, high)), low);
    assert high / 0x10 / MAX_FRAMES / 0x800 < 2;
  }

  // Page table entries and 64-bit numbers are in bijection.
  lemma WordIsUint64(w: Word, n: nat)
    requires n < TWO_64
    ensures FromNat(ToNat(w)) == w
    ensures ToNat(FromNat(n)) == n
  {
    assert ToNat(w) / 0x100 == HighPart(w) && ToNat(w) % 0x100 == LowByte(w);
    FromPartsOfWord(w);
    PartsOfFromParts(n % 0x100, n / 0x100);
  }

  /** Which bits of the number are which fields, as the processor reads them. */
  lemma EntryBits(w: Word)
    ensures var n := ToNat(w);
      && (w.present <==> n % 2 == 1) && (w.writable <==> n / 2 % 2 == 1) && (w.user <==> n / 4 % 2 == 1)
      && (w.accessed <==> n / 0x20 % 2 == 1) && (w.dirty <==> n / 0x40 % 2 == 1) && (w.pageSize <==> n / 0x80 % 2 == 1)
      && w.unused0 == n / 0x100 % 0x10 && w.frame == n / 0x1000 % 0x100_0000_0000
      && (w.noExecute <==> n / 0x8000_0000_0000_0000 == 1)
  {
    hide ToNat, LowByte, HighPart;
    var low, high := LowByte(w), HighPart(w);
    LowBits(w);
    HighFields(w);
    Sum(w);
    LowOfSum(low, high);
    HighOfSum(low, high);
  }

  lemma Sum(w: Word)
    ensures ToNat(w) == LowByte(w) + 0x100 * HighPart(w)
  {
  }

  lemma LowOfSum(low: nat, high: nat)
    requires low < 0x100
    ensures var n := low + 0x100 * high;
      && n % 2 == low % 2 && n / 2 % 2 == low / 2 % 2 && n / 4 % 2 == low / 4 % 2
      && n / 0x20 % 2 == low / 0x20 % 2 && n / 0x40 % 2 == low / 0x40 % 2 && n / 0x80 % 2 == low / 0x80 % 2
  {
    LowQuotients(low, high);
    HighQuotients(low, high);
    EvenAway(low, 0x80 * high);
    EvenAway(low / 2, 0x40 * high);
    EvenAway(low / 4, 0x20 * high);
    EvenAway(low / 0x20, 4 * high);
    EvenAway(low / 0x40, 2 * high);
    EvenAway(low / 0x80, high);
  }

  lemma LowQuotients(low: nat, high: nat)
    ensures (low + 0x100 * high) / 2 == low / 2 + 2 * (0x40 * high)
    ensures (low + 0x100 * high) / 4 == low / 4 + 2 * (0x20 * high)
  {
  }

  lemma HighQuotients(low: nat, high: nat)
    ensures (low + 0x100 * high) / 0x20 == low / 0x20 + 2 * (4 * high)
    ensures (low + 0x100 * high) / 0x40 == low / 0x40 + 2 * (2 * high)
    ensures (low + 0x100 * high) / 0x80 == low / 0x80 + 2 * high
  {
  }

  lemma EvenAway(a: nat, b: nat)
    ensures (a + 2 * b) % 2 == a % 2
  {
  }

  lemma HighOfSum(low: nat, high: nat)
    requires low < 0x100
    ensures var n := low + 0x100 * high;
      && n / 0x100 == high && n / 0x1000 == high / 0x10
      && n / 0x8000_0000_0000_0000 == high / 0x10 / MAX_FRAMES / 0x800
  {
    var n := low + 0x100 * high;
    assert n / 0x100 == high;
    assert n / 0x1000 == n / 0x100 / 0x10;
    assert n / 0x8000_0000_0000_0000 == n / 0x1000 / MAX_FRAMES / 0x800;
  }

  lemma LowBits(w: Word)
    ensures var low := LowByte(w);
      && (w.present <==> low % 2 == 1) && (w.writable <==> low / 2 % 2 == 1) && (w.user <==> low / 4 % 2 == 1)
      && (w.accessed <==> low / 0x20 % 2 == 1) && (w.dirty <==> low / 0x40 % 2 == 1)
      && (w.pageSize <==> low / 0x80 % 2 == 1)
  {
    hide BitAt, FromBits;
    var s := Flags(w);
    BitAtFromBits(s, 0); BitAtFromBits(s, 1); BitAtFromBits(s, 2);
    BitAtFromBits(s, 5); BitAtFromBits(s, 6); BitAtFromBits(s, 7);
    EightBits(LowByte(w));
  }

  // The first eight bits of n.
  lemma EightBits(n: nat)
    ensures (BitAt(n, 0) <==> n % 2 == 1) && (BitAt(n, 1) <==> n / 2 % 2 == 1) && (BitAt(n, 2) <==> n / 4 % 2 == 1)
    ensures (BitAt(n, 3) <==> n / 8 % 2 == 1) && (BitAt(n, 4) <==> n / 0x10 % 2 == 1)
    ensures (BitAt(n, 5) <==> n / 0x20 % 2 == 1) && (BitAt(n, 6) <==> n / 0x40 % 2 == 1)
    ensures BitAt(n, 7) <==> n / 0x80 % 2 == 1
  {
    hide BitAt;
    FourBits(n);
    FourBits(n / 0x10);
    assert n / 2 / 2 == n / 4 && n / 4 / 2 == n / 8 && n / 8 / 2 == n / 0x10;
    assert n / 0x10 / 2 == n / 0x20 && n / 0x20 / 2 == n / 0x40 && n / 0x40 / 2 == n / 0x80;
    assert forall k: nat :: BitAt(n, k + 4) == BitAt(n / 0x10, k);
    assert BitAt(n, 0 + 4) == BitAt(n / 0x10, 0) && BitAt(n, 1 + 4) == BitAt(n / 0x10, 1);
    assert BitAt(n, 2 + 4) == BitAt(n / 0x10, 2) && BitAt(n, 3 + 4) == BitAt(n / 0x10, 3);
  }

  lemma FourBits(n: nat)
    ensures (BitAt(n, 0) <==> n % 2 == 1) && (BitAt(n, 1) <==> n / 2 % 2 == 1)
    ensures (BitAt(n, 2) <==> n / 2 / 2 % 2 == 1) && (BitAt(n, 3) <==> n / 2 / 2 / 2 % 2 == 1)
    ensures forall k: nat :: BitAt(n, k + 4) == BitAt(n / 2 / 2 / 2 / 2, k)
  {
    forall k: nat ensures BitAt(n, k + 4) == BitAt(n / 2 / 2 / 2 / 2, k) {
      assert BitAt(n, k + 4) == BitAt(n / 2, k + 3) == BitAt(n / 2 / 2, k + 2) == BitAt(n / 2 / 2 / 2, k + 1);
    }
  }

  // The two constants as the kernel writes them.
  lemma MarkAndPointers(f: Bits40)
    ensures ToNat(SERIAL) == 9123213123
    ensures ToNat(Pointer(f)) == f * PAGE_SIZE
  {
    assert LowByte(ZERO) == 0;
    assert Flags(Pointer(f)) == Flags(ZERO);
    assert LowByte(SERIAL) == 0x43 by {
      assert FromBits([true, false]) == 1;
      assert FromBits([false, false, true, false]) == 4;
    }
  }

  // Why no page table can carry the mark: bits 8 to 11 of the mark are all set.
  lemma MarkNeedsUnusedBits(w: Word)
    ensures w.unused0 != 0xF ==> ToNat(w) != 9123213123
  {
    assert ToNat(w) / 0x100 == HighPart(w);
    HighFields(w);
  }

  // ---- the eight bytes of a word ----

  function NatByte(n: nat, k: nat): Byte {
    if k == 0 then n % 0x100 else NatByte(n / 0x100, k - 1)
  }

  function WithNatByte(n: nat, k: nat, b: Byte): nat {
    if k == 0 then n - n % 0x100 + b else n % 0x100 + 0x100 * WithNatByte(n / 0x100, k - 1, b)
  }

  lemma {:induction false} WithNatByteBound(n: nat, k: nat, b: Byte, width: nat)
    requires k < width && n < Pow(0x100, width)
    ensures WithNatByte(n, k, b) < Pow(0x100, width)
  {
    hide Pow;
    PowStep(0x100, width);
    if k > 0 {
      WithNatByteBound(n / 0x100, k - 1, b, width - 1);
    }
  }

  lemma {:induction false} NatByteOfWith(n: nat, k: nat, b: Byte, j: nat)
    ensures NatByte(WithNatByte(n, k, b), j) == if j == k then b else NatByte(n, j)
  {
    var m := WithNatByte(n, k, b);
    if k == 0 {
      assert m / 0x100 == n / 0x100;
    } else {
      assert m % 0x100 == n % 0x100 && m / 0x100 == WithNatByte(n / 0x100, k - 1, b);
      if j > 0 {
        NatByteOfWith(n / 0x100, k - 1, b, j - 1);
      }
    }
  }

  function GetByte(w: Word, k: nat): Byte {
    NatByte(ToNat(w), k)
  }

  /** Bytes of a word are numbered from the least significant on. */
  lemma LittleEndian(w: Word)
    ensures ToNat(w) == GetByte(w, 0) + 0x100 * GetByte(w, 1) + 0x1_0000 * GetByte(w, 2) + 0x100_0000 * GetByte(w, 3)
      + 0x1_0000_0000 * (GetByte(w, 4) + 0x100 * GetByte(w, 5) + 0x1_0000 * GetByte(w, 6) + 0x100_0000 * GetByte(w, 7))
  {
    hide NatByte, ToNat;
    var n := ToNat(w);
    assert n == n % 0x1_0000_0000 + 0x1_0000_0000 * (n / 0x1_0000_0000) && n / 0x1_0000_0000 < 0x1_0000_0000;
    FourBytes(n);
    FourBytes(n / 0x1_0000_0000);
    NatByteShift(n, 0);
    NatByteShift(n, 1);
    NatByteShift(n, 2);
    NatByteShift(n, 3);
  }

  lemma ByteDown(n: nat, k: nat)
    ensures NatByte(n, k) == if k == 0 then n % 0x100 else NatByte(n / 0x100, k - 1)
  {
  }

  lemma FourBytes(n: nat)
    ensures n % 0x1_0000_0000 ==
      NatByte(n, 0) + 0x100 * NatByte(n, 1) + 0x1_0000 * NatByte(n, 2) + 0x100_0000 * NatByte(n, 3)
  {
    hide NatByte;
    var a, b, c := n / 0x100, n / 0x100 / 0x100, n / 0x100 / 0x100 / 0x100;
    ByteDown(n, 0); ByteDown(a, 0); ByteDown(b, 0); ByteDown(c, 0);
    ByteDown(n, 1); ByteDown(n, 2); ByteDown(n, 3); ByteDown(a, 1); ByteDown(a, 2); ByteDown(b, 1);
    Digits256(n, a, b, c, c / 0x100);
  }

  lemma Digits256(n: nat, a: nat, b: nat, c: nat, d: nat)
    requires a == n / 0x100 && b == a / 0x100 && c == b / 0x100 && d == c / 0x100
    ensures n % 0x1_0000_0000 == n % 0x100 + 0x100 * (a % 0x100) + 0x1_0000 * (b % 0x100) + 0x100_0000 * (c % 0x100)
  {
    SumOfDigits(n % 0x100, a % 0x100, b % 0x100, c % 0x100, d);
    assert n == 0x100 * a + n % 0x100 && a == 0x100 * b + a % 0x100 && b == 0x100 * c + b % 0x100;
    assert c == 0x100 * d + c % 0x100;
  }

  lemma SumOfDigits(w: nat, x: nat, y: nat, z: nat, d: nat)
    requires w < 0x100 && x < 0x100 && y < 0x100 && z < 0x100
    ensures (0x100 * (0x100 * (0x100 * (0x100 * d + z) + y) + x) + w) % 0x1_0000_0000
      == w + 0x100 * x + 0x1_0000 * y + 0x100_0000 * z
  {
    var r := w + 0x100 * x + 0x1_0000 * y + 0x100_0000 * z;
    assert r < 0x1_0000_0000;
    assert 0x100 * (0x100 * (0x100 * (0x100 * d + z) + y) + x) + w == 0x1_0000_0000 * d + r;
  }

  lemma NatByteShift(n: nat, k: nat)
    ensures NatByte(n, k + 4) == NatByte(n / 0x1_0000_0000, k)
  {
    var a, b, c := n / 0x100, n / 0x100 / 0x100, n / 0x100 / 0x100 / 0x100;
    hide NatByte;
    ByteDown(n, k + 4); ByteDown(a, k + 3); ByteDown(b, k + 2); ByteDown(c, k + 1);
    assert c / 0x100 == n / 0x1_0000_0000;
  }

  function SetByte(w: Word, k: nat, b: Byte): (r: Word)
    requires k < 8
    ensures forall j: nat :: GetByte(r, j) == if j == k then b else GetByte(w, j)
  {
    assert Pow(0x100, 8) == TWO_64;
    WithNatByteBound(ToNat(w), k, b, 8);
    var n := WithNatByte(ToNat(w), k, b);
    assert forall j: nat :: NatByte(n, j) == if j == k then b else NatByte(ToNat(w), j) by {
      forall j: nat ensures NatByte(n, j) == if j == k then b else NatByte(ToNat(w), j) {
        NatByteOfWith(ToNat(w), k, b, j);
      }
    }
    WordIsUint64(w, n);
    FromNat(n)
  }
}
