/** The 32-bit words that physical memory holds, spelt as the bit fields of an
    80386 page-table entry (section 5.2.4 of the Intel 80386 Programmer's Reference
    Manual).  Directories, tables and user pages all store such words.
 */
module PageEntry {

  /** Bits 31..12, 11..7, 6, 5, 4..3, 2, 1 and 0 of a word. */
  datatype RawWord = Word(frame: nat, high: nat, dirty: bool, accessed: bool, low: nat,
                          user: bool, rw: bool, present: bool)

  predicate Fits(w: RawWord) {
    w.frame < 0x100000 && w.high < 32 && w.low < 4
  }

  type Word = w: RawWord | Fits(w) witness Word(0, 0, false, false, 0, false, false, false)

  const ZERO: Word := Word(0, 0, false, false, 0, false, false, false)

  function Bit(b: bool): (r: nat) {
    if b then 1 else 0
  }

  /** The number the bit fields stand for. */
  function Encode(w: Word): (n: nat)
    ensures n < 0x1_0000_0000
  {
    w.frame * 4096 + w.high * 128 + Bit(w.dirty) * 64 + Bit(w.accessed) * 32
    + w.low * 8 + Bit(w.user) * 4 + Bit(w.rw) * 2 + Bit(w.present)
  }

  function Decode(n: nat): (w: Word)
    requires n < 0x1_0000_0000
  {
    Word(n / 4096, n / 128 % 32, n / 64 % 2 == 1, n / 32 % 2 == 1, n / 8 % 4,
         n / 4 % 2 == 1, n / 2 % 2 == 1, n % 2 == 1)
  }

  /** Every 32-bit number is the encoding of exactly one word. */
  lemma EncodeDecode(n: nat)
    requires n < 0x1_0000_0000
    ensures Encode(Decode(n)) == n
  {
    Shifts(n);
    var _ := Parity(n);
    var _ := Parity(n / 2);
    var _ := Parity(n / 4);
    var _ := Parity(n / 32);
    var _ := Parity(n / 64);
    Join(n / 8, 4);
    Join(n / 128, 32);
  }

  /** The lowest bit of a number, and the rest. */
  lemma Parity(n: nat) returns (bit: nat)
    ensures bit == Bit(n % 2 == 1) && n == 2 * (n / 2) + bit
  {
    bit := n % 2;
  }

  lemma Join(n: nat, k: nat)
    requires k > 0
    ensures n == n / k * k + n % k && 0 <= n % k < k
  {
  }

  lemma DecodeEncode(w: Word)
    ensures Decode(Encode(w)) == w
  {
    var n := Encode(w);
    var f := w.frame * 32 + w.high;
    var e := f * 2 + Bit(w.dirty);
    var d := e * 2 + Bit(w.accessed);
    var c := d * 4 + w.low;
    var b := c * 2 + Bit(w.user);
    var a := b * 2 + Bit(w.rw);
    assert n == a * 2 + Bit(w.present);
    Split(n, 2, a, Bit(w.present));
    Split(a, 2, b, Bit(w.rw));
    Split(b, 2, c, Bit(w.user));
    Split(c, 4, d, w.low);
    Split(d, 2, e, Bit(w.accessed));
    Split(e, 2, f, Bit(w.dirty));
    Split(f, 32, w.frame, w.high);
    Shifts(n);
  }

  /** One long shift is two short ones. */
  lemma Shifts(n: nat)
    ensures n / 4 == n / 2 / 2 && n / 8 == n / 4 / 2 && n / 32 == n / 8 / 4
    ensures n / 64 == n / 32 / 2 && n / 128 == n / 64 / 2 && n / 4096 == n / 128 / 32
  {
  }

  lemma Split(n: nat, k: nat, q: nat, r: nat)
    requires r < k && n == q * k + r
    ensures n / k == q && n % k == r
  {
    var x := n / k;
    assert n == x * k + n % k;
    assert x < q ==> (x + 1) * k <= q * k;
    assert x > q ==> (q + 1) * k <= x * k;
  }

  /** `page | PAGE_ACCESSED | 7`, the entry for a fresh page table. */
  function TableEntry(frame: nat): (w: Word)
    requires frame < 0x100000
    ensures Encode(w) == frame * 4096 + 0x20 + 7
  {
    Word(frame, 0, false, true, 0, true, true, true)
  }

  /** `page | 7`, the entry un_wp_page installs for its private copy. */
  function PrivateEntry(frame: nat): (w: Word)
    requires frame < 0x100000
    ensures Encode(w) == frame * 4096 + 7
  {
    Word(frame, 0, false, false, 0, true, true, true)
  }

  /** `page | (PAGE_DIRTY | PAGE_ACCESSED | 7)`, the entry put_page installs. */
  function MappedEntry(frame: nat): (w: Word)
    requires frame < 0x100000
    ensures Encode(w) == frame * 4096 + 0x40 + 0x20 + 7
  {
    Word(frame, 0, true, true, 0, true, true, true)
  }
}
