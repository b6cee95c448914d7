/** Machine words, their tags, and bytes in memory order. */
module Words {

  const TWO_64 := 0x1_0000_0000_0000_0000
  const TWO_63 := 0x8000_0000_0000_0000
  const TWO_61 := 0x2000_0000_0000_0000
  const TWO_32 := 0x1_0000_0000

  type Word = w: int | 0 <= w < TWO_64
  type Byte = b: int | 0 <= b < 256

  const NIL: Word := 0x03
  const TRUE: Word := 0x07
  const FALSE: Word := 0x0B

  /** Tag 00: an object pointer. */
  predicate IsObject(w: Word) { w % 4 == 0 }

  predicate IsSmallInt(w: Word) { w % 4 == 1 }

  /** Reduction of an integer to a 64-bit word. */
  function Wrap(i: int): (w: Word)
    ensures 0 <= i < TWO_64 ==> w == i
  {
    i % TWO_64
  }

  /** A word read as a signed 64-bit integer. */
  function Signed(w: Word): (i: int)
    ensures -TWO_63 <= i < TWO_63
  {
    if w < TWO_63 then w else w - TWO_64
  }

  function TagSmallInt(i: int): Word { Wrap(4 * i + 1) }

  /** A code point above the four bits of its tag. */
  function TagCharacter(c: int): Word { Wrap(16 * c + 15) }

  /** Arithmetic shift right by the tag width. */
  function UntagSmallInt(w: Word): int { Signed(w) / 4 }

  /** Reducing a summand first does not matter. */
  lemma WrapSum(a: int, d: int)
    ensures Wrap(a + Wrap(d)) == Wrap(a + d)
  {
    var q := d / TWO_64;
    assert a + d == a + d % TWO_64 + TWO_64 * q;
    ModPlus(a + d % TWO_64, q);
  }

  lemma ModPlus(x: int, q: int)
    ensures (x + TWO_64 * q) % TWO_64 == x % TWO_64
  {
    assert x + TWO_64 * q == TWO_64 * (x / TWO_64 + q) + x % TWO_64;
  }

  /** Two words whose difference is lost in a sum are one. */
  lemma SameWord(a: Word, b: Word, c: int)
    requires Wrap(a - b + c) == Wrap(c)
    ensures a == b
  {
    var q, r := (a - b + c) / TWO_64, c / TWO_64;
    assert a - b == TWO_64 * (q - r);
  }

  /** An object's offset from one base, taken from another: it comes back, and anything else does not. */
  lemma OffsetBack(p: Word, at: Word, offset: Word, base: int)
    requires at % 4 == 0 && offset == if p % 4 == 0 then (p - at) % TWO_64 else 0
    ensures Wrap(base + offset) == Wrap(p - at + base) <==> p % 4 == 0
  {
    if p % 4 == 0 {
      WrapSum(base, p - at);
    } else if Wrap(base) == Wrap(p - at + base) {
      SameWord(p, at, base);
    }
  }

  // ----------------------------------------------------------------- bytes of a word

  /** The `n` low bytes of a number, lowest first. */
  function LowBytes(i: nat, n: nat): (r: seq<Byte>)
    ensures |r| == n
    decreases n
  {
    if n == 0 then [] else [i % 256] + LowBytes(i / 256, n - 1)
  }

  function OfBytes(s: seq<Byte>): nat {
    if s == [] then 0 else s[0] + 256 * OfBytes(s[1..])
  }

  function Power(n: nat): (r: nat)
    ensures r >= 1
  {
    if n == 0 then 1 else 256 * Power(n - 1)
  }

  lemma {:induction false} BytesBound(s: seq<Byte>)
    ensures OfBytes(s) < Power(|s|)
  {
    if s != [] {
      BytesBound(s[1..]);
    }
  }

  lemma Split(b: Byte, high: nat)
    ensures (b + 256 * high) % 256 == b && (b + 256 * high) / 256 == high
  {
  }

  lemma {:induction false} BytesBack(s: seq<Byte>)
    ensures LowBytes(OfBytes(s), |s|) == s
  {
    if s != [] {
      BytesBack(s[1..]);
      Split(s[0], OfBytes(s[1..]));
    }
  }

  lemma {:induction false} NumberBack(i: nat, n: nat)
    requires i < Power(n)
    ensures OfBytes(LowBytes(i, n)) == i
    decreases n
  {
    if n > 0 {
      NumberBack(i / 256, n - 1);
    }
  }

  lemma EightBytes()
    ensures Power(8) == TWO_64
  {
    assert Power(2) == 0x1_0000;
    assert Power(4) == 0x1_0000_0000;
    assert Power(6) == 0x1_0000_0000_0000;
  }

  /** A word with one of its bytes replaced. */
  function SetByte(w: Word, k: nat, b: Byte): (r: Word)
    requires k < 8
    ensures LowBytes(r, 8) == LowBytes(w, 8)[k := b]
  {
    var s := LowBytes(w, 8)[k := b];
    BytesBound(s);
    BytesBack(s);
    EightBytes();
    OfBytes(s)
  }
}
