/** ASCII-hex and nibble arithmetic shared by the slcan encoder and decoder. */
module Hex {

  type byte = x: int | 0 <= x < 0x100
  type nibble = x: int | 0 <= x < 0x10

  /** True for '0'-'9', 'A'-'F' and 'a'-'f'. */
  predicate IsHexDigit(c: byte) {
    ('0' as int <= c <= '9' as int) || ('A' as int <= c <= 'F' as int) || ('a' as int <= c <= 'f' as int)
  }

  /** True for the digits the encoder emits: '0'-'9' and 'A'-'F'. */
  predicate IsUpperHexDigit(c: byte) {
    ('0' as int <= c <= '9' as int) || ('A' as int <= c <= 'F' as int)
  }

  /** A hex digit with 'a'-'f' folded to 'A'-'F'. */
  function ToUpperHex(c: byte): (u: byte)
    requires IsHexDigit(c)
    ensures IsUpperHexDigit(u)
  {
    if c >= 'a' as int then c - 32 else c
  }

  /** The encoder's ASCII pass: add 0x30 below ten and 0x37 from ten on. */
  function HexDigit(v: nibble): (c: byte)
    ensures IsUpperHexDigit(c)
    ensures v < 10 ==> c - '0' as int == v
    ensures v >= 10 ==> c - 'A' as int == v - 10
  {
    if v < 0xA then v + 0x30 else v + 0x37
  }

  /** The decoder's conversion of one body character: letters from 'a' or 'A' on count from ten, the rest from '0'. */
  function NibbleOf(c: byte): (v: nibble)
    requires IsHexDigit(c)
    ensures HexDigit(v) == ToUpperHex(c)
  {
    if c >= 'a' as int then c - 'a' as int + 10
    else if c >= 'A' as int then c - 'A' as int + 10
    else c - '0' as int
  }

  /** Rendering a nibble and reading it back gives the nibble. */
  lemma DigitRoundTrip(v: nibble)
    ensures IsHexDigit(HexDigit(v)) && NibbleOf(HexDigit(v)) == v
  {
  }

  predicate AllHex(s: seq<byte>) {
    forall k :: 0 <= k < |s| ==> IsHexDigit(s[k])
  }

  predicate AllUpperHex(s: seq<byte>) {
    forall k :: 0 <= k < |s| ==> IsUpperHexDigit(s[k])
  }

  /** The nibble values of a line of hex digits. */
  function HexValues(s: seq<byte>): (r: seq<nibble>)
    requires AllHex(s)
    ensures |r| == |s|
    ensures forall k :: 0 <= k < |s| ==> HexDigit(r[k]) == ToUpperHex(s[k])
  {
    seq(|s|, k requires 0 <= k < |s| => NibbleOf(s[k]))
  }

  /** The hex digits of a sequence of nibbles. */
  function HexString(s: seq<nibble>): (r: seq<byte>)
    ensures |r| == |s| && AllUpperHex(r)
  {
    seq(|s|, k requires 0 <= k < |s| => HexDigit(s[k]))
  }

  /** Reading back a rendered nibble sequence gives the nibbles. */
  lemma HexValuesOfHexString(s: seq<nibble>)
    ensures AllUpperHex(HexString(s)) && AllHex(HexString(s))
    ensures HexValues(HexString(s)) == s
  {
    forall k | 0 <= k < |s|
      ensures IsHexDigit(HexString(s)[k]) && HexValues(HexString(s))[k] == s[k]
    {
      DigitRoundTrip(s[k]);
    }
  }

  /** Rendering the values of an upper-case hex line gives the line back. */
  lemma HexStringOfHexValues(s: seq<byte>)
    requires AllUpperHex(s)
    ensures AllHex(s) && HexString(HexValues(s)) == s
  {
    assert AllHex(s);
    forall k | 0 <= k < |s|
      ensures HexString(HexValues(s))[k] == s[k]
    {
      assert HexDigit(NibbleOf(s[k])) == ToUpperHex(s[k]);
    }
  }

  function Pow16(n: nat): (p: nat)
    ensures p >= 1
  {
    if n == 0 then 1 else 16 * Pow16(n - 1)
  }

  /** The n low-order nibbles of x, most significant first; higher nibbles are dropped. */
  function Nibbles(x: nat, n: nat): (s: seq<nibble>)
    ensures |s| == n
  {
    if n == 0 then [] else Nibbles(x / 16, n - 1) + [x % 16]
  }

  /** The number whose base-16 digits, most significant first, are s. */
  function FromNibbles(s: seq<nibble>): (x: nat)
    ensures x < Pow16(|s|)
  {
    if s == [] then 0 else FromNibbles(s[..|s| - 1]) * 16 + s[|s| - 1]
  }

  /** Appending a nibble shifts the accumulated number left by one digit. */
  lemma FromNibblesSnoc(s: seq<nibble>, d: nibble)
    ensures FromNibbles(s + [d]) == FromNibbles(s) * 16 + d
  {
    assert (s + [d])[..|s|] == s;
  }

  /** Division is determined by any quotient and remainder that satisfy its defining equation. */
  lemma DivUnique(x: int, d: int, q: int, r: int)
    requires d > 0 && 0 <= r < d && x == q * d + r
    ensures x / d == q && x % d == r
  {
    var q0, r0 := x / d, x % d;
    var k := q - q0;
    assert k * d == q * d - q0 * d;
    assert k * d == r0 - r;
    assert k == 0;
  }

  lemma DivDiv16(x: nat, p: nat)
    requires p >= 1
    ensures x / 16 / p == x / (16 * p)
  {
    var q, r := x / (16 * p), x % (16 * p);
    var y := q * p;
    var r1, r0 := r / 16, r % 16;
    assert x == 16 * y + r && r == 16 * r1 + r0;
    DivUnique(x, 16, y + r1, r0);
    assert r1 < p;
    DivUnique(y + r1, p, q, r1);
  }

  /** Digit i of Nibbles(x, n) is the nibble the encoder extracts by shifting x right by 4 * (n - 1 - i). */
  lemma {:induction false} NibbleAt(x: nat, n: nat, i: nat)
    requires i < n
    ensures Nibbles(x, n)[i] == (x / Pow16(n - 1 - i)) % 16
  {
    if i < n - 1 {
      NibbleAt(x / 16, n - 1, i);
      DivDiv16(x, Pow16(n - 2 - i));
    }
  }

  /** Nibble i, most significant first, of the n low-order nibbles of x: (x >> 4 * (n - 1 - i)) & 0xF. */
  function ShiftedNibble(x: nat, n: nat, i: nat): (v: nibble)
    requires i < n
    ensures v == Nibbles(x, n)[i]
  {
    NibbleAt(x, n, i);
    (x / Pow16(n - 1 - i)) % 16
  }

  /** Reading back the nibbles of a number that fits n digits gives the number. */
  lemma {:induction false} FromNibblesOfNibbles(x: nat, n: nat)
    requires x < Pow16(n)
    ensures FromNibbles(Nibbles(x, n)) == x
  {
    if n > 0 {
      assert x / 16 < Pow16(n - 1);
      FromNibblesOfNibbles(x / 16, n - 1);
      FromNibblesSnoc(Nibbles(x / 16, n - 1), x % 16);
    }
  }

  /** Rendering the number of a nibble sequence with as many digits gives the sequence. */
  lemma {:induction false} NibblesOfFromNibbles(s: seq<nibble>)
    ensures Nibbles(FromNibbles(s), |s|) == s
  {
    if s != [] {
      var init := s[..|s| - 1];
      NibblesOfFromNibbles(init);
      DivUnique(FromNibbles(s), 16, FromNibbles(init), s[|s| - 1]);
      assert init + [s[|s| - 1]] == s;
    }
  }

  /** A data byte as two nibbles: high nibble first. */
  function DataNibbles(d: seq<byte>): (s: seq<nibble>)
    ensures |s| == 2 * |d|
  {
    seq(2 * |d|, k requires 0 <= k < 2 * |d| => if k % 2 == 0 then d[k / 2] / 16 else d[k / 2] % 16)
  }

  /** Data byte j occupies nibbles 2j (high) and 2j + 1 (low). */
  lemma DataNibblesAt(d: seq<byte>, j: nat)
    requires j < |d|
    ensures DataNibbles(d)[2 * j] == d[j] / 16 && DataNibbles(d)[2 * j + 1] == d[j] % 16
  {
    assert (2 * j) / 2 == j && (2 * j) % 2 == 0;
    assert (2 * j + 1) / 2 == j && (2 * j + 1) % 2 == 1;
  }

  /** Pairs of nibbles as bytes, each rebuilt as (high << 4) + low. */
  function PackBytes(s: seq<nibble>): (d: seq<byte>)
    ensures |d| == |s| / 2
  {
    seq(|s| / 2, j requires 0 <= j < |s| / 2 => s[2 * j] as int * 16 + s[2 * j + 1])
  }

  /** Packing the nibbles of some bytes gives the bytes back. */
  lemma PackDataNibbles(d: seq<byte>)
    ensures PackBytes(DataNibbles(d)) == d
  {
    var s := DataNibbles(d);
    forall j | 0 <= j < |d|
      ensures PackBytes(s)[j] == d[j]
    {
      DataNibblesAt(d, j);
    }
  }

  /** Splitting packed bytes into nibbles gives the (even-length) nibble sequence back. */
  lemma DataNibblesOfPack(s: seq<nibble>)
    requires |s| % 2 == 0
    ensures DataNibbles(PackBytes(s)) == s
  {
    var d := PackBytes(s);
    forall k | 0 <= k < |s|
      ensures DataNibbles(d)[k] == s[k]
    {
      var j := k / 2;
      assert d[j] == s[2 * j] as int * 16 + s[2 * j + 1];
      if k % 2 == 0 {
        assert k == 2 * j;
      } else {
        assert k == 2 * j + 1;
      }
    }
  }
}
