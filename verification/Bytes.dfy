/** Bytes, their bits, and the packing of a set of bytes into a bit map.

    The source keeps the members of a bracket class in 16 or 32 bytes and
    reaches them with `c >> 3`, `c & 07` and the table `bittab` of bit weights.
    A byte is an integer here, so its bits are defined by halving. */
module Bytes {
  type byte = x: int | 0 <= x < 256

  /** The byte of a character. */
  function Byte(c: char): byte
    requires c as int < 256
  {
    c as int
  }

  /** The bytes of a string. */
  function Ascii(s: string): (w: seq<byte>)
    ensures |w| == |s| && forall i :: 0 <= i < |s| ==> w[i] == s[i] as int % 256
  {
    seq(|s|, i requires 0 <= i < |s| => s[i] as int % 256)
  }

  lemma AsciiConcat(u: string, v: string)
    ensures Ascii(u + v) == Ascii(u) + Ascii(v)
  {
  }

  lemma Slice<T>(s: seq<T>, a: nat, b: nat, i: nat, j: nat)
    requires a <= b <= |s| && i <= j <= b - a
    ensures s[a..b][i..j] == s[a + i..a + j]
  {
    forall k | 0 <= k < j - i
      ensures s[a..b][i..j][k] == s[a + i..a + j][k]
    {
      assert s[a..b][i..j][k] == s[a..b][i + k] == s[a + i + k];
    }
  }

  /** (x & bittab[k]) != 0 */
  predicate Bit(x: nat, k: nat) {
    if k == 0 then x % 2 == 1 else Bit(x / 2, k - 1)
  }

  /** x | bittab[k] */
  function SetBit(x: nat, k: nat): (y: nat) {
    if k == 0 then x - x % 2 + 1 else 2 * SetBit(x / 2, k - 1) + x % 2
  }

  lemma {:induction false} SetBitBits(x: nat, k: nat, j: nat)
    ensures Bit(SetBit(x, k), j) <==> j == k || Bit(x, j)
  {
    var q, r, y := x / 2, x % 2, SetBit(x, k);
    assert x == 2 * q + r && 0 <= r <= 1;
    if k == 0 {
      assert y == 2 * q + 1 && y / 2 == q && y % 2 == 1;
    } else {
      var z := SetBit(q, k - 1);
      assert y == 2 * z + r && y / 2 == z && y % 2 == r;
      if j == 0 {
      } else {
        SetBitBits(q, k - 1, j - 1);
      }
    }
  }

  lemma {:induction false} SetBitIsByte(x: nat, k: nat, width: nat)
    requires k < width && x < Pow2(width)
    ensures SetBit(x, k) < Pow2(width)
  {
    var half, q, r := Pow2(width - 1), x / 2, x % 2;
    assert x == 2 * q + r && 0 <= r <= 1 && Pow2(width) == 2 * half;
    assert q < half;
    if k == 0 {
      assert SetBit(x, k) == 2 * q + 1;
    } else {
      SetBitIsByte(q, k - 1, width - 1);
      assert SetBit(x, k) == 2 * SetBit(q, k - 1) + r;
    }
  }

  function Pow2(n: nat): nat {
    if n == 0 then 1 else 2 * Pow2(n - 1)
  }

  /** Complementing all bits of a number below 2^width: `^= 0377` when width is 8. */
  lemma {:induction false} ComplementBits(x: nat, width: nat, j: nat)
    requires j < width && x < Pow2(width)
    ensures Bit(Pow2(width) - 1 - x, j) <==> !Bit(x, j)
  {
    if j == 0 {
    } else {
      ComplementBits(x / 2, width - 1, j - 1);
      assert (Pow2(width) - 1 - x) / 2 == Pow2(width - 1) - 1 - x / 2;
    }
  }

  /** A number below 2^width is determined by its bits. */
  lemma {:induction false} SameBits(x: nat, y: nat, width: nat)
    requires x < Pow2(width) && y < Pow2(width)
    requires forall j: nat :: j < width ==> (Bit(x, j) <==> Bit(y, j))
    ensures x == y
  {
    if width == 0 {
    } else {
      assert Bit(x, 0) <==> Bit(y, 0);
      forall j: nat | j < width - 1
        ensures Bit(x / 2, j) <==> Bit(y / 2, j)
      {
        assert Bit(x, j + 1) <==> Bit(y, j + 1);
      }
      SameBits(x / 2, y / 2, width - 1);
    }
  }

  /** ISTHERE(c): bit c of a bit map, eight to the byte. */
  predicate Has(bits: seq<byte>, c: nat)
    requires c < 8 * |bits|
  {
    Bit(bits[c / 8], c % 8)
  }

  /** The number whose bits 0..n-1 say which of base..base+n-1 are members. */
  function Pack(members: set<byte>, base: nat, n: nat): (x: nat)
    ensures x < Pow2(n)
    decreases n
  {
    if n == 0 then 0
    else (if base in members then 1 else 0) + 2 * Pack(members, base + 1, n - 1)
  }

  lemma {:induction false} PackBits(members: set<byte>, base: nat, n: nat, j: nat)
    requires j < n
    ensures Bit(Pack(members, base, n), j) <==> base + j in members
    decreases n
  {
    if j == 0 {
    } else {
      PackBits(members, base + 1, n - 1, j - 1);
    }
  }

  /** The bit map of a set, `len` bytes long. */
  function Bitmap(members: set<byte>, len: nat): (bits: seq<byte>)
    ensures |bits| == len
  {
    assert Pow2(8) == 256;
    seq(len, i requires 0 <= i < len => Pack(members, 8 * i, 8))
  }

  lemma BitmapHas(members: set<byte>, len: nat, c: nat)
    requires c < 8 * len
    ensures Has(Bitmap(members, len), c) <==> c in members
  {
    PackBits(members, 8 * (c / 8), 8, c % 8);
  }

  lemma BitmapBit(bits: seq<byte>, members: set<byte>, i: nat, j: nat)
    requires i < |bits| && j < 8
    requires forall c: nat :: c < 8 * |bits| ==> (Has(bits, c) <==> c in members)
    ensures Bit(bits[i], j) <==> 8 * i + j in members
  {
    var c := 8 * i + j;
    assert c / 8 == i && c % 8 == j;
    assert Has(bits, c) <==> c in members;
  }

  lemma BitmapByte(bits: seq<byte>, members: set<byte>, i: nat, width: nat)
    requires i < |bits| && width == 8 && Pow2(width) == 256
    requires forall j: nat :: j < width ==> (Bit(bits[i], j) <==> 8 * i + j in members)
    ensures bits[i] == Pack(members, 8 * i, width)
  {
    var packed := Pack(members, 8 * i, width);
    forall j: nat | j < width
      ensures Bit(bits[i], j) <==> Bit(packed, j)
    {
      PackBits(members, 8 * i, width, j);
    }
    SameBits(bits[i], packed, width);
  }

  /** A bit map is determined by its members. */
  lemma BitmapUnique(bits: seq<byte>, members: set<byte>)
    requires forall c: nat :: c < 8 * |bits| ==> (Has(bits, c) <==> c in members)
    ensures bits == Bitmap(members, |bits|)
  {
    forall i | 0 <= i < |bits|
      ensures bits[i] == Bitmap(members, |bits|)[i]
    {
      forall j: nat | j < 8 {
        BitmapBit(bits, members, i, j);
      }
      BitmapByte(bits, members, i, 8);
    }
  }

  // ---- Parts of a text ----

  /** w stands at k. */
  predicate At(text: seq<byte>, k: nat, w: seq<byte>) {
    k + |w| <= |text| && text[k..k + |w|] == w
  }

  lemma AtSplit(text: seq<byte>, k: nat, u: seq<byte>, v: seq<byte>)
    requires At(text, k, u + v)
    ensures At(text, k, u) && At(text, k + |u|, v)
  {
    assert text[k..k + |u|] == (u + v)[..|u|];
    assert text[k + |u|..k + |u| + |v|] == (u + v)[|u|..];
  }

  lemma AtFirst(text: seq<byte>, k: nat, w: seq<byte>)
    requires At(text, k, w) && w != []
    ensures k < |text| && text[k] == w[0] && (|w| > 1 ==> k + 1 < |text| && text[k + 1] == w[1])
  {
    assert text[k] == text[k..k + |w|][0];
    if |w| > 1 {
      assert text[k + 1] == text[k..k + |w|][1];
    }
  }

  lemma AtSelf(text: seq<byte>, i: nat, j: nat)
    requires i <= j <= |text|
    ensures At(text, i, text[i..j])
  {
  }

  lemma AtNone(text: seq<byte>, k: nat)
    requires k <= |text|
    ensures At(text, k, [])
  {
  }

  lemma AtOne(text: seq<byte>, k: nat)
    requires k < |text|
    ensures At(text, k, [text[k]])
  {
  }

  lemma AtTwo(text: seq<byte>, k: nat)
    requires k + 1 < |text|
    ensures At(text, k, [text[k], text[k + 1]])
  {
  }

  lemma AtJoin(text: seq<byte>, k: nat, u: seq<byte>, v: seq<byte>)
    requires At(text, k, u) && At(text, k + |u|, v)
    ensures At(text, k, u + v)
  {
    assert text[k..k + |u| + |v|] == text[k..k + |u|] + text[k + |u|..k + |u| + |v|];
  }

  /** The byte at k, or -1 behind the text. */
  function ByteAt(text: seq<byte>, k: nat): int {
    if k < |text| then text[k] else -1
  }
}
