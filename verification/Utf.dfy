/** Codepoints as bytes: UTF-8 (section 3 of RFC 3629) with its MUTF-8 and CESU-8
    variants, and as surrogate pairs (section 2.1 of RFC 2781). */
module Utf {
  import opened Unicode

  const MAX_BYTES := 6

  // Flags: mutf writes \0 as two bytes, cesu writes supplementary codepoints as surrogates.
  datatype Flags = Flags(mutf: bool, cesu: bool)

  const PLAIN := Flags(false, false)

  // The low bits of c >> shift under a mask of 2^width values, below a lead of clear low bits.
  function Bits(c: nat, shift: nat, width: nat, lead: nat): nat
    requires shift > 0 && width > 0
  {
    c / shift % width + lead
  }

  // The byte sequence of a codepoint.
  function Encode(c: nat, flags: Flags): seq<int> {
    if flags.mutf && c == 0 then [0xC0, 0x80]
    else if c < 128 then [Bits(c, 1, 0x80, 0)]
    else if c < 2048 then [Bits(c, 64, 0x20, 0xC0), Bits(c, 1, 0x40, 0x80)]
    else if c < 65536 then [Bits(c, 4096, 0x10, 0xE0), Bits(c, 64, 0x40, 0x80), Bits(c, 1, 0x40, 0x80)]
    else if flags.cesu then
      var d := c - 0x10000;
      [0xED, Bits(d, 65536, 0x10, 0xA0), Bits(d, 1024, 0x40, 0x80),
       0xED, Bits(d, 64, 0x10, 0xB0), Bits(d, 1, 0x40, 0x80)]
    else [Bits(c, 262144, 8, 0xF0), Bits(c, 4096, 0x40, 0x80), Bits(c, 64, 0x40, 0x80), Bits(c, 1, 0x40, 0x80)]
  }

  // The shifts and masks of the encoder are divisions and remainders, and its `|` adds.
  lemma BitsAreBits(c: bv32)
    ensures (c & 0x7F) == c % 0x80
    ensures ((c >> 6) & 0x1F) | 0xC0 == (c / 64) % 0x20 + 0xC0
    ensures ((c >> 12) & 0x0F) | 0xE0 == (c / 4096) % 0x10 + 0xE0
    ensures ((c >> 18) & 0x07) | 0xF0 == (c / 262144) % 8 + 0xF0
    ensures ((c >> 12) & 0x3F) | 0x80 == (c / 4096) % 0x40 + 0x80
    ensures ((c >> 6) & 0x3F) | 0x80 == (c / 64) % 0x40 + 0x80
    ensures (c & 0x3F) | 0x80 == c % 0x40 + 0x80
    ensures ((c >> 16) & 0x0F) | 0xA0 == (c / 65536) % 0x10 + 0xA0
    ensures ((c >> 10) & 0x3F) | 0x80 == (c / 1024) % 0x40 + 0x80
    ensures ((c >> 6) & 0x0F) | 0xB0 == (c / 64) % 0x10 + 0xB0
    ensures ((c >> 10) & 0x3FF) | 0xD800 == (c / 1024) % 0x400 + 0xD800
    ensures (c & 0x3FF) | 0xDC00 == c % 0x400 + 0xDC00
  {
  }

  // The reader's side: the payload bits of each byte, put together.
  function Decode(w: seq<int>): int {
    if |w| == 1 then w[0]
    else if |w| == 2 then (w[0] - 0xC0) * 64 + (w[1] - 0x80)
    else if |w| == 3 then (w[0] - 0xE0) * 4096 + (w[1] - 0x80) * 64 + (w[2] - 0x80)
    else if |w| == 4 then (w[0] - 0xF0) * 262144 + (w[1] - 0x80) * 4096 + (w[2] - 0x80) * 64 + (w[3] - 0x80)
    else if |w| == 6 then
      0x10000 + (w[1] - 0xA0) * 65536 + (w[2] - 0x80) * 1024 + (w[4] - 0xB0) * 64 + (w[5] - 0x80)
    else -1
  }

  // The base-64 digits of a codepoint.
  lemma Digits(c: nat)
    requires c < 0x200000
    ensures 0 <= c / 262144 < 8 && c / 4096 % 64 < 64 && c / 64 % 64 < 64 && c % 64 < 64
    ensures c == c / 262144 * 262144 + c / 4096 % 64 * 4096 + c / 64 % 64 * 64 + c % 64
  {
    var d := c / 64;
    var e := d / 64;
    assert c == 64 * d + c % 64;
    assert d == 64 * e + d % 64;
    assert e == 64 * (e / 64) + e % 64;
    assert c / 4096 == e && c / 262144 == e / 64;
  }

  lemma PairDigits(d: nat)
    requires d < 0x100000
    ensures d / 65536 < 16 && d / 1024 % 64 < 64 && d / 64 % 16 < 16 && d % 64 < 64
    ensures d == d / 65536 * 65536 + d / 1024 % 64 * 1024 + d / 64 % 16 * 64 + d % 64
  {
    var e := d / 64;
    var f := e / 16;
    assert d == 64 * e + d % 64 && e == 16 * f + e % 16 && f == 64 * (f / 64) + f % 64;
    assert d / 1024 == f && d / 65536 == f / 64;
  }

  // A mask wide enough for its value changes nothing.
  lemma Fits(c: nat, shift: nat, width: nat, lead: nat)
    requires shift > 0 && width > 0 && c / shift < width
    ensures Bits(c, shift, width, lead) == c / shift + lead
  {
  }

  // The encoder in terms of the digits.
  ghost predicate InDigits(w: seq<int>, c: nat) {
    if |w| == 2 && c == 0 then w == [0xC0, 0x80]
    else if |w| == 1 then c < 0x80 && w == [c]
    else if |w| == 2 then 0x80 <= c < 0x800 && w == [c / 64 + 0xC0, c % 64 + 0x80]
    else if |w| == 3 then 0x800 <= c < 0x10000 && w == [c / 4096 + 0xE0, c / 64 % 64 + 0x80, c % 64 + 0x80]
    else if |w| == 4 then
      0x10000 <= c && w == [c / 262144 + 0xF0, c / 4096 % 64 + 0x80, c / 64 % 64 + 0x80, c % 64 + 0x80]
    else
      var d := c - 0x10000;
      0 <= d && w == [0xED, d / 65536 + 0xA0, d / 1024 % 64 + 0x80, 0xED, d / 64 % 16 + 0xB0, d % 64 + 0x80]
  }

  lemma ShortDigits(c: nat, flags: Flags)
    requires c < 0x10000
    ensures InDigits(Encode(c, flags), c)
  {
    assert c / 1 == c;
    if c < 0x80 {
      Fits(c, 1, 0x80, 0);
    } else if c < 0x800 {
      Fits(c, 64, 0x20, 0xC0);
    } else {
      Fits(c, 4096, 0x10, 0xE0);
    }
  }

  lemma LongDigits(c: nat, flags: Flags)
    requires 0x10000 <= c <= UNI_MAX
    ensures InDigits(Encode(c, flags), c)
  {
    var d := c - 0x10000;
    assert c / 1 == c && d / 1 == d;
    Fits(c, 262144, 8, 0xF0);
    Fits(d, 65536, 0x10, 0xA0);
  }

  lemma EncodeDigits(c: nat, flags: Flags)
    requires c <= UNI_MAX
    ensures InDigits(Encode(c, flags), c)
  {
    hide Encode, InDigits;
    if c < 0x10000 {
      ShortDigits(c, flags);
    } else {
      LongDigits(c, flags);
    }
  }

  ghost predicate Decodes(w: seq<int>, c: nat) {
    Decode(w) == c && forall i :: 0 <= i < |w| ==> 0 <= w[i] < 256
  }

  lemma DecodesShort(c: nat, flags: Flags)
    requires c < 0x10000
    ensures Decodes(Encode(c, flags), c)
  {
    EncodeDigits(c, flags);
    Digits(c);
    hide Encode;
    assert |Encode(c, flags)| == 2 ==> c < 4096;
    assert c < 4096 ==> c / 64 < 64;
  }

  lemma DecodesLong(c: nat, flags: Flags)
    requires 0x10000 <= c <= UNI_MAX
    ensures Decodes(Encode(c, flags), c)
  {
    EncodeDigits(c, flags);
    Digits(c);
    PairDigits(c - 0x10000);
    hide Encode;
  }

  /** Every encoding, under any flags, is a sequence of bytes that decodes to its codepoint. */
  lemma EncodeDecode(c: nat, flags: Flags)
    requires c <= UNI_MAX
    ensures Decode(Encode(c, flags)) == c
    ensures forall i :: 0 <= i < |Encode(c, flags)| ==> 0 <= Encode(c, flags)[i] < 256
  {
    hide Encode, Decode;
    if c < 0x10000 {
      DecodesShort(c, flags);
    } else {
      DecodesLong(c, flags);
    }
  }

  /** No codepoint encodes like another, under the same flags. */
  lemma EncodeInjective(c: nat, d: nat, flags: Flags)
    requires c <= UNI_MAX && d <= UNI_MAX && Encode(c, flags) == Encode(d, flags)
    ensures c == d
  {
    EncodeDecode(c, flags);
    EncodeDecode(d, flags);
  }

  // ----- The encoder's buffer ---------------------------------------------------

  function Singles(w: seq<int>): (r: seq<Range>)
    ensures |r| == |w|
  {
    seq(|w|, i requires 0 <= i < |w| => Range(w[i], w[i]))
  }

  class SBR {
    var n: nat
    var br: array<Range>

    constructor ()
      ensures fresh(br) && br.Length == MAX_BYTES && n == 0
    {
      n := 0;
      br := new Range[MAX_BYTES](_ => Range(0, 0));
    }

    // EMIT: one more single-valued range.
    method Emit(v: int)
      requires n < br.Length
      modifies this`n, br
      ensures n == old(n) + 1
      ensures br[..n] == old(br[..n]) + [Range(v, v)]
    {
      br[n] := Range(v, v);
      n := n + 1;
    }

    method ToUtf(codepoint: nat, flags: Flags)
      requires br.Length == MAX_BYTES
      modifies this`n, br
      ensures n == |Encode(codepoint, flags)| <= br.Length && br[..n] == Singles(Encode(codepoint, flags))
    {
      hide Bits;
      var c := codepoint;
      n := 0;
      assert br[..0] == [];
      if flags.mutf && c == 0 {
        Emit(0xC0);
        Emit(0x80);
        return;
      }
      if c < 128 {
        Emit(Bits(c, 1, 0x80, 0));
        return;
      }
      if c < 2048 {
        Emit(Bits(c, 64, 0x20, 0xC0));
        Emit(Bits(c, 1, 0x40, 0x80));
        return;
      }
      if c < 65536 {
        Emit(Bits(c, 4096, 0x10, 0xE0));
        Emit(Bits(c, 64, 0x40, 0x80));
        Emit(Bits(c, 1, 0x40, 0x80));
        return;
      }
      if flags.cesu {
        c := c - 0x10000;
        Emit(0xED);
        Emit(Bits(c, 65536, 0x10, 0xA0));
        Emit(Bits(c, 1024, 0x40, 0x80));
        Emit(0xED);
        Emit(Bits(c, 64, 0x10, 0xB0));
        Emit(Bits(c, 1, 0x40, 0x80));
        return;
      }
      Emit(Bits(c, 262144, 8, 0xF0));
      Emit(Bits(c, 4096, 0x40, 0x80));
      Emit(Bits(c, 64, 0x40, 0x80));
      Emit(Bits(c, 1, 0x40, 0x80));
    }
  }

  // ----- Surrogate pairs ----------------------------------------------------------

  function ToChar(c: nat): seq<nat> {
    if c <= UNI_BMP then [c]
    else [Bits(c - (UNI_BMP + 1), 1024, 0x400, 0xD800), Bits(c - (UNI_BMP + 1), 1, 0x400, 0xDC00)]
  }

  // The code's EMIT into a two-place buffer; n places are used.
  method SplitChar(cr: array<Range>, codepoint: nat) returns (n: nat)
    requires cr.Length == 2
    modifies cr
    ensures n == |ToChar(codepoint)| <= 2 && cr[..n] == Singles(ToChar(codepoint))
  {
    var c := codepoint;
    if c <= UNI_BMP {
      cr[0] := Range(c, c);
      return 1;
    }
    c := c - (UNI_BMP + 1);
    var high, low := Bits(c, 1024, 0x400, 0xD800), Bits(c, 1, 0x400, 0xDC00);
    cr[0] := Range(high, high);
    cr[1] := Range(low, low);
    return 2;
  }

  function FromChar(u: seq<int>): int {
    if |u| == 1 then u[0]
    else if |u| == 2 then 0x10000 + (u[0] - 0xD800) * 1024 + (u[1] - 0xDC00)
    else -1
  }

  lemma ToCharFromChar(c: nat)
    requires c <= UNI_MAX
    ensures FromChar(ToChar(c)) == c
    ensures |ToChar(c)| == 2 ==> 0xD800 <= ToChar(c)[0] < 0xDC00 <= ToChar(c)[1] < 0xE000
  {
    if c > UNI_BMP {
      var d := c - 0x10000;
      assert d / 1 == d;
      Fits(d, 1024, 0x400, 0xD800);
      assert d == 1024 * (d / 1024) + d % 1024;
    }
  }

  // The encodings of several codepoints, one after the other.
  function EncodeAll(us: seq<nat>, flags: Flags): seq<int> {
    if us == [] then [] else Encode(us[0], flags) + EncodeAll(us[1..], flags)
  }

  // The digits of a codepoint's surrogates, from those of the offset it splits.
  lemma PairEncodings(d: nat, mutf: bool)
    requires d < 0x100000
    ensures Encode(d / 1024 + 0xD800, Flags(mutf, false)) == [0xED, d / 65536 + 0xA0, d / 1024 % 64 + 0x80]
    ensures Encode(d % 1024 + 0xDC00, Flags(mutf, false)) == [0xED, d / 64 % 16 + 0xB0, d % 64 + 0x80]
  {
    PairDigits(d);
    var h, l := d / 1024 + 0xD800, d % 1024 + 0xDC00;
    EncodeDigits(h, Flags(mutf, false));
    EncodeDigits(l, Flags(mutf, false));
    assert d / 1024 == 64 * (d / 65536) + d / 1024 % 64;
    assert d % 1024 == 64 * (d / 64 % 16) + d % 64;
    assert h == 0xD800 + 64 * (d / 65536) + d / 1024 % 64;
    assert h / 4096 == 13 && h % 64 == d / 1024 % 64 && h / 64 == 864 + d / 65536;
    assert l / 4096 == 13 && l % 64 == d % 64 && l / 64 == 880 + d / 64 % 16;
  }

  /** With the cesu flag the encoding is that of the surrogates without it, whatever is done
      with \0. */
  lemma CesuIsPairs(c: nat, mutf: bool)
    requires c <= UNI_MAX
    ensures EncodeAll(ToChar(c), Flags(mutf, false)) == Encode(c, Flags(mutf, true))
  {
    var u, flags := ToChar(c), Flags(mutf, false);
    if c <= UNI_BMP {
      assert u[1..] == [];
    } else {
      Surrogates(c);
      var d := c - 0x10000;
      PairEncodings(d, mutf);
      LongCesu(c, mutf);
      hide Encode, ToChar;
      assert u[1..] == [u[1]] && u[1..][1..] == [];
      assert EncodeAll(u[1..], flags) == Encode(u[1], flags);
    }
  }

  lemma Surrogates(c: nat)
    requires UNI_BMP < c <= UNI_MAX
    ensures var d := c - 0x10000; ToChar(c) == [d / 1024 + 0xD800, d % 1024 + 0xDC00]
  {
    var d := c - 0x10000;
    assert d / 1 == d;
    Fits(d, 1024, 0x400, 0xD800);
  }

  lemma LongCesu(c: nat, mutf: bool)
    requires UNI_BMP < c <= UNI_MAX
    ensures var d := c - 0x10000;
            Encode(c, Flags(mutf, true)) == [0xED, d / 65536 + 0xA0, d / 1024 % 64 + 0x80, 0xED, d / 64 % 16 + 0xB0, d % 64 + 0x80]
  {
    EncodeDigits(c, Flags(mutf, true));
  }

  // ----- The encodings, said of their bytes ----------------------------------------------------

  // The bytes are UTF-8 for the codepoint: a lead-in and its trailers, none too many.
  predicate IsUtf8(w: seq<int>, c: int) {
    && c == Decode(w) && (forall i :: 1 <= i < |w| ==> Trail(w[i]))
    && match |w|
       case 1 => 0 <= w[0] < 0x80
       case 2 => 0xC0 <= w[0] < 0xE0 && c >= 0x80
       case 3 => 0xE0 <= w[0] < 0xF0 && c >= 0x800
       case 4 => 0xF0 <= w[0] < 0xF8 && c >= 0x10000
       case _ => false
  }

  // As the flags have it: \0 in two bytes, and supplementary codepoints as two surrogates.
  predicate IsEncoding(w: seq<int>, c: nat, flags: Flags) {
    if flags.mutf && c == 0 then w == [0xC0, 0x80]
    else if flags.cesu && c > UNI_BMP then
      |w| == 6 && IsUtf8(w[..3], ToChar(c)[0]) && IsUtf8(w[3..], ToChar(c)[1])
    else IsUtf8(w, c)
  }

  // The number of bytes goes with the codepoint.
  lemma Utf8Length(w: seq<int>, c: int)
    requires IsUtf8(w, c)
    ensures 1 <= |w| <= 4 && 0 <= c && |w| == if c < 0x80 then 1 else if c < 0x800 then 2 else if c < 0x10000 then 3 else 4
  {
    assert forall i :: 1 <= i < |w| ==> Trail(w[i]);
  }

  // Digits in base 64 are determined by their value.
  lemma SameDigit(a: int, b: int, x: int, y: int)
    requires 0 <= x < 64 && 0 <= y < 64 && a * 64 + x == b * 64 + y
    ensures a == b && x == y
  {
  }

  // The bytes of a codepoint are determined.
  lemma Utf8Unique(w: seq<int>, v: seq<int>, c: int)
    requires IsUtf8(w, c) && IsUtf8(v, c)
    ensures w == v
  {
    Utf8Length(w, c);
    Utf8Length(v, c);
    var n := |w|;
    assert forall i :: 1 <= i < n ==> Trail(w[i]) && Trail(v[i]);
    var p, q := Payload(w), Payload(v);
    if n == 2 {
      SameDigit(p[0], q[0], p[1], q[1]);
    } else if n == 3 {
      SameDigit(p[0] * 64 + p[1], q[0] * 64 + q[1], p[2], q[2]);
      SameDigit(p[0], q[0], p[1], q[1]);
    } else if n == 4 {
      SameDigit((p[0] * 64 + p[1]) * 64 + p[2], (q[0] * 64 + q[1]) * 64 + q[2], p[3], q[3]);
      SameDigit(p[0] * 64 + p[1], q[0] * 64 + q[1], p[2], q[2]);
      SameDigit(p[0], q[0], p[1], q[1]);
    }
    forall i | 0 <= i < n ensures w[i] == v[i] { assert p[i] == q[i]; }
  }

  // The bytes without their marks.
  function Payload(w: seq<int>): (p: seq<int>)
    ensures |p| == |w|
  {
    var lead := match |w| case 2 => 0xC0 case 3 => 0xE0 case 4 => 0xF0 case _ => 0;
    seq(|w|, i requires 0 <= i < |w| => if i == 0 then w[0] - lead else w[i] - 0x80)
  }

  lemma EncodeIsUtf8(c: nat, flags: Flags)
    requires c <= UNI_MAX && (c > 0 || !flags.mutf) && (c <= UNI_BMP || !flags.cesu)
    ensures IsUtf8(Encode(c, flags), c)
  {
    EncodeDigits(c, flags);
    EncodeDecode(c, flags);
    Digits(c);
    hide Decode;
  }

  /** Under each of the four settings, the encoding is the one sequence of bytes that setting
      has for the codepoint. */
  lemma EncodingIs(c: nat, flags: Flags, w: seq<int>)
    requires c <= UNI_MAX
    ensures w == Encode(c, flags) <==> IsEncoding(w, c, flags)
  {
    hide Encode, IsUtf8;
    if flags.mutf && c == 0 {
      NullEncoding(flags);
    } else if flags.cesu && c > UNI_BMP {
      CesuParts(c, flags.mutf);
      var e, u := Encode(c, flags), ToChar(c);
      assert flags == Flags(flags.mutf, true);
      if IsEncoding(w, c, flags) {
        Utf8Unique(w[..3], e[..3], u[0]);
        Utf8Unique(w[3..], e[3..], u[1]);
        assert w == w[..3] + w[3..] && e == e[..3] + e[3..];
      }
    } else {
      EncodeIsUtf8(c, flags);
      if IsUtf8(w, c) { Utf8Unique(w, Encode(c, flags), c); }
    }
  }

  lemma NullEncoding(flags: Flags)
    ensures Encode(0, flags) == if flags.mutf then [0xC0, 0x80] else [0]
  {
  }

  lemma CesuParts(c: nat, mutf: bool)
    requires UNI_BMP < c <= UNI_MAX
    ensures var e, u := Encode(c, Flags(mutf, true)), ToChar(c);
            |e| == 6 && |u| == 2 && IsUtf8(e[..3], u[0]) && IsUtf8(e[3..], u[1])
  {
    var d, flags := c - 0x10000, Flags(mutf, false);
    Surrogates(c);
    PairEncodings(d, mutf);
    CesuIsPairs(c, mutf);
    var u := ToChar(c);
    hide ToChar;
    EncodeIsUtf8(u[0], flags);
    EncodeIsUtf8(u[1], flags);
    assert u == [u[0], u[1]] && u[1..] == [u[1]] && [u[1]][1..] == [];
    hide Encode, IsUtf8;
    assert EncodeAll(u[1..], flags) == Encode(u[1], flags);
    var e := Encode(c, Flags(mutf, true));
    assert e == Encode(u[0], flags) + Encode(u[1], flags);
    assert e[..3] == Encode(u[0], flags) && e[3..] == Encode(u[1], flags);
  }

  /** Only \0 is spelled with a zero byte, and under mutf nothing is; so encoded text may end
      in one. */
  lemma ZeroBytes(c: nat, flags: Flags)
    requires c <= UNI_MAX
    ensures 0 in Encode(c, flags) <==> c == 0 && !flags.mutf
  {
    hide Encode;
    NullEncoding(flags);
    EncodeDigits(c, flags);
  }
}
