/** Counting the characters of encoded text: the stepping of the input and the lexer's
    own counter both find one character for every codepoint. */
module CharCount {
  import opened Unicode
  import opened Utf
  import opened LocationIndex

  // A string ends in \0.
  function ByteAt(src: seq<int>, i: nat): int {
    if i < |src| then src[i] else 0
  }

  // The bytes of the character at a place, as the lexer counts: lead-ins with too few
  // trailers, overlong forms and values out of range are bytes standing for themselves.
  function NumUtfBytes(src: seq<int>, i: nat): (n: nat)
    ensures 1 <= n <= 4 && (n == 1 || (n == Announced(ByteAt(src, i)) && Trailers(src, i + 1, n - 1)))
  {
    var byte, b1, b2, b3 := ByteAt(src, i), ByteAt(src, i + 1), ByteAt(src, i + 2), ByteAt(src, i + 3);
    if byte < 0xC0 then 1
    else if byte < 0xE0 then
      if Trail(b1) && (var ch := (byte - 0xC0) * 64 + (b1 - 0x80); ch == 0 || ch >= 0x80) then 2 else 1
    else if byte < 0xF0 then
      if Trail(b1) && Trail(b2) && (byte - 0xE0) * 4096 + (b1 - 0x80) * 64 + (b2 - 0x80) > 0x7FF then 3 else 1
    else if byte < 0xF8 then
      if Trail(b1) && Trail(b2) && Trail(b3) &&
         0x10000 <= (byte - 0xF0) * 262144 + (b1 - 0x80) * 4096 + (b2 - 0x80) * 64 + (b3 - 0x80) <= 0x10FFFF
      then 4 else 1
    else 1
  }

  // Characters from a place up to the end or a \0.
  function Count(src: seq<int>, i: nat): nat
    decreases |src| - i
  {
    if i >= |src| || src[i] == 0 then 0 else 1 + Count(src, i + NumUtfBytes(src, i))
  }

  method NumUtfChars(src: seq<int>) returns (i: nat)
    ensures i == Count(src, 0)
  {
    var at := 0;
    i := 0;
    while ByteAt(src, at) != 0
      invariant i + Count(src, at) == Count(src, 0)
      decreases |src| - at
    {
      at := at + NumUtfBytes(src, at);
      i := i + 1;
    }
  }

  // ----- Encoded text -------------------------------------------------------------------

  // An encoded codepoint: its lead-in announces its length, and its trailers follow.
  lemma EncodedChar(c: nat, flags: Flags)
    requires c <= UNI_MAX && !flags.cesu
    ensures var e := Encode(c, flags);
            && 1 <= |e| <= 4 && Announced(e[0]) == |e|
            && (forall j :: 1 <= j < |e| ==> Trail(e[j]))
            && (c != 0 || flags.mutf ==> e[0] != 0)
            && NumUtfBytes(e, 0) == |e|
  {
    EncodeDigits(c, flags);
    EncodeDecode(c, flags);
    Digits(c);
  }

  // So it does amid other text.
  lemma CharAmid(p: seq<int>, c: nat, flags: Flags, rest: seq<int>)
    requires c <= UNI_MAX && !flags.cesu
    ensures var b, e := p + Encode(c, flags) + rest, Encode(c, flags);
            && |e| > 0 && b[|p|] == e[0] && CharLen(b, |p|) == |e| && NumUtfBytes(b, |p|) == |e|
  {
    hide Encode;
    EncodedChar(c, flags);
    var b, e := p + Encode(c, flags) + rest, Encode(c, flags);
    assert forall j :: 0 <= j < |e| ==> b[|p| + j] == e[j];
    if |e| > 1 {
      assert forall j :: |p| + 1 <= j < |p| + |e| ==> b[j] == e[j - |p|];
    }
  }

  ghost predicate Countable(us: seq<nat>, flags: Flags) {
    !flags.cesu && forall k :: 0 <= k < |us| ==> us[k] <= UNI_MAX && (us[k] != 0 || flags.mutf)
  }

  lemma {:induction false} EncodeAllPlus(us: seq<nat>, vs: seq<nat>, flags: Flags)
    ensures EncodeAll(us + vs, flags) == EncodeAll(us, flags) + EncodeAll(vs, flags)
  {
    hide Encode;
    if us == [] {
      assert us + vs == vs;
    } else {
      EncodeAllPlus(us[1..], vs, flags);
      assert (us + vs)[1..] == us[1..] + vs;
    }
  }

  lemma EncodeAllSplits(us: seq<nat>, k: nat, flags: Flags)
    requires k < |us|
    ensures EncodeAll(us, flags) == EncodeAll(us[..k], flags) + Encode(us[k], flags) + EncodeAll(us[k + 1..], flags)
    ensures EncodeAll(us[..k + 1], flags) == EncodeAll(us[..k], flags) + Encode(us[k], flags)
  {
    assert EncodeAll([us[k]], flags) == Encode(us[k], flags) by {
      assert [us[k]][1..] == [];
    }
    hide Encode, EncodeAll;
    EncodeAllPlus(us[..k], [us[k]], flags);
    EncodeAllPlus(us[..k + 1], us[k + 1..], flags);
    assert us[..k + 1] == us[..k] + [us[k]] && us == us[..k + 1] + us[k + 1..];
  }

  /** Stepping over encoded text takes one character a codepoint, each of the encoder's length. */
  lemma {:induction false} StepsAreCodepoints(us: seq<nat>, k: nat, flags: Flags)
    requires Countable(us, flags) && k <= |us|
    ensures Start(EncodeAll(us, flags), k) == |EncodeAll(us[..k], flags)|
    ensures k < |us| ==> HasLen(EncodeAll(us, flags), k, |Encode(us[k], flags)|)
    decreases k
  {
    hide Encode, CharLen;
    if k > 0 {
      StepsAreCodepoints(us, k - 1, flags);
      EncodeAllSplits(us, k - 1, flags);
    }
    if k < |us| {
      EncodeAllSplits(us, k, flags);
      CharAmid(EncodeAll(us[..k], flags), us[k], flags, EncodeAll(us[k + 1..], flags));
    }
  }

  /** And the lexer's counter gives their number. */
  lemma {:induction false} CountsCodepoints(us: seq<nat>, k: nat, flags: Flags)
    requires Countable(us, flags) && k <= |us|
    ensures Count(EncodeAll(us, flags), |EncodeAll(us[..k], flags)|) == |us| - k
    decreases |us| - k
  {
    hide Encode, CharLen, NumUtfBytes;
    if k < |us| {
      EncodeAllSplits(us, k, flags);
      CharAmid(EncodeAll(us[..k], flags), us[k], flags, EncodeAll(us[k + 1..], flags));
      EncodedChar(us[k], flags);
      CountsCodepoints(us, k + 1, flags);
    } else {
      assert us[..k] == us;
    }
  }

  /** Several bytes count as one character just where they are what some codepoint is encoded
      to, \0 in two bytes. */
  lemma CountsEncodings(src: seq<int>, i: nat, n: nat)
    requires n > 1
    ensures NumUtfBytes(src, i) == n <==>
            i + n <= |src| && exists c: nat :: c <= UNI_MAX && src[i..i + n] == Encode(c, Flags(true, false))
  {
    if i + n <= |src| {
      var w := src[i..i + n];
      assert forall k :: 0 <= k < n ==> ByteAt(src, i + k) == w[k];
      if NumUtfBytes(src, i) == n {
        var c := Decode(w);
        CountedIsUtf8(src, i, n);
        EncodingIs(c, Flags(true, false), w);
      }
      if c: nat :| c <= UNI_MAX && w == Encode(c, Flags(true, false)) {
        EncodedIsCounted(src, i, c);
      }
    }
  }

  lemma CountedIsUtf8(src: seq<int>, i: nat, n: nat)
    requires n > 1 && NumUtfBytes(src, i) == n
    ensures i + n <= |src| && 0 <= Decode(src[i..i + n]) <= UNI_MAX
    ensures IsEncoding(src[i..i + n], Decode(src[i..i + n]), Flags(true, false))
  {
    var w := src[i..i + n];
    assert forall k :: 0 <= k < n ==> ByteAt(src, i + k) == w[k];
    assert forall k :: 1 <= k < n ==> Trail(w[k]);
  }

  lemma EncodedIsCounted(src: seq<int>, i: nat, c: nat)
    requires c <= UNI_MAX && |Encode(c, Flags(true, false))| > 1
    requires i + |Encode(c, Flags(true, false))| <= |src| && src[i..i + |Encode(c, Flags(true, false))|] == Encode(c, Flags(true, false))
    ensures NumUtfBytes(src, i) == |Encode(c, Flags(true, false))|
  {
    var e := Encode(c, Flags(true, false));
    EncodingIs(c, Flags(true, false), e);
    hide Encode;
    assert forall k :: 0 <= k < |e| ==> ByteAt(src, i + k) == e[k];
    assert forall k :: 1 <= k < |e| ==> Trail(e[k]);
  }
}
