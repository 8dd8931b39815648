/** Code points as bytes: the encoder of the streams and the decoder of the lexer. */
module Utf8 {

  type Bytes = seq<bv8>

  // ---------------------------------------------------------------------------------------------
  // The encoder
  // ---------------------------------------------------------------------------------------------

  /** The bytes of a code point; none at all from 0x200000 on, where the program gives up. */
  function Encoded(chr: bv32): Bytes {
    if chr < 0x80 then [chr as bv8]
    else if chr < 0x800 then [(0xC0 | (chr >> 6)) as bv8, (0x80 | (chr & 0x3F)) as bv8]
    else if chr < 0x10000 then
      [(0xE0 | (chr >> 12)) as bv8, (0x80 | ((chr >> 6) & 0x3F)) as bv8, (0x80 | (chr & 0x3F)) as bv8]
    else if chr < 0x200000 then
      [(0xF0 | (chr >> 18)) as bv8, (0x80 | ((chr >> 12) & 0x3F)) as bv8, (0x80 | ((chr >> 6) & 0x3F)) as bv8,
       (0x80 | (chr & 0x3F)) as bv8]
    else []
  }

  class Stream {
    var bytes: Bytes

    constructor ()
      ensures bytes == []
    {
      bytes := [];
    }

    /** Stream_putUtf8; `ok` is false where the program stops. */
    method PutUtf8(chr: bv32) returns (ok: bool)
      modifies this
      ensures ok <==> chr < 0x200000
      ensures bytes == old(bytes) + Encoded(chr)
    {
      ok := chr < 0x200000;
      if chr < 0x80 {
        bytes := bytes + [chr as bv8];
      } else if chr < 0x800 {
        bytes := bytes + [(0xC0 | (chr >> 6)) as bv8, (0x80 | (chr & 0x3F)) as bv8];
      } else if chr < 0x10000 {
        bytes := bytes + [(0xE0 | (chr >> 12)) as bv8, (0x80 | ((chr >> 6) & 0x3F)) as bv8,
            (0x80 | (chr & 0x3F)) as bv8];
      } else if ok {
        bytes := bytes + [(0xF0 | (chr >> 18)) as bv8, (0x80 | ((chr >> 12) & 0x3F)) as bv8,
                          (0x80 | ((chr >> 6) & 0x3F)) as bv8, (0x80 | (chr & 0x3F)) as bv8];
      }
    }
  }

  // ---------------------------------------------------------------------------------------------
  // The decoder
  // ---------------------------------------------------------------------------------------------

  /** The bits of a byte from the top. */
  function Mask(n: nat): bv8
    requires n < 8
  {
    [0x80, 0x40, 0x20, 0x10, 0x08, 0x04, 0x02, 0x01][n]
  }

  /** The number of ones at the top of a byte. */
  function LeadingOnes(c: bv8): (n: nat)
    ensures n <= 8
  {
    if c < 0x80 then 0 else if c < 0xC0 then 1 else if c < 0xE0 then 2 else if c < 0xF0 then 3
    else if c < 0xF8 then 4 else if c < 0xFC then 5 else if c < 0xFE then 6 else if c < 0xFF then 7 else 8
  }

  lemma OneMoreOne(c: bv8, n: nat)
    requires n < 8 && n <= LeadingOnes(c)
    ensures c & Mask(n) == 0 <==> n == LeadingOnes(c)
    ensures n < 7 ==> Mask(n) >> 1 == Mask(n + 1)
  {
    if n == 0 {
    } else if n == 1 {
    } else if n == 2 {
    } else if n == 3 {
    } else if n == 4 {
    } else if n == 5 {
    } else if n == 6 {
    } else {
    }
  }

  /** Lexer_clz */
  method CountOnes(c: bv8) returns (n: nat)
    ensures n == LeadingOnes(c)
  {
    var mask: bv8 := 0x80;
    n := 0;
    while n < 8
      invariant n <= 8 && n <= LeadingOnes(c)
      invariant n < 8 ==> mask == Mask(n)
    {
      OneMoreOne(c, n);
      if c & mask == 0 {
        return;
      }
      n := n + 1;
      mask := mask >> 1;
    }
  }

  /** A decoded code point with its length, or the two errors of the lexer. */
  datatype Rune = Rune(length: nat, value: bv32) | TooLong | Broken

  /** The source text ends in a zero byte. */
  function At(s: Bytes, i: nat): bv8 {
    if i < |s| then s[i] else 0
  }

  predicate Continues(c: bv8) {
    c & 0xC0 == 0x80
  }

  /** The payload bits of two, three and four bytes put together. */
  function Join2(a: bv8, b: bv8): bv32 {
    ((a & 0x1F) as bv32 << 6) | (b & 0x3F) as bv32
  }

  function Join3(a: bv8, b: bv8, c: bv8): bv32 {
    ((a & 0xF) as bv32 << 12) | ((b & 0x3F) as bv32 << 6) | (c & 0x3F) as bv32
  }

  function Join4(a: bv8, b: bv8, c: bv8, d: bv8): bv32 {
    ((a & 0x7) as bv32 << 18) | ((b & 0x3F) as bv32 << 12) | ((c & 0x3F) as bv32 << 6) | (d & 0x3F) as bv32
  }

  /** The code point at the start of `s`, read from a range of `count` bytes. */
  function Decoded(s: Bytes, count: nat): Rune {
    var len := LeadingOnes(At(s, 0));
    if len == 0 then Rune(1, At(s, 0) as bv32)
    else if count > len then TooLong
    else if exists i :: 1 <= i < len && !Continues(At(s, i)) then Broken
    else if len == 2 then Rune(2, Join2(At(s, 0), At(s, 1)))
    else if len == 3 then Rune(3, Join3(At(s, 0), At(s, 1), At(s, 2)))
    else if len == 4 then Rune(4, Join4(At(s, 0), At(s, 1), At(s, 2), At(s, 3)))
    else Broken
  }

  /** Lexer_readRune */
  method ReadRune(s: Bytes, count: nat) returns (r: Rune)
    ensures r == Decoded(s, count)
  {
    hide LeadingOnes;
    var len := CountOnes(At(s, 0));
    if len == 0 {
      return Rune(1, At(s, 0) as bv32);
    }
    if count > len {
      return TooLong;
    }
    var i := 1;
    while i < len
      invariant 1 <= i <= len && forall k :: 1 <= k < i ==> Continues(At(s, k))
    {
      if !Continues(At(s, i)) {
        return Broken;
      }
      i := i + 1;
    }
    if len == 2 {
      return Rune(2, Join2(At(s, 0), At(s, 1)));
    } else if len == 3 {
      return Rune(3, Join3(At(s, 0), At(s, 1), At(s, 2)));
    } else if len == 4 {
      return Rune(4, Join4(At(s, 0), At(s, 1), At(s, 2), At(s, 3)));
    }
    return Broken;
  }

  // ---------------------------------------------------------------------------------------------
  // Round trips
  // ---------------------------------------------------------------------------------------------

  /** How many bytes a first byte announces. */
  function PieceLength(c: bv8): nat {
    if LeadingOnes(c) == 0 then 1 else LeadingOnes(c)
  }

  lemma FirstByteTells(chr: bv32)
    requires chr < 0x200000
    ensures |Encoded(chr)| == PieceLength(Encoded(chr)[0])
  {
  }

  /** The bits of a code point survive the cut into bytes. */
  lemma Split2(chr: bv32)
    requires 0x80 <= chr < 0x800
    ensures var a, b := (0xC0 | (chr >> 6)) as bv8, (0x80 | (chr & 0x3F)) as bv8;
            LeadingOnes(a) == 2 && Continues(b) && Join2(a, b) == chr
  {
  }

  lemma Split3(chr: bv32)
    requires 0x800 <= chr < 0x10000
    ensures var a, b, c := (0xE0 | (chr >> 12)) as bv8, (0x80 | ((chr >> 6) & 0x3F)) as bv8,
            (0x80 | (chr & 0x3F)) as bv8;
            LeadingOnes(a) == 3 && Continues(b) && Continues(c) && Join3(a, b, c) == chr
  {
  }

  lemma Split4(chr: bv32)
    requires 0x10000 <= chr < 0x200000
    ensures var a, b := (0xF0 | (chr >> 18)) as bv8, (0x80 | ((chr >> 12) & 0x3F)) as bv8;
            var c, d := (0x80 | ((chr >> 6) & 0x3F)) as bv8, (0x80 | (chr & 0x3F)) as bv8;
            LeadingOnes(a) == 4 && Continues(b) && Continues(c) && Continues(d) && Join4(a, b, c, d) == chr
  {
  }

  /** And the other way round. */
  lemma Merge2(a: bv8, b: bv8)
    requires LeadingOnes(a) == 2 && Continues(b)
    ensures var v := Join2(a, b);
            v < 0x800 && a == (0xC0 | (v >> 6)) as bv8 && b == (0x80 | (v & 0x3F)) as bv8
  {
  }

  lemma Merge3(a: bv8, b: bv8, c: bv8)
    requires LeadingOnes(a) == 3 && Continues(b) && Continues(c)
    ensures var v := Join3(a, b, c);
            v < 0x10000 && a == (0xE0 | (v >> 12)) as bv8 && b == (0x80 | ((v >> 6) & 0x3F)) as bv8 &&
                c == (0x80 | (v & 0x3F)) as bv8
  {
  }

  lemma Merge4(a: bv8, b: bv8, c: bv8, d: bv8)
    requires LeadingOnes(a) == 4 && Continues(b) && Continues(c) && Continues(d)
    ensures var v := Join4(a, b, c, d);
            v < 0x200000 && a == (0xF0 | (v >> 18)) as bv8 && b == (0x80 | ((v >> 12) & 0x3F)) as bv8 &&
            c == (0x80 | ((v >> 6) & 0x3F)) as bv8 && d == (0x80 | (v & 0x3F)) as bv8
  {
  }

  /** Every code point below 0x200000 is read back from its bytes, whatever stands behind them. */
  lemma EncodedDecodes(chr: bv32, behind: Bytes)
    requires chr < 0x200000
    ensures Decoded(Encoded(chr) + behind, |Encoded(chr)|) == Rune(|Encoded(chr)|, chr)
  {
    var e := Encoded(chr);
    var s := e + behind;
    assert forall i :: 0 <= i < |e| ==> At(s, i) == e[i];
    if chr < 0x80 {
      FirstByteTells(chr);
      assert (chr as bv8) as bv32 == chr;
    } else if chr < 0x800 {
      Split2(chr);
      hide LeadingOnes, Join2, Continues;
    } else if chr < 0x10000 {
      Split3(chr);
      hide LeadingOnes, Join3, Continues;
    } else {
      Split4(chr);
      hide LeadingOnes, Join4, Continues;
    }
  }

  function EncodedAll(chrs: seq<bv32>): Bytes {
    if chrs == [] then [] else Encoded(chrs[0]) + EncodedAll(chrs[1..])
  }

  /** Cut the bytes where the first bytes say, and decode the pieces; none when a piece is not a code point. */
  function DecodedAll(s: Bytes): (r: seq<Rune>)
    decreases |s|
  {
    if s == [] then []
    else
      var n := PieceLength(s[0]);
      [Decoded(s, n)] + DecodedAll(if n < |s| then s[n..] else [])
  }

  function Runes(chrs: seq<bv32>): seq<Rune> {
    seq(|chrs|, i requires 0 <= i < |chrs| => Rune(|Encoded(chrs[i])|, chrs[i]))
  }

  lemma EncodedSize(chr: bv32)
    requires chr < 0x200000
    ensures 1 <= |Encoded(chr)| <= 4
  {
  }

  /** A written sequence of code points is cut back into just these. */
  lemma {:induction false} StreamRoundTrip(chrs: seq<bv32>)
    requires forall i :: 0 <= i < |chrs| ==> chrs[i] < 0x200000
    ensures DecodedAll(EncodedAll(chrs)) == Runes(chrs)
    decreases |chrs|
  {
    if chrs != [] {
      hide Encoded, Decoded, PieceLength;
      var head, rest := Encoded(chrs[0]), EncodedAll(chrs[1..]);
      EncodedDecodes(chrs[0], rest);
      EncodedSize(chrs[0]);
      FirstByteTells(chrs[0]);
      StreamRoundTrip(chrs[1..]);
      assert (head + rest)[|head|..] == rest;
      assert Runes(chrs) == [Rune(|head|, chrs[0])] + Runes(chrs[1..]);
    }
  }

  /** Different sequences of code points have different bytes. */
  lemma EncodingIsUnique(a: seq<bv32>, b: seq<bv32>)
    requires forall i :: 0 <= i < |a| ==> a[i] < 0x200000
    requires forall i :: 0 <= i < |b| ==> b[i] < 0x200000
    requires EncodedAll(a) == EncodedAll(b)
    ensures a == b
  {
    StreamRoundTrip(a);
    StreamRoundTrip(b);
    hide Encoded, EncodedAll, DecodedAll;
    assert |a| == |Runes(a)| == |Runes(b)| == |b|;
    forall i | 0 <= i < |a| ensures a[i] == b[i] {
      assert Runes(a)[i] == Rune(|Encoded(a[i])|, a[i]) && Runes(b)[i] == Rune(|Encoded(b[i])|, b[i]);
    }
  }

  /** The least code point that needs a given number of bytes. */
  function Least(length: nat): bv32 {
    if length == 2 then 0x80 else if length == 3 then 0x800 else if length == 4 then 0x10000 else 0
  }

  lemma Canonical2(a: bv8, b: bv8)
    requires LeadingOnes(a) == 2 && Continues(b)
    ensures var v := Join2(a, b); v < 0x200000 && (Encoded(v) == [a, b] <==> v >= 0x80)
  {
    Merge2(a, b);
    hide Join2, LeadingOnes, Continues;
  }

  lemma Canonical3(a: bv8, b: bv8, c: bv8)
    requires LeadingOnes(a) == 3 && Continues(b) && Continues(c)
    ensures var v := Join3(a, b, c); v < 0x200000 && (Encoded(v) == [a, b, c] <==> v >= 0x800)
  {
    Merge3(a, b, c);
    hide Join3, LeadingOnes, Continues;
  }

  lemma Canonical4(a: bv8, b: bv8, c: bv8, d: bv8)
    requires LeadingOnes(a) == 4 && Continues(b) && Continues(c) && Continues(d)
    ensures var v := Join4(a, b, c, d); v < 0x200000 && (Encoded(v) == [a, b, c, d] <==> v >= 0x10000)
  {
    Merge4(a, b, c, d);
    hide Join4, LeadingOnes, Continues;
  }

  lemma SingleByte(c: bv8)
    requires PieceLength(c) == 1 && Decoded([c], 1).Rune?
    ensures Decoded([c], 1) == Rune(1, c as bv32) && Encoded(c as bv32) == [c]
  {
    assert LeadingOnes(c) == 0;
    assert c < 0x80 && (c as bv32) < 0x80 && (c as bv32) as bv8 == c;
  }

  /**
   What the decoder accepts need not be what the encoder writes: it is so exactly when the code point
   could not have been written with fewer bytes.
   */
  lemma DecodedEncodes(s: Bytes)
    requires s != [] && |s| == PieceLength(s[0]) && Decoded(s, |s|).Rune?
    ensures var r := Decoded(s, |s|);
            r.length == |s| && r.value < 0x200000 && (Encoded(r.value) == s <==> r.value >= Least(|s|))
  {
    hide Encoded;
    assert |s| in {1, 2, 3, 4};
    assert forall i :: 1 <= i < |s| ==> Continues(At(s, i));
    if |s| == 1 {
      assert s == [s[0]];
      SingleByte(s[0]);
    } else if |s| == 2 {
      assert Decoded(s, 2) == Rune(2, Join2(s[0], s[1])) && Continues(s[1]);
      hide Decoded, At, LeadingOnes, Join2, Continues, PieceLength;
      Canonical2(s[0], s[1]);
      assert s == [s[0], s[1]];
    } else if |s| == 3 {
      assert Decoded(s, 3) == Rune(3, Join3(s[0], s[1], s[2])) && Continues(At(s, 1)) && Continues(At(s, 2));
      hide Decoded, LeadingOnes, Join3, Continues, PieceLength;
      Canonical3(s[0], s[1], s[2]);
      assert s == [s[0], s[1], s[2]];
    } else {
      assert Decoded(s, 4) == Rune(4, Join4(s[0], s[1], s[2], s[3]));
      assert Continues(At(s, 1)) && Continues(At(s, 2)) && Continues(At(s, 3));
      hide Decoded, LeadingOnes, Join4, Continues, PieceLength;
      Canonical4(s[0], s[1], s[2], s[3]);
      assert s == [s[0], s[1], s[2], s[3]];
    }
  }

  /** Two bytes for zero are accepted. */
  lemma OverlongZero()
    ensures Decoded([0xC0, 0x80], 2) == Rune(2, 0) && Encoded(0) == [0]
  {
  }

  // ---------------------------------------------------------------------------------------------
  // Layout
  // ---------------------------------------------------------------------------------------------

  /** A byte behind the first one, and the six bits that it carries. */
  predicate Carries(b: bv8, bits: bv32) {
    b & 0xC0 == 0x80 && (b & 0x3F) as bv32 == bits
  }

  lemma Layout2(chr: bv32)
    requires 0x80 <= chr < 0x800
    ensures var s := Encoded(chr);
            |s| == 2 && s[0] & 0xE0 == 0xC0 && (s[0] & 0x1F) as bv32 == chr >> 6 && Carries(s[1], chr & 0x3F)
  {
  }

  /** A byte of the first kind with the bits that it carries, and one of the others. */
  lemma LeadCarries(x: bv32)
    ensures x < 16 ==> ((0xE0 | x) as bv8) & 0xF0 == 0xE0 && (((0xE0 | x) as bv8) & 0x0F) as bv32 == x
    ensures x < 8 ==> ((0xF0 | x) as bv8) & 0xF8 == 0xF0 && (((0xF0 | x) as bv8) & 0x07) as bv32 == x
  {
  }

  lemma RestCarries(x: bv32)
    requires x < 64
    ensures Carries((0x80 | x) as bv8, x)
  {
  }

  lemma Layout3(chr: bv32)
    requires 0x800 <= chr < 0x10000
    ensures var s := Encoded(chr);
            && |s| == 3 && s[0] & 0xF0 == 0xE0 && (s[0] & 0x0F) as bv32 == chr >> 12
            && Carries(s[1], (chr >> 6) & 0x3F) && Carries(s[2], chr & 0x3F)
  {
    LeadCarries(chr >> 12);
    RestCarries((chr >> 6) & 0x3F);
    RestCarries(chr & 0x3F);
    hide Carries;
  }

  lemma Layout4(chr: bv32)
    requires 0x10000 <= chr < 0x200000
    ensures var s := Encoded(chr);
            && |s| == 4 && s[0] & 0xF8 == 0xF0 && (s[0] & 0x07) as bv32 == chr >> 18
            && Carries(s[1], (chr >> 12) & 0x3F) && Carries(s[2], (chr >> 6) & 0x3F) && Carries(s[3], chr & 0x3F)
  {
    LeadCarries(chr >> 18);
    RestCarries((chr >> 12) & 0x3F);
    RestCarries((chr >> 6) & 0x3F);
    RestCarries(chr & 0x3F);
    hide Carries;
  }

  /** The bits of a code point stand in its bytes from the highest to the lowest, six in every byte but the first. */
  lemma LayoutExact(chr: bv32)
    requires chr < 0x200000
    ensures var s := Encoded(chr);
            if chr < 0x80 then s == [chr as bv8]
            else if chr < 0x800 then
              |s| == 2 && s[0] & 0xE0 == 0xC0 && (s[0] & 0x1F) as bv32 == chr >> 6 && Carries(s[1], chr & 0x3F)
            else if chr < 0x10000 then
              && |s| == 3 && s[0] & 0xF0 == 0xE0 && (s[0] & 0x0F) as bv32 == chr >> 12
              && Carries(s[1], (chr >> 6) & 0x3F) && Carries(s[2], chr & 0x3F)
            else
              && |s| == 4 && s[0] & 0xF8 == 0xF0 && (s[0] & 0x07) as bv32 == chr >> 18
              && Carries(s[1], (chr >> 12) & 0x3F) && Carries(s[2], (chr >> 6) & 0x3F) && Carries(s[3], chr & 0x3F)
  {
    if chr < 0x80 {
    } else if chr < 0x800 {
      Layout2(chr);
      hide *;
    } else if chr < 0x10000 {
      Layout3(chr);
      hide *;
    } else {
      Layout4(chr);
      hide *;
    }
  }

  /** The euro sign and a face, as everyone writes them. */
  lemma KnownEncodings()
    ensures Encoded(0xE9) == [0xC3, 0xA9] && Encoded(0x20AC) == [0xE2, 0x82, 0xAC]
    ensures Encoded(0x1F600) == [0xF0, 0x9F, 0x98, 0x80]
  {
  }

  /** Bytes that start a code point of `n` bytes, as far as the decoder looks. */
  predicate Starts(s: Bytes, n: nat) {
    if n == 1 then At(s, 0) & 0x80 == 0
    else
      && (if n == 2 then At(s, 0) & 0xE0 == 0xC0 else if n == 3 then At(s, 0) & 0xF0 == 0xE0
          else n == 4 && At(s, 0) & 0xF8 == 0xF0)
      && forall i :: 1 <= i < n ==> At(s, i) & 0xC0 == 0x80
  }

  lemma OnesAre(c: bv8)
    ensures LeadingOnes(c) == 0 <==> c & 0x80 == 0
    ensures LeadingOnes(c) == 2 <==> c & 0xE0 == 0xC0
    ensures LeadingOnes(c) == 3 <==> c & 0xF0 == 0xE0
    ensures LeadingOnes(c) == 4 <==> c & 0xF8 == 0xF0
  {
  }

  /**
   The decoder accepts exactly the bytes that start with a first byte and its continuation bytes, in a range of
   no more bytes; it then takes just these. A range of more bytes than the first one says is too long, but for
   a single byte, and everything else is broken.
   */
  lemma AcceptedExact(s: Bytes, count: nat, n: nat)
    requires 1 <= n
    ensures Decoded(s, count).Rune? && Decoded(s, count).length == n <==> Starts(s, n) && (n == 1 || count <= n)
    ensures Decoded(s, count).TooLong? <==> At(s, 0) & 0x80 != 0 && count > LeadingOnes(At(s, 0))
  {
    OnesAre(At(s, 0));
    hide LeadingOnes, Join2, Join3, Join4;
  }
}
