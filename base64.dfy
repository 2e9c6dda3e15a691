/**
 * Base64 as defined in section 4 of RFC 4648: the standard alphabet
 * (A-Z, a-z, 0-9, '+', '/') and '=' padding, which is the encoding Node's
 * `Buffer.toString("base64")` produces.
 */
module Base64 {
  import opened Wrappers

  type Byte = b: int | 0 <= b < 256
  type Sextet = i: int | 0 <= i < 64

  predicate IsAlphabetChar(c: char) {
    ('A' <= c <= 'Z') || ('a' <= c <= 'z') || ('0' <= c <= '9') || c == '+' || c == '/'
  }

  /** The character of the alphabet that stands for a 6-bit value. */
  function CharOf(i: Sextet): (c: char)
    ensures IsAlphabetChar(c)
  {
    if i < 26 then (65 + i) as char
    else if i < 52 then (97 + (i - 26)) as char
    else if i < 62 then (48 + (i - 52)) as char
    else if i == 62 then '+'
    else '/'
  }

  /** The 6-bit value an alphabet character stands for. */
  function IndexOf(c: char): (i: Sextet)
    requires IsAlphabetChar(c)
    ensures CharOf(i) == c
  {
    if 'A' <= c <= 'Z' then c as int - 65
    else if 'a' <= c <= 'z' then c as int - 97 + 26
    else if '0' <= c <= '9' then c as int - 48 + 52
    else if c == '+' then 62
    else 63
  }

  lemma IndexOfCharOf(i: Sextet)
    ensures IndexOf(CharOf(i)) == i
  {
  }

  /** Number of '=' characters that end the encoding of `n` bytes. */
  function Padding(n: nat): nat {
    if n % 3 == 0 then 0 else 3 - n % 3
  }

  lemma PaddingStep(n: nat)
    requires n >= 3
    ensures Padding(n) == Padding(n - 3)
  {
    assert n % 3 == (n - 3) % 3;
  }

  /** Three bytes, as four characters. */
  function EncodeBlock(b0: Byte, b1: Byte, b2: Byte): (s: string)
    ensures |s| == 4
  {
    [CharOf(b0 / 4), CharOf((b0 % 4) * 16 + b1 / 16), CharOf((b1 % 16) * 4 + b2 / 64), CharOf(b2 % 64)]
  }

  /**
   * The padded encoding of a byte sequence: each group of three bytes
   * becomes four characters, and a final group of one or two bytes becomes
   * two or three characters followed by "==" or "=". Its length is 4 times
   * the number of started 3-byte groups.
   */
  function Encode(b: seq<Byte>): (s: string)
    ensures |s| == 4 * ((|b| + 2) / 3)
    decreases |b|
  {
    if |b| == 0 then
      ""
    else if |b| == 1 then
      var q := EncodeBlock(b[0], 0, 0);
      q[..2] + "=="
    else if |b| == 2 then
      var q := EncodeBlock(b[0], b[1], 0);
      q[..3] + "="
    else
      var rest := Encode(b[3..]);
      EncodedLengthStep(|b|);
      EncodeBlock(b[0], b[1], b[2]) + rest
  }

  lemma EncodedLengthStep(n: nat)
    requires n >= 3
    ensures 4 * ((n - 3 + 2) / 3) + 4 == 4 * ((n + 2) / 3)
  {
    assert (n + 2) / 3 == (n - 3 + 2) / 3 + 1;
  }

  /** The characters of an encoding: alphabet characters followed by exactly `Padding(|b|)` '=' characters. */
  predicate IsPaddedText(s: string, pad: nat) {
    (forall i :: 0 <= i < |s| ==> (s[i] == '=' <==> i >= |s| - pad)) &&
    (forall i :: 0 <= i < |s| && s[i] != '=' ==> IsAlphabetChar(s[i]))
  }

  /** The characters of one encoded block are all alphabet characters. */
  lemma EncodeBlockAlphabet(b0: Byte, b1: Byte, b2: Byte)
    ensures var q := EncodeBlock(b0, b1, b2);
      IsAlphabetChar(q[0]) && IsAlphabetChar(q[1]) && IsAlphabetChar(q[2]) && IsAlphabetChar(q[3])
  {
  }

  /** Four alphabet characters in front keep the padding shape. */
  lemma PaddedCons(q: string, t: string, pad: nat)
    requires |q| == 4 && IsAlphabetChar(q[0]) && IsAlphabetChar(q[1]) && IsAlphabetChar(q[2]) && IsAlphabetChar(q[3])
    requires IsPaddedText(t, pad) && pad <= |t|
    ensures IsPaddedText(q + t, pad)
  {
    var s := q + t;
    forall i | 0 <= i < |s|
      ensures (s[i] == '=' <==> i >= |s| - pad) && (s[i] != '=' ==> IsAlphabetChar(s[i]))
    {
      if i >= 4 {
        assert s[i] == t[i - 4];
      } else {
        assert s[i] == q[i];
      }
    }
  }

  /** A group of four characters, of which the last `pad` are '=' and the others alphabet characters. */
  lemma PaddedQuad(s: string, pad: nat)
    requires |s| == 4 && pad <= 2
    requires forall i | 0 <= i < 4 - pad :: IsAlphabetChar(s[i])
    requires forall i | 4 - pad <= i < 4 :: s[i] == '='
    ensures IsPaddedText(s, pad)
  {
  }

  /** An encoding is alphabet characters followed by exactly `Padding(|b|)` '=' characters. */
  lemma {:induction false} EncodeShape(b: seq<Byte>)
    ensures IsPaddedText(Encode(b), Padding(|b|))
    decreases |b|
  {
    if |b| == 1 {
      assert b == [b[0]];
      EncodeShapeOne(b[0]);
    } else if |b| == 2 {
      assert b == [b[0], b[1]];
      EncodeShapeTwo(b[0], b[1]);
    } else if |b| > 2 {
      EncodeCons(b);
      EncodeBlockAlphabet(b[0], b[1], b[2]);
      if |b| == 3 {
        PaddedQuad(Encode(b), 0);
      } else {
        EncodeShape(b[3..]);
        PaddingStep(|b|);
        PaddedCons(EncodeBlock(b[0], b[1], b[2]), Encode(b[3..]), Padding(|b|));
      }
    }
  }

  lemma EncodeShapeOne(b0: Byte)
    ensures IsPaddedText(Encode([b0]), 2)
  {
    var q := EncodeBlock(b0, 0, 0);
    EncodeBlockAlphabet(b0, 0, 0);
    assert Encode([b0]) == q[..2] + "==";
    PaddedQuad(q[..2] + "==", 2);
  }

  lemma EncodeShapeTwo(b0: Byte, b1: Byte)
    ensures IsPaddedText(Encode([b0, b1]), 1)
  {
    var q := EncodeBlock(b0, b1, 0);
    EncodeBlockAlphabet(b0, b1, 0);
    assert Encode([b0, b1]) == q[..3] + "=";
    PaddedQuad(q[..3] + "=", 1);
  }

  /** Four 6-bit values, as the three bytes they carry. */
  function DecodeBlock(s0: Sextet, s1: Sextet, s2: Sextet, s3: Sextet): (b: seq<Byte>)
    ensures |b| == 3
  {
    [s0 * 4 + s1 / 16, (s1 % 16) * 16 + s2 / 4, (s2 % 4) * 64 + s3]
  }

  /** Decodes the last group of four characters, which may end in one or two '='. */
  function DecodeFinalQuad(q: string): (r: Option<seq<Byte>>)
    requires |q| == 4
    ensures r.Some? ==> 1 <= |r.value| <= 3
  {
    if !IsAlphabetChar(q[0]) || !IsAlphabetChar(q[1]) then None
    else if q[2] == '=' && q[3] == '=' then
      Some(DecodeBlock(IndexOf(q[0]), IndexOf(q[1]), 0, 0)[..1])
    else if IsAlphabetChar(q[2]) && q[3] == '=' then
      Some(DecodeBlock(IndexOf(q[0]), IndexOf(q[1]), IndexOf(q[2]), 0)[..2])
    else if IsAlphabetChar(q[2]) && IsAlphabetChar(q[3]) then
      Some(DecodeBlock(IndexOf(q[0]), IndexOf(q[1]), IndexOf(q[2]), IndexOf(q[3])))
    else None
  }

  /**
   * Strict decoding: the text must be a whole number of four-character
   * groups of alphabet characters, where only the last group may end in
   * padding. Anything else is rejected with None.
   */
  function Decode(s: string): (r: Option<seq<Byte>>)
    ensures r.Some? ==> |s| % 4 == 0
    decreases |s|
  {
    if |s| == 0 then Some([])
    else if |s| < 4 then None
    else if |s| == 4 then DecodeFinalQuad(s)
    else if !(IsAlphabetChar(s[0]) && IsAlphabetChar(s[1]) && IsAlphabetChar(s[2]) && IsAlphabetChar(s[3])) then None
    else match Decode(s[4..])
      case None => None
      case Some(rest) => Some(DecodeBlock(IndexOf(s[0]), IndexOf(s[1]), IndexOf(s[2]), IndexOf(s[3])) + rest)
  }

  /**
   * Like `atob`, decoding drops the low bits of the last sextet before the
   * padding without checking them: "AB==" decodes to the byte 0 that is
   * encoded as "AA==".
   */
  lemma DecodeIgnoresTrailingBits()
    ensures Decode("AB==") == Some([0]) && Encode([0]) == "AA=="
  {
    assert IndexOf('A') == 0 && IndexOf('B') == 1 by {
      assert CharOf(0) == 'A' && CharOf(1) == 'B';
      IndexOfCharOf(0);
      IndexOfCharOf(1);
    }
    var s := "AB==";
    assert DecodeFinalQuad(s) == Some(DecodeBlock(0, 1, 0, 0)[..1]);
    assert DecodeBlock(0, 1, 0, 0)[..1] == [0];
    var q := EncodeBlock(0, 0, 0);
    assert q == ['A', 'A', 'A', 'A'];
    assert q[..2] + "==" == "AA==";
  }

  /** The arithmetic of one block: the three bytes survive the split into four 6-bit values. */
  lemma BlockArithmetic(b0: Byte, b1: Byte, b2: Byte)
    ensures var s1 := (b0 % 4) * 16 + b1 / 16;
      var s2 := (b1 % 16) * 4 + b2 / 64;
      (b0 / 4) * 4 + s1 / 16 == b0 && (s1 % 16) * 16 + s2 / 4 == b1 && (s2 % 4) * 64 + b2 % 64 == b2
  {
    var s1 := (b0 % 4) * 16 + b1 / 16;
    var s2 := (b1 % 16) * 4 + b2 / 64;
    assert s1 / 16 == b0 % 4 && s1 % 16 == b1 / 16;
    assert s2 / 4 == b1 % 16 && s2 % 4 == b2 / 64;
  }

  /** Decoding the four characters of a block gives back its three bytes. */
  lemma DecodeEncodeBlock(b0: Byte, b1: Byte, b2: Byte)
    ensures var q := EncodeBlock(b0, b1, b2);
      IsAlphabetChar(q[0]) && IsAlphabetChar(q[1]) && IsAlphabetChar(q[2]) && IsAlphabetChar(q[3]) &&
      DecodeBlock(IndexOf(q[0]), IndexOf(q[1]), IndexOf(q[2]), IndexOf(q[3])) == [b0, b1, b2]
  {
    var s0: Sextet, s1: Sextet, s2: Sextet, s3: Sextet := b0 / 4, (b0 % 4) * 16 + b1 / 16, (b1 % 16) * 4 + b2 / 64, b2 % 64;
    IndexOfCharOf(s0);
    IndexOfCharOf(s1);
    IndexOfCharOf(s2);
    IndexOfCharOf(s3);
    BlockArithmetic(b0, b1, b2);
    assert DecodeBlock(s0, s1, s2, s3) == [b0, b1, b2];
  }

  /** A single trailing byte survives its two-character, "=="-padded group. */
  lemma DecodeEncodeOne(b0: Byte)
    ensures Decode(Encode([b0])) == Some([b0])
  {
    var s := Encode([b0]);
    OneByteText(b0);
    var d := DecodeBlock(IndexOf(s[0]), IndexOf(s[1]), 0, 0);
    assert Decode(s) == Some(d[..1]);
    assert d[..1] == [d[0]];
  }

  lemma OneByteText(b0: Byte)
    ensures var s := Encode([b0]);
      |s| == 4 && IsAlphabetChar(s[0]) && IsAlphabetChar(s[1]) && s[2] == '=' && s[3] == '=' &&
      DecodeBlock(IndexOf(s[0]), IndexOf(s[1]), 0, 0)[0] == b0
  {
    var s0: Sextet, s1: Sextet := b0 / 4, (b0 % 4) * 16;
    var s := Encode([b0]);
    assert s == [CharOf(s0), CharOf(s1), '=', '='];
    IndexOfCharOf(s0);
    IndexOfCharOf(s1);
    assert s0 * 4 + s1 / 16 == b0;
  }

  /** Two trailing bytes survive their three-character, "="-padded group. */
  lemma DecodeEncodeTwo(b0: Byte, b1: Byte)
    ensures Decode(Encode([b0, b1])) == Some([b0, b1])
  {
    var q := EncodeBlock(b0, b1, 0);
    DecodeEncodeBlock(b0, b1, 0);
    var s := Encode([b0, b1]);
    assert s == q[..3] + "=";
    assert s[0] == q[0] && s[1] == q[1] && s[2] == q[2] && s[3] == '=';
    assert DecodeFinalQuad(s) == Some([b0, b1, 0][..2]);
    assert [b0, b1, 0][..2] == [b0, b1];
  }

  /** A full group of three bytes or more starts with the four characters of its first block. */
  lemma EncodeCons(b: seq<Byte>)
    requires |b| >= 3
    ensures Encode(b) == EncodeBlock(b[0], b[1], b[2]) + Encode(b[3..])
  {
  }

  /** The three bytes carried by a group of four alphabet characters. */
  function QuadBytes(q: string): (b: seq<Byte>)
    requires |q| == 4 && IsAlphabetChar(q[0]) && IsAlphabetChar(q[1]) && IsAlphabetChar(q[2]) && IsAlphabetChar(q[3])
    ensures |b| == 3
  {
    DecodeBlock(IndexOf(q[0]), IndexOf(q[1]), IndexOf(q[2]), IndexOf(q[3]))
  }

  /** Decoding a group of four alphabet characters followed by more text. */
  lemma DecodeCons(q: string, t: string, rest: seq<Byte>)
    requires |q| == 4 && IsAlphabetChar(q[0]) && IsAlphabetChar(q[1]) && IsAlphabetChar(q[2]) && IsAlphabetChar(q[3])
    requires t == "" ==> rest == []
    requires t != "" ==> Decode(t) == Some(rest)
    ensures Decode(q + t) == Some(QuadBytes(q) + rest)
  {
    var s := q + t;
    assert s[..4] == q && s[4..] == t;
    if t == "" {
      assert s == q;
      assert QuadBytes(q) + rest == QuadBytes(q);
    }
  }

  /** The inductive step of the round trip: one more full block in front. */
  lemma DecodeEncodeStep(b: seq<Byte>)
    requires |b| >= 3
    requires |b| > 3 ==> Decode(Encode(b[3..])) == Some(b[3..])
    ensures Decode(Encode(b)) == Some(b)
  {
    var q := EncodeBlock(b[0], b[1], b[2]);
    var t := Encode(b[3..]);
    EncodeCons(b);
    DecodeEncodeBlock(b[0], b[1], b[2]);
    assert QuadBytes(q) == [b[0], b[1], b[2]];
    DecodeCons(q, t, b[3..]);
    SplitThree(b);
  }

  lemma SplitThree<T>(b: seq<T>)
    requires |b| >= 3
    ensures b == [b[0], b[1], b[2]] + b[3..]
  {
  }

  /** Round trip: decoding an encoding gives back the bytes that were encoded. */
  lemma {:induction false} DecodeEncode(b: seq<Byte>)
    ensures Decode(Encode(b)) == Some(b)
    decreases |b|
  {
    if |b| == 0 {
    } else if |b| == 1 {
      assert b == [b[0]];
      DecodeEncodeOne(b[0]);
    } else if |b| == 2 {
      assert b == [b[0], b[1]];
      DecodeEncodeTwo(b[0], b[1]);
    } else {
      if |b| > 3 {
        DecodeEncode(b[3..]);
      }
      DecodeEncodeStep(b);
    }
  }

  /** Encoding is injective: different byte sequences never share an encoding. */
  lemma EncodeInjective(a: seq<Byte>, b: seq<Byte>)
    requires Encode(a) == Encode(b)
    ensures a == b
  {
    DecodeEncode(a);
    DecodeEncode(b);
  }

  // ---------------------------------------------------------------------
  // Canonical text. Section 3.5 of RFC 4648 sets the bits that the last
  // character before the padding carries beyond the final byte to zero,
  // and the encoder does so. With that condition the round trip also runs
  // the other way: only the encoding itself decodes to a given byte
  // sequence.
  // ---------------------------------------------------------------------

  /** The pad bits of a text are zero: checked on its last group of four. */
  predicate PadBitsZero(s: string) {
    |s| >= 4 ==> QuadPadBitsZero(s[|s| - 4..])
  }

  /** Before "==" the second sextet is a multiple of 16; before a single '=' the third is a multiple of 4. */
  predicate QuadPadBitsZero(q: string)
    requires |q| == 4
  {
    (q[2] == '=' && q[3] == '=' && IsAlphabetChar(q[1]) ==> IndexOf(q[1]) % 16 == 0) &&
    (q[2] != '=' && q[3] == '=' && IsAlphabetChar(q[2]) ==> IndexOf(q[2]) % 4 == 0)
  }

  /** The encoder leaves the pad bits zero. */
  lemma {:induction false} PadBitsZeroOfEncode(b: seq<Byte>)
    ensures PadBitsZero(Encode(b))
    decreases |b|
  {
    if |b| == 1 {
      PadBitsZeroOne(b);
    } else if |b| == 2 {
      PadBitsZeroTwo(b);
    } else if |b| == 3 {
      PadBitsZeroThree(b);
    } else if |b| > 3 {
      PadBitsZeroOfEncode(b[3..]);
      PadBitsZeroStep(b);
    }
  }

  lemma PadBitsZeroOne(b: seq<Byte>)
    requires |b| == 1
    ensures PadBitsZero(Encode(b))
  {
    var s := Encode(b);
    var s1: Sextet := (b[0] % 4) * 16;
    assert s == [CharOf(b[0] / 4), CharOf(s1), '=', '='];
    IndexOfCharOf(s1);
    assert s[|s| - 4..] == s;
  }

  lemma PadBitsZeroTwo(b: seq<Byte>)
    requires |b| == 2
    ensures PadBitsZero(Encode(b))
  {
    var s := Encode(b);
    var s2: Sextet := (b[1] % 16) * 4;
    var q := EncodeBlock(b[0], b[1], 0);
    assert s == q[..3] + "=";
    assert s[2] == CharOf(s2) && s[3] == '=';
    IndexOfCharOf(s2);
    assert s[|s| - 4..] == s;
  }

  lemma PadBitsZeroThree(b: seq<Byte>)
    requires |b| == 3
    ensures PadBitsZero(Encode(b))
  {
    var q := EncodeBlock(b[0], b[1], b[2]);
    EncodeCons(b);
    assert Encode(b[3..]) == "";
    assert Encode(b) == q;
    PadBitsZeroOfFullQuad(q);
  }

  /** A last group with no padding has nothing to check. */
  lemma PadBitsZeroOfFullQuad(q: string)
    requires |q| == 4 && IsAlphabetChar(q[2]) && IsAlphabetChar(q[3])
    ensures PadBitsZero(q)
  {
    assert q[|q| - 4..] == q;
  }

  /** Zero pad bits carry over when a full group is put in front. */
  lemma PadBitsZeroStep(b: seq<Byte>)
    requires |b| > 3 && PadBitsZero(Encode(b[3..]))
    ensures PadBitsZero(Encode(b))
  {
    EncodeCons(b);
    PadBitsZeroAppend(EncodeBlock(b[0], b[1], b[2]), Encode(b[3..]));
  }

  lemma PadBitsZeroAppend(q: string, t: string)
    requires |q| == 4 && |t| >= 4 && PadBitsZero(t)
    ensures PadBitsZero(q + t)
  {
    var s := q + t;
    assert s[|s| - 4..] == t[|t| - 4..];
  }

  /** Four sextets survive being packed into three bytes and split again. */
  lemma SextetArithmetic(s0: Sextet, s1: Sextet, s2: Sextet, s3: Sextet, b0: int, b1: int, b2: int)
    requires b0 == s0 * 4 + s1 / 16 && b1 == (s1 % 16) * 16 + s2 / 4 && b2 == (s2 % 4) * 64 + s3
    ensures b0 / 4 == s0 && (b0 % 4) * 16 + b1 / 16 == s1 && (b1 % 16) * 4 + b2 / 64 == s2 && b2 % 64 == s3
  {
    assert b0 / 4 == s0 && b0 % 4 == s1 / 16;
    assert b1 / 16 == s1 % 16 && b1 % 16 == s2 / 4;
    assert b2 / 64 == s2 % 4 && b2 % 64 == s3;
  }

  /** Re-encoding the three bytes that four sextets carry gives the four sextets' characters. */
  lemma EncodeDecodeBlock(s0: Sextet, s1: Sextet, s2: Sextet, s3: Sextet)
    ensures var d := DecodeBlock(s0, s1, s2, s3);
      EncodeBlock(d[0], d[1], d[2]) == [CharOf(s0), CharOf(s1), CharOf(s2), CharOf(s3)]
  {
    var d := DecodeBlock(s0, s1, s2, s3);
    var b0, b1, b2 := d[0], d[1], d[2];
    SextetArithmetic(s0, s1, s2, s3, b0, b1, b2);
    var t0, t1, t2, t3 := b0 / 4, (b0 % 4) * 16 + b1 / 16, (b1 % 16) * 4 + b2 / 64, b2 % 64;
    assert t0 == s0 && t1 == s1 && t2 == s2 && t3 == s3;
    assert EncodeBlock(b0, b1, b2) == [CharOf(t0), CharOf(t1), CharOf(t2), CharOf(t3)];
  }

  /** Four alphabet characters are the characters of their own sextets. */
  lemma QuadOfSextets(q: string)
    requires |q| == 4 && IsAlphabetChar(q[0]) && IsAlphabetChar(q[1]) && IsAlphabetChar(q[2]) && IsAlphabetChar(q[3])
    ensures q == [CharOf(IndexOf(q[0])), CharOf(IndexOf(q[1])), CharOf(IndexOf(q[2])), CharOf(IndexOf(q[3]))]
  {
  }

  /** Encoding the three bytes of a group of four alphabet characters gives the group back. */
  lemma EncodeQuadBytes(q: string)
    requires |q| == 4 && IsAlphabetChar(q[0]) && IsAlphabetChar(q[1]) && IsAlphabetChar(q[2]) && IsAlphabetChar(q[3])
    ensures var d := QuadBytes(q); EncodeBlock(d[0], d[1], d[2]) == q
  {
    var i0, i1, i2, i3 := IndexOf(q[0]), IndexOf(q[1]), IndexOf(q[2]), IndexOf(q[3]);
    var d := DecodeBlock(i0, i1, i2, i3);
    assert QuadBytes(q) == d;
    EncodeDecodeBlock(i0, i1, i2, i3);
    QuadOfSextets(q);
  }

  /** A final "xx==" group with zero pad bits is the encoding of its one byte. */
  lemma EncodeFinalOne(q: string)
    requires |q| == 4 && IsAlphabetChar(q[0]) && IsAlphabetChar(q[1]) && q[2] == '=' && q[3] == '='
    requires IndexOf(q[1]) % 16 == 0
    ensures Encode(DecodeBlock(IndexOf(q[0]), IndexOf(q[1]), 0, 0)[..1]) == q
  {
    var i0, i1 := IndexOf(q[0]), IndexOf(q[1]);
    var d := DecodeBlock(i0, i1, 0, 0);
    EncodeDecodeBlock(i0, i1, 0, 0);
    var e := EncodeBlock(d[0], d[1], d[2]);
    assert d[1] == 0 && d[2] == 0 by {
      assert i1 % 16 == 0;
    }
    assert d[..1] == [d[0]];
    assert Encode([d[0]]) == e[..2] + "==";
    assert e[..2] + "==" == [CharOf(i0), CharOf(i1), '=', '='];
  }

  /** A final "xxx=" group with zero pad bits is the encoding of its two bytes. */
  lemma EncodeFinalTwo(q: string)
    requires |q| == 4 && IsAlphabetChar(q[0]) && IsAlphabetChar(q[1]) && IsAlphabetChar(q[2]) && q[3] == '='
    requires IndexOf(q[2]) % 4 == 0
    ensures Encode(DecodeBlock(IndexOf(q[0]), IndexOf(q[1]), IndexOf(q[2]), 0)[..2]) == q
  {
    var i0, i1, i2 := IndexOf(q[0]), IndexOf(q[1]), IndexOf(q[2]);
    var d := DecodeBlock(i0, i1, i2, 0);
    EncodeDecodeBlock(i0, i1, i2, 0);
    var e := EncodeBlock(d[0], d[1], d[2]);
    assert d[2] == 0 by {
      assert i2 % 4 == 0;
    }
    assert d[..2] == [d[0], d[1]];
    assert Encode([d[0], d[1]]) == e[..3] + "=";
    assert e[..3] + "=" == [CharOf(i0), CharOf(i1), CharOf(i2), '='];
  }

  /** The last group of a text with zero pad bits is the encoding of what it decodes to. */
  lemma EncodeDecodeFinal(q: string, b: seq<Byte>)
    requires |q| == 4 && DecodeFinalQuad(q) == Some(b) && QuadPadBitsZero(q)
    ensures Encode(b) == q
  {
    if q[2] == '=' && q[3] == '=' {
      EncodeFinalOne(q);
    } else if q[3] == '=' {
      EncodeFinalTwo(q);
    } else {
      EncodeQuadBytes(q);
      EncodeCons(b);
      assert b[3..] == [];
    }
  }

  /**
   * The converse round trip: a text with zero pad bits that decodes to
   * `b` is the encoding of `b`.
   */
  lemma {:induction false} EncodeDecode(s: string, b: seq<Byte>)
    requires Decode(s) == Some(b) && PadBitsZero(s)
    ensures Encode(b) == s
    decreases |s|
  {
    if |s| == 4 {
      assert s[|s| - 4..] == s;
      EncodeDecodeFinal(s, b);
    } else if |s| > 4 {
      var t := s[4..];
      var rest := Decode(t).value;
      assert t[|t| - 4..] == s[|s| - 4..];
      EncodeDecode(t, rest);
      EncodeDecodeStep(s, b, rest);
    }
  }

  /** The inductive step of the converse round trip: one more full group in front. */
  lemma EncodeDecodeStep(s: string, b: seq<Byte>, rest: seq<Byte>)
    requires |s| > 4 && Decode(s) == Some(b) && Decode(s[4..]) == Some(rest)
    requires Encode(rest) == s[4..]
    ensures Encode(b) == s
  {
    var q := s[..4];
    assert b == QuadBytes(q) + rest;
    EncodeQuadBytes(q);
    EncodeCons(b);
    assert b[3..] == rest;
    assert s == q + s[4..];
  }

  /**
   * Exactly one text is the encoding of `b`: the one that decodes to `b`
   * and has zero pad bits.
   */
  lemma CanonicalEncoding(s: string, b: seq<Byte>)
    ensures s == Encode(b) <==> Decode(s) == Some(b) && PadBitsZero(s)
  {
    if s == Encode(b) {
      DecodeEncode(b);
      PadBitsZeroOfEncode(b);
    }
    if Decode(s) == Some(b) && PadBitsZero(s) {
      EncodeDecode(s, b);
    }
  }
}
