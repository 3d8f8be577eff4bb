/**
 Base64 as in section 5.2 of RFC 1341: lines of 72 characters, padding, and a
 decoder that skips whatever is not in the alphabet. Decoding what was
 encoded returns the input, and the encoder's buffer is large enough, with
 nothing to spare in exactly one family of lengths.
 */
module Base64 {
  import opened Options
  import opened Selection

  type Byte = b: nat | b < 256

  const NEWLINE: Byte := 10
  const PAD: Byte := 61
  const INVALID: Byte := 0x80
  const LINE: nat := 72
  const SIZE_LIMIT: nat := 0x1_0000_0000_0000_0000

  /** The 64 characters: letters, digits, plus and slash. */
  function Alphabet(i: nat): Byte
    requires i < 64
  {
    if i < 26 then 65 + i
    else if i < 52 then 71 + i
    else if i < 62 then i - 4
    else if i == 62 then 43
    else 47
  }

  /** The decoding table: the padding character counts as zero. */
  function DecodeTable(c: Byte): Byte {
    if 65 <= c <= 90 then c - 65
    else if 97 <= c <= 122 then c - 71
    else if 48 <= c <= 57 then c + 4
    else if c == 43 then 62
    else if c == 47 then 63
    else if c == PAD then 0
    else INVALID
  }

  lemma TableInvertsAlphabet(i: nat)
    requires i < 64
    ensures DecodeTable(Alphabet(i)) == i && Alphabet(i) != PAD && Alphabet(i) != NEWLINE
  {
  }

  /** The `i`-th character of the standard: A to Z, a to z, 0 to 9, plus and
      slash. */
  function Character(i: nat): char
    requires i < 64
  {
    if i < 26 then 'A' + i as char
    else if i < 52 then 'a' + (i - 26) as char
    else if i < 62 then '0' + (i - 52) as char
    else if i == 62 then '+'
    else '/'
  }

  /** The alphabet is that of the standard, and so is the padding. */
  lemma AlphabetIs(i: nat)
    requires i < 64
    ensures Alphabet(i) == Character(i) as int && PAD == '=' as int
  {
  }

  function CharacterByte(i: nat): Byte
    requires i < 64
  {
    AlphabetIs(i);
    Character(i) as int
  }

  /** Exactly its characters and the padding are decoded, each to its place. */
  lemma DecodesExactly(c: Byte)
    ensures DecodeTable(c) != INVALID <==> c == '=' as int || exists i: nat :: i < 64 && Character(i) as int == c
    ensures forall i: nat :: i < 64 && Character(i) as int == c ==> DecodeTable(c) == i
    ensures c == '=' as int ==> DecodeTable(c) == 0
  {
    if DecodeTable(c) != INVALID && c != PAD {
      TableInverse(c);
      AlphabetIs(DecodeTable(c));
    }
    forall i: nat | i < 64 && Character(i) as int == c ensures DecodeTable(c) == i {
      AlphabetIs(i);
      TableInvertsAlphabet(i);
    }
  }

  lemma TableInverse(c: Byte)
    requires DecodeTable(c) != INVALID && c != PAD
    ensures DecodeTable(c) < 64 && Alphabet(DecodeTable(c)) == c
  {
  }

  // ----- encoding without lines

  function Quad(a: Byte, b: Byte, c: Byte): (q: seq<Byte>)
    ensures |q| == 4
  {
    [Alphabet(a / 4), Alphabet(a % 4 * 16 + b / 16), Alphabet(b % 16 * 4 + c / 64), Alphabet(c % 64)]
  }

  /** The last group, of one or two bytes. */
  function TailQuad(s: seq<Byte>): (q: seq<Byte>)
    requires 1 <= |s| <= 2
    ensures |q| == 4
  {
    if |s| == 1 then [Alphabet(s[0] / 4), Alphabet(s[0] % 4 * 16), PAD, PAD]
    else [Alphabet(s[0] / 4), Alphabet(s[0] % 4 * 16 + s[1] / 16), Alphabet(s[1] % 16 * 4), PAD]
  }

  function Plain(s: seq<Byte>): seq<Byte> {
    if |s| >= 3 then Quad(s[0], s[1], s[2]) + Plain(s[3..])
    else if |s| > 0 then TailQuad(s)
    else []
  }

  /** Three bytes are four digits in base 64, most significant first. */
  lemma QuadIsDigits(a: Byte, b: Byte, c: Byte) returns (w: nat, x: nat, y: nat, z: nat)
    ensures w < 64 && x < 64 && y < 64 && z < 64
    ensures ((w * 64 + x) * 64 + y) * 64 + z == (a as int * 256 + b) * 256 + c
    ensures Quad(a, b, c) == [CharacterByte(w), CharacterByte(x), CharacterByte(y), CharacterByte(z)]
  {
    hide Alphabet;
    w, x, y, z := a / 4, a % 4 * 16 + b / 16, b % 16 * 4 + c / 64, c % 64;
    AlphabetIs(w);
    AlphabetIs(x);
    AlphabetIs(y);
    AlphabetIs(z);
  }

  /** One or two bytes are two or three digits and padding; the last digit
      ends in zero bits. */
  lemma TailIsDigits(s: seq<Byte>) returns (w: nat, x: nat, y: nat)
    requires 1 <= |s| <= 2
    ensures w < 64 && x < 64 && y < 64
    ensures |s| == 1 ==>
              w * 64 + x == s[0] as int * 16 &&
              TailQuad(s) == [CharacterByte(w), CharacterByte(x), PAD, PAD]
    ensures |s| == 2 ==>
              (w * 64 + x) * 64 + y == (s[0] as int * 256 + s[1] as int) * 4 &&
              TailQuad(s) == [CharacterByte(w), CharacterByte(x), CharacterByte(y), PAD]
  {
    hide Alphabet;
    var a, b := s[0], if |s| == 1 then 0 else s[1];
    w, x, y := a / 4, a % 4 * 16 + b / 16, b % 16 * 4;
    AlphabetIs(w);
    AlphabetIs(x);
    AlphabetIs(y);
  }

  // ----- encoding with lines

  /** The encoding of `s` when `lineLen` characters are on the line already. */
  function EncodedFrom(s: seq<Byte>, lineLen: nat): seq<Byte> {
    if |s| >= 3 then
      Quad(s[0], s[1], s[2]) +
      (if lineLen + 4 >= LINE then [NEWLINE] + EncodedFrom(s[3..], 0) else EncodedFrom(s[3..], lineLen + 4))
    else if |s| > 0 then TailQuad(s) + [NEWLINE]
    else if lineLen > 0 then [NEWLINE]
    else []
  }

  function Encoded(s: seq<Byte>): seq<Byte> {
    EncodedFrom(s, 0)
  }

  // ----- decoding

  /** The characters the decoder does not skip. */
  function Kept(s: seq<Byte>): seq<Byte> {
    if s == [] then []
    else
      var before, c := Kept(s[..|s| - 1]), s[|s| - 1];
      if DecodeTable(c) != INVALID then before + [c] else before
  }

  function Block(w: Byte, x: Byte, y: Byte, z: Byte): (r: seq<Byte>)
    ensures |r| == 3
  {
    var a, b, c, d := DecodeTable(w), DecodeTable(x), DecodeTable(y), DecodeTable(z);
    [(a * 4 + b / 16) % 256, (b * 16 % 256 + c / 4) % 256, (c * 64 % 256 + d) % 256]
  }

  /** The bytes of all complete groups. */
  function Bytes(k: seq<Byte>): seq<Byte> {
    if |k| < 4 then []
    else
      var n := (|k| - 4) / 4 * 4;
      Bytes(k[..n]) + Block(k[n], k[n + 1], k[n + 2], k[n + 3])
  }

  /** How many bytes the padding of the last group takes off. */
  function Padding(k: seq<Byte>): nat {
    if |k| < 4 then 0
    else if k[|k| - 2] == PAD then 2
    else if k[|k| - 1] == PAD then 1
    else 0
  }

  function Decoded(s: seq<Byte>): Option<seq<Byte>> {
    var k := Kept(s);
    if |k| % 4 != 0 then None
    else
      BytesLength(k);
      Some(Bytes(k)[..|Bytes(k)| - Padding(k)])
  }

  lemma {:induction false} BytesLength(k: seq<Byte>)
    requires |k| % 4 == 0
    ensures |Bytes(k)| == |k| / 4 * 3
  {
    if |k| >= 4 {
      BytesLength(k[..(|k| - 4) / 4 * 4]);
    }
  }

  predicate IsKept(c: Byte) {
    c == '=' as int || exists i: nat :: i < 64 && Character(i) as int == c
  }

  /** What is kept are the characters of the alphabet and the padding. */
  lemma {:induction false} KeptExactly(s: seq<Byte>)
    ensures Selects(s, IsKept, Kept(s))
  {
    hide Selects, IsKept, DecodeTable;
    if s == [] {
      SelectNone(IsKept);
    } else {
      var before, c := s[..|s| - 1], s[|s| - 1];
      KeptExactly(before);
      KeptTest(c);
      SelectMore(before, IsKept, Kept(before), c);
      assert before + [c] == s;
    }
  }

  lemma KeptTest(c: Byte)
    ensures DecodeTable(c) != INVALID <==> IsKept(c)
  {
    DecodesExactly(c);
  }

  // ----- the round trip

  lemma JoinFourSixteen(high: nat, low: nat)
    requires high < 4 && low < 16
    ensures (high * 16 + low) / 16 == high && (high * 16 + low) * 16 % 256 == low * 16
  {
  }

  lemma JoinSixteenFour(high: nat, low: nat)
    requires high < 16 && low < 4
    ensures (high * 4 + low) / 4 == high && (high * 4 + low) * 64 % 256 == low * 64
  {
  }

  lemma FirstByte(a: Byte, b: Byte)
    ensures a / 4 < 64 && a % 4 * 16 + b / 16 < 64
    ensures (a / 4 * 4 + (a % 4 * 16 + b / 16) / 16) % 256 == a
  {
    JoinFourSixteen(a % 4, b / 16);
  }

  lemma SecondByte(a: Byte, b: Byte, c: Byte)
    ensures b % 16 * 4 + c / 64 < 64
    ensures ((a % 4 * 16 + b / 16) * 16 % 256 + (b % 16 * 4 + c / 64) / 4) % 256 == b
  {
    JoinFourSixteen(a % 4, b / 16);
    JoinSixteenFour(b % 16, c / 64);
  }

  lemma ThirdByte(b: Byte, c: Byte)
    ensures ((b % 16 * 4 + c / 64) * 64 % 256 + c % 64) % 256 == c
  {
    JoinSixteenFour(b % 16, c / 64);
  }

  /** Four sextets back into three bytes. */
  lemma Sextets(a: Byte, b: Byte, c: Byte)
    ensures var w, x, y, z := a / 4, a % 4 * 16 + b / 16, b % 16 * 4 + c / 64, c % 64;
            && w < 64 && x < 64 && y < 64 && z < 64
            && (w * 4 + x / 16) % 256 == a
            && (x * 16 % 256 + y / 4) % 256 == b
            && (y * 64 % 256 + z) % 256 == c
  {
    FirstByte(a, b);
    SecondByte(a, b, c);
    ThirdByte(b, c);
  }

  lemma BlockOf(w: nat, x: nat, y: nat, z: nat)
    requires w < 64 && x < 64 && y < 64 && z < 64
    ensures Block(Alphabet(w), Alphabet(x), Alphabet(y), Alphabet(z)) ==
            [(w * 4 + x / 16) % 256, (x * 16 % 256 + y / 4) % 256, (y * 64 % 256 + z) % 256]
    ensures y == 0 && z == 0 ==> Block(Alphabet(w), Alphabet(x), PAD, PAD) ==
                                 Block(Alphabet(w), Alphabet(x), Alphabet(y), Alphabet(z))
    ensures z == 0 ==> Block(Alphabet(w), Alphabet(x), Alphabet(y), PAD) ==
                       Block(Alphabet(w), Alphabet(x), Alphabet(y), Alphabet(z))
  {
    hide Alphabet;
    TableInvertsAlphabet(w);
    TableInvertsAlphabet(x);
    TableInvertsAlphabet(y);
    TableInvertsAlphabet(z);
  }

  ghost predicate Legible(q: seq<Byte>) {
    forall i :: 0 <= i < |q| ==> DecodeTable(q[i]) != INVALID && q[i] != NEWLINE
  }

  lemma AlphabetLegible(w: nat, x: nat, y: nat, z: nat)
    requires w < 64 && x < 64 && y < 64 && z < 64
    ensures Legible([Alphabet(w), Alphabet(x), Alphabet(y), Alphabet(z)])
    ensures Legible([Alphabet(w), Alphabet(x), Alphabet(y), PAD]) && Legible([Alphabet(w), Alphabet(x), PAD, PAD])
    ensures Alphabet(y) != PAD && Alphabet(z) != PAD
  {
    hide Alphabet;
    TableInvertsAlphabet(w);
    TableInvertsAlphabet(x);
    TableInvertsAlphabet(y);
    TableInvertsAlphabet(z);
    assert DecodeTable(PAD) != INVALID;
  }

  lemma QuadBack(a: Byte, b: Byte, c: Byte)
    ensures var q := Quad(a, b, c);
            Block(q[0], q[1], q[2], q[3]) == [a, b, c] && Legible(q) && q[2] != PAD && q[3] != PAD
  {
    hide Alphabet, Block, Legible;
    Sextets(a, b, c);
    BlockOf(a / 4, a % 4 * 16 + b / 16, b % 16 * 4 + c / 64, c % 64);
    AlphabetLegible(a / 4, a % 4 * 16 + b / 16, b % 16 * 4 + c / 64, c % 64);
  }

  lemma TailBack(s: seq<Byte>)
    requires 1 <= |s| <= 2
    ensures var q := TailQuad(s);
            && Block(q[0], q[1], q[2], q[3]) == s + (if |s| == 1 then [0, 0] else [0])
            && Legible(q) && q[3] == PAD && (q[2] == PAD <==> |s| == 1)
  {
    hide Alphabet, Block, Legible;
    var a, b := s[0], if |s| == 1 then 0 else s[1];
    Sextets(a, b, 0);
    BlockOf(a / 4, a % 4 * 16 + b / 16, b % 16 * 4, 0);
    AlphabetLegible(a / 4, a % 4 * 16 + b / 16, b % 16 * 4, 0);
    assert s == if |s| == 1 then [a] else [a, b];
  }

  lemma {:induction false} KeptAppend(s: seq<Byte>, t: seq<Byte>)
    ensures Kept(s + t) == Kept(s) + Kept(t)
  {
    if t == [] {
      assert s + t == s;
    } else {
      var n := |t| - 1;
      assert (s + t)[..|s + t| - 1] == s + t[..n];
      KeptAppend(s, t[..n]);
    }
  }

  lemma {:induction false} KeptWhole(q: seq<Byte>)
    requires Legible(q)
    ensures Kept(q) == q
  {
    if q != [] {
      KeptWhole(q[..|q| - 1]);
      assert q == q[..|q| - 1] + [q[|q| - 1]];
    }
  }

  lemma KeptNewline(t: seq<Byte>)
    ensures Kept([NEWLINE] + t) == Kept(t) && Kept(t + [NEWLINE]) == Kept(t)
  {
    KeptAppend([NEWLINE], t);
    KeptAppend(t, [NEWLINE]);
    assert Kept([NEWLINE]) == [];
  }

  /** Skipping what is not in the alphabet undoes the line breaks. */
  lemma {:induction false} LinesVanish(s: seq<Byte>, lineLen: nat)
    ensures Kept(EncodedFrom(s, lineLen)) == Plain(s)
    decreases |s|
  {
    hide Quad, TailQuad, Kept, Legible, Block;
    if |s| >= 3 {
      var q := Quad(s[0], s[1], s[2]);
      QuadBack(s[0], s[1], s[2]);
      KeptWhole(q);
      if lineLen + 4 >= LINE {
        LinesVanish(s[3..], 0);
        KeptNewline(EncodedFrom(s[3..], 0));
        KeptAppend(q, [NEWLINE] + EncodedFrom(s[3..], 0));
      } else {
        LinesVanish(s[3..], lineLen + 4);
        KeptAppend(q, EncodedFrom(s[3..], lineLen + 4));
      }
    } else if |s| > 0 {
      TailBack(s);
      KeptWhole(TailQuad(s));
      KeptNewline(TailQuad(s));
    } else {
      KeptNewline([]);
      KeptWhole([]);
      assert [NEWLINE] + [] == [NEWLINE];
    }
  }

  lemma LastGroup(k: seq<Byte>)
    requires |k| >= 4 && |k| % 4 == 0
    ensures var n := |k| - 4; Bytes(k) == Bytes(k[..n]) + Block(k[n], k[n + 1], k[n + 2], k[n + 3])
  {
    hide Block;
    assert (|k| - 4) / 4 * 4 == |k| - 4;
  }

  lemma {:induction false} BytesPrepend(q: seq<Byte>, k: seq<Byte>)
    requires |q| == 4 && |k| % 4 == 0
    ensures Bytes(q + k) == Block(q[0], q[1], q[2], q[3]) + Bytes(k)
    decreases |k|
  {
    hide Block, Bytes;
    LastGroup(q + k);
    if k == [] {
      BytesLength([]);
      assert (q + k)[..0] == [] && q + k == q;
    } else {
      var n := |k| - 4;
      BytesPrepend(q, k[..n]);
      LastGroup(k);
      assert (q + k)[..n + 4] == q + k[..n];
    }
  }

  function Missing(n: nat): nat {
    (3 - n % 3) % 3
  }

  lemma {:induction false} PlainBack(s: seq<Byte>)
    ensures |Plain(s)| % 4 == 0 && Padding(Plain(s)) == Missing(|s|)
    ensures Bytes(Plain(s)) == s + seq(Missing(|s|), _ => 0)
  {
    hide Quad, TailQuad, Legible, Block, Bytes;
    if |s| >= 3 {
      PlainBack(s[3..]);
      var q := Quad(s[0], s[1], s[2]);
      QuadBack(s[0], s[1], s[2]);
      BytesPrepend(q, Plain(s[3..]));
      assert s == [s[0], s[1], s[2]] + s[3..];
      PaddingPrepend(q, Plain(s[3..]));
    } else if |s| > 0 {
      TailBack(s);
      BytesPrepend(TailQuad(s), []);
      BytesLength([]);
      assert TailQuad(s) + [] == TailQuad(s);
    } else {
      BytesLength([]);
    }
  }

  lemma PaddingPrepend(q: seq<Byte>, k: seq<Byte>)
    requires |q| == 4 && |k| % 4 == 0 && q[2] != PAD && q[3] != PAD
    ensures Padding(q + k) == Padding(k)
  {
  }

  /** Decoding the encoding of any byte string returns it. */
  lemma RoundTrip(s: seq<Byte>)
    ensures Decoded(Encoded(s)) == Some(s)
  {
    LinesVanish(s, 0);
    PlainBack(s);
    BytesLength(Plain(s));
  }

  // ----- and back: characters without padding are determined by their bytes

  predicate Digit(c: Byte) {
    DecodeTable(c) != INVALID && c != PAD
  }

  lemma FirstDigits(w: nat, x: nat)
    requires w < 64 && x < 64
    ensures (w * 4 + x / 16) % 256 / 4 == w && (w * 4 + x / 16) % 256 % 4 == x / 16
  {
  }

  lemma UpFour(x: nat)
    requires x < 64
    ensures x * 16 % 256 == x % 16 * 16
  {
    var q, h := x / 16, x % 16;
    assert x * 16 == q * 256 + h * 16;
  }

  lemma UpSix(y: nat)
    requires y < 64
    ensures y * 64 % 256 == y % 4 * 64
  {
    var q, h := y / 4, y % 4;
    assert y * 64 == q * 256 + h * 64;
  }

  lemma Nibbles(h: nat, l: nat)
    requires h < 16 && l < 16
    ensures (h * 16 + l) % 256 / 16 == h && (h * 16 + l) % 256 % 16 == l
  {
  }

  lemma Crumb(h: nat, l: nat)
    requires h < 4 && l < 64
    ensures (h * 64 + l) % 256 / 64 == h && (h * 64 + l) % 256 % 64 == l
  {
  }

  lemma MiddleDigits(x: nat, y: nat)
    requires x < 64 && y < 64
    ensures var b := (x * 16 % 256 + y / 4) % 256; b / 16 == x % 16 && b % 16 == y / 4
  {
    UpFour(x);
    Nibbles(x % 16, y / 4);
  }

  lemma LastDigits(y: nat, z: nat)
    requires y < 64 && z < 64
    ensures var c := (y * 64 % 256 + z) % 256; c / 64 == y % 4 && c % 64 == z
  {
    UpSix(y);
    Crumb(y % 4, z);
  }

  lemma DigitsJoin(w: nat, x: nat, y: nat, z: nat)
    requires w < 64 && x < 64 && y < 64 && z < 64
    ensures var a, b, c := (w * 4 + x / 16) % 256, (x * 16 % 256 + y / 4) % 256, (y * 64 % 256 + z) % 256;
            a / 4 == w && a % 4 * 16 + b / 16 == x && b % 16 * 4 + c / 64 == y && c % 64 == z
  {
    FirstDigits(w, x);
    MiddleDigits(x, y);
    LastDigits(y, z);
  }

  lemma BlockForth(w: Byte, x: Byte, y: Byte, z: Byte)
    requires Digit(w) && Digit(x) && Digit(y) && Digit(z)
    ensures var b := Block(w, x, y, z); Quad(b[0], b[1], b[2]) == [w, x, y, z]
  {
    TableInverse(w);
    TableInverse(x);
    TableInverse(y);
    TableInverse(z);
    hide Alphabet, DecodeTable;
    DigitsJoin(DecodeTable(w), DecodeTable(x), DecodeTable(y), DecodeTable(z));
  }

  lemma {:induction false} BytesForth(k: seq<Byte>)
    requires |k| % 4 == 0 && forall i :: 0 <= i < |k| ==> Digit(k[i])
    ensures Plain(Bytes(k)) == k
    decreases |k|
  {
    hide Block, Quad, Digit, Bytes;
    BytesLength(k);
    if k != [] {
      var q, rest := k[..4], k[4..];
      assert k == q + rest;
      BytesPrepend(q, rest);
      BytesForth(rest);
      BlockForth(q[0], q[1], q[2], q[3]);
      PlainPrepend(Block(q[0], q[1], q[2], q[3]), Bytes(rest));
      assert q == [q[0], q[1], q[2], q[3]];
    }
  }

  lemma PlainPrepend(b: seq<Byte>, rest: seq<Byte>)
    requires |b| == 3
    ensures Plain(b + rest) == Quad(b[0], b[1], b[2]) + Plain(rest)
  {
    hide Quad;
    assert (b + rest)[3..] == rest;
  }

  /** Encoding what was decoded returns the characters, lines apart. */
  lemma DecodedRoundTrip(s: seq<Byte>)
    requires |Kept(s)| % 4 == 0 && forall i :: 0 <= i < |Kept(s)| ==> Digit(Kept(s)[i])
    ensures Decoded(s).Some? && Kept(Encoded(Decoded(s).value)) == Kept(s)
  {
    hide Encoded, Plain, Bytes, Kept, Digit, Padding;
    var k := Kept(s);
    NoPadding(k);
    BytesLength(k);
    assert Bytes(k)[..|Bytes(k)|] == Bytes(k);
    BytesForth(k);
    EncodedKept(Bytes(k));
  }

  lemma EncodedKept(s: seq<Byte>)
    ensures Kept(Encoded(s)) == Plain(s)
  {
    hide Plain, Kept;
    LinesVanish(s, 0);
  }

  lemma NoPadding(k: seq<Byte>)
    requires forall i :: 0 <= i < |k| ==> Digit(k[i])
    ensures Padding(k) == 0
  {
  }

  // ----- lines

  /** No line is longer than 72 characters, `col` being on it already. */
  ghost predicate LinesFit(t: seq<Byte>, col: nat) {
    if t == [] then true
    else if t[0] == NEWLINE then LinesFit(t[1..], 0)
    else col < 72 && LinesFit(t[1..], col + 1)
  }

  lemma {:induction false} CharactersFit(q: seq<Byte>, t: seq<Byte>, col: nat)
    requires Legible(q) && col + |q| <= LINE
    requires LinesFit(t, col + |q|)
    ensures LinesFit(q + t, col)
    decreases |q|
  {
    if q == [] {
      assert q + t == t;
    } else {
      assert (q + t)[1..] == q[1..] + t;
      CharactersFit(q[1..], t, col + 1);
    }
  }

  lemma {:induction false} EncodedFits(s: seq<Byte>, lineLen: nat)
    requires lineLen % 4 == 0 && lineLen < LINE
    ensures LinesFit(EncodedFrom(s, lineLen), lineLen)
    decreases |s|
  {
    hide Quad, TailQuad, Legible, Block;
    if |s| >= 3 {
      var q := Quad(s[0], s[1], s[2]);
      QuadBack(s[0], s[1], s[2]);
      if lineLen + 4 >= LINE {
        EncodedFits(s[3..], 0);
        var t := [NEWLINE] + EncodedFrom(s[3..], 0);
        assert t[1..] == EncodedFrom(s[3..], 0);
        CharactersFit(q, t, lineLen);
      } else {
        EncodedFits(s[3..], lineLen + 4);
        CharactersFit(q, EncodedFrom(s[3..], lineLen + 4), lineLen);
      }
    } else if |s| > 0 {
      TailBack(s);
      assert [NEWLINE][1..] == [];
      CharactersFit(TailQuad(s), [NEWLINE], lineLen);
    }
  }

  // ----- the size of the buffer

  function GroupCount(n: nat): nat {
    (n + 2) / 3
  }

  function LineCount(chars: nat): nat {
    (chars + LINE - 1) / LINE
  }

  lemma OneMoreLine(chars: nat)
    ensures LineCount(chars + LINE) == LineCount(chars) + 1
  {
  }

  lemma OneMoreGroup(n: nat)
    ensures GroupCount(n + 3) == GroupCount(n) + 1
  {
  }

  lemma {:induction false} EncodedLength(s: seq<Byte>, lineLen: nat)
    requires lineLen % 4 == 0 && lineLen < LINE
    ensures |EncodedFrom(s, lineLen)| == 4 * GroupCount(|s|) + LineCount(lineLen + 4 * GroupCount(|s|))
    decreases |s|
  {
    hide Quad, TailQuad;
    if |s| >= 3 {
      hide LineCount, GroupCount;
      OneMoreGroup(|s| - 3);
      OneMoreLine(4 * GroupCount(|s| - 3));
      if lineLen + 4 >= LINE {
        assert lineLen == 68;
        EncodedLength(s[3..], 0);
      } else {
        EncodedLength(s[3..], lineLen + 4);
      }
    }
  }

  /** The size the encoder asks for. */
  function AllocatedSize(n: nat): nat {
    var olen := n * 4 / 3 + 4;
    olen + olen / 72 + 1
  }

  lemma RoomToSpare(n: nat)
    ensures 4 * GroupCount(n) + LineCount(4 * GroupCount(n)) + 1 <= AllocatedSize(n)
    ensures 4 * GroupCount(n) + LineCount(4 * GroupCount(n)) + 1 == AllocatedSize(n) <==>
            n % 3 == 1 && 4 * GroupCount(n) % LINE != 0
  {
    var q := n / 3;
    if n % 3 == 0 {
      RoomAtThree(q);
    } else if n % 3 == 1 {
      RoomAtOne(q);
    } else {
      RoomAtTwo(q);
    }
  }

  lemma RoomAtThree(q: nat)
    ensures 4 * GroupCount(3 * q) + LineCount(4 * GroupCount(3 * q)) + 1 < AllocatedSize(3 * q)
  {
    assert GroupCount(3 * q) == q;
    assert 3 * q * 4 / 3 == 4 * q;
    assert (4 * q + 71) / 72 <= (4 * q + 4) / 72 + 1;
  }

  lemma RoomAtOne(q: nat)
    ensures 4 * GroupCount(3 * q + 1) + LineCount(4 * GroupCount(3 * q + 1)) + 1 <= AllocatedSize(3 * q + 1)
    ensures 4 * GroupCount(3 * q + 1) + LineCount(4 * GroupCount(3 * q + 1)) + 1 == AllocatedSize(3 * q + 1) <==>
            4 * GroupCount(3 * q + 1) % LINE != 0
  {
    assert GroupCount(3 * q + 1) == q + 1;
    assert (3 * q + 1) * 4 / 3 == 4 * q + 1;
    var x := 4 * q + 4;
    assert (x + 1) / 72 == x / 72;
    assert (x + 71) / 72 == x / 72 + (if x % 72 == 0 then 0 else 1);
  }

  lemma RoomAtTwo(q: nat)
    ensures 4 * GroupCount(3 * q + 2) + LineCount(4 * GroupCount(3 * q + 2)) + 1 < AllocatedSize(3 * q + 2)
  {
    assert GroupCount(3 * q + 2) == q + 1;
    assert (3 * q + 2) * 4 / 3 == 4 * q + 2;
    var x := 4 * q + 4;
    assert (x + 71) / 72 <= (x + 2) / 72 + 1;
  }

  /** The text and its terminator fit, and fill the buffer exactly when one
      byte is left over and the last line is not full. */
  lemma BufferFits(s: seq<Byte>)
    ensures |Encoded(s)| + 1 <= AllocatedSize(|s|)
    ensures |Encoded(s)| + 1 == AllocatedSize(|s|) <==> |s| % 3 == 1 && 4 * GroupCount(|s|) % LINE != 0
  {
    hide LineCount, GroupCount, AllocatedSize;
    EncodedLength(s, 0);
    RoomToSpare(|s|);
  }

  // ----- the encoder

  /** Four characters written at `pos`. */
  method Emit(out: array<Byte>, pos: nat, q: seq<Byte>)
    requires |q| == 4 && pos + 4 <= out.Length
    modifies out
    ensures out[..pos + 4] == old(out[..pos]) + q
  {
    out[pos] := q[0];
    out[pos + 1] := q[1];
    out[pos + 2] := q[2];
    out[pos + 3] := q[3];
  }

  method EmitNewline(out: array<Byte>, pos: nat)
    requires pos < out.Length
    modifies out
    ensures out[..pos + 1] == old(out[..pos]) + [NEWLINE]
  {
    out[pos] := NEWLINE;
  }

  /** The unfolding of the encoding at position `i` of the input. */
  lemma EncodeStep(src: seq<Byte>, i: nat, lineLen: nat)
    requires i + 3 <= |src|
    ensures EncodedFrom(src[i..], lineLen) ==
            Quad(src[i], src[i + 1], src[i + 2]) +
            (if lineLen + 4 >= LINE then [NEWLINE] + EncodedFrom(src[i + 3..], 0)
             else EncodedFrom(src[i + 3..], lineLen + 4))
  {
    assert src[i..][3..] == src[i + 3..];
  }

  /** All full groups of three bytes, with their line breaks. */
  method EncodeGroups(src: seq<Byte>, out: array<Byte>) returns (i: nat, pos: nat, lineLen: nat)
    requires out.Length > |Encoded(src)|
    modifies out
    ensures i <= |src| && |src| - i < 3 && pos < out.Length
    ensures out[..pos] + EncodedFrom(src[i..], lineLen) == Encoded(src)
  {
    hide Quad, EncodedFrom;
    i, pos, lineLen := 0, 0, 0;
    assert src[0..] == src && out[..0] == [];
    while |src| - i >= 3
      invariant i <= |src| && pos < out.Length
      invariant out[..pos] + EncodedFrom(src[i..], lineLen) == Encoded(src)
    {
      EncodeStep(src, i, lineLen);
      var q := Quad(src[i], src[i + 1], src[i + 2]);
      Emit(out, pos, q);
      pos := pos + 4;
      i := i + 3;
      lineLen := lineLen + 4;
      if lineLen >= LINE {
        EmitNewline(out, pos);
        pos := pos + 1;
        lineLen := 0;
      }
    }
  }

  /** The encoder: the text, followed by a zero byte. */
  method Encode(src: seq<Byte>) returns (out: array<Byte>, outLen: nat)
    requires |src| * 4 < SIZE_LIMIT && AllocatedSize(|src|) < SIZE_LIMIT
    ensures fresh(out) && out.Length == AllocatedSize(|src|)
    ensures outLen < out.Length && out[..outLen] == Encoded(src) && out[outLen] == 0
  {
    hide AllocatedSize, Quad, TailQuad;
    out := new Byte[AllocatedSize(|src|)](_ => 0);
    BufferFits(src);
    var i, pos, lineLen := EncodeGroups(src, out);
    var rest := src[i..];
    if |rest| > 0 {
      Emit(out, pos, TailQuad(rest));
      pos := pos + 4;
      lineLen := lineLen + 4;
    }
    if lineLen > 0 {
      EmitNewline(out, pos);
      pos := pos + 1;
    }
    out[pos] := 0;
    outLen := pos;
  }

  // ----- the decoder

  /** First pass: how many characters count. */
  method CountKept(src: seq<Byte>) returns (count: nat)
    ensures count == |Kept(src)|
  {
    count := 0;
    for i := 0 to |src|
      invariant count == |Kept(src[..i])|
    {
      assert src[..i + 1][..i] == src[..i];
      if DecodeTable(src[i]) != INVALID {
        count := count + 1;
      }
    }
    assert src[..|src|] == src;
  }

  /** What the second pass knows: bytes of the complete groups are out, the
      rest of the characters, or the last complete group, are in `group`. */
  ghost predicate Reading(kept: seq<Byte>, group: seq<Byte>, count: nat, done: seq<Byte>) {
    && |group| == 4 && count < 4 && count == |kept| % 4
    && (forall m :: 0 <= m < count ==> group[m] == kept[|kept| - count + m])
    && (count == 0 && |kept| > 0 ==> group == kept[|kept| - 4..])
    && done == Bytes(kept[..|kept| - count])
  }

  lemma ReadNext(kept: seq<Byte>, group: seq<Byte>, count: nat, done: seq<Byte>, c: Byte)
    requires Reading(kept, group, count, done)
    ensures var g := group[count := c];
            if count < 3 then Reading(kept + [c], g, count + 1, done)
            else Reading(kept + [c], g, 0, done + Block(g[0], g[1], g[2], g[3]))
  {
    hide Block, Bytes;
    var k, g, n := kept + [c], group[count := c], |kept| - count;
    if count < 3 {
      assert k[..n] == kept[..n];
      assert |k| % 4 == count + 1;
    } else {
      assert k[..|k|] == k && k[..n] == kept[..n];
      assert |k| % 4 == 0 && n == |k| - 4;
      assert g == k[n..];
      LastGroup(k);
    }
  }

  method EmitBytes(out: array<Byte>, pos: nat, b: seq<Byte>)
    requires |b| == 3 && pos + 3 <= out.Length
    modifies out
    ensures out[..pos + 3] == old(out[..pos]) + b
  {
    out[pos] := b[0];
    out[pos + 1] := b[1];
    out[pos + 2] := b[2];
  }

  lemma RoomForBytes(kept: seq<Byte>, total: nat, count: nat)
    requires |kept| < total && count == |kept| % 4 == 3
    ensures |Bytes(kept[..|kept| - count])| + 3 <= total
  {
    BytesLength(kept[..|kept| - count]);
  }

  lemma {:induction false} KeptGrows(src: seq<Byte>, i: nat)
    requires i <= |src|
    ensures |Kept(src[..i])| <= |Kept(src)|
  {
    assert src == src[..i] + src[i..];
    KeptAppend(src[..i], src[i..]);
  }

  /** Second pass. */
  method DecodeGroups(src: seq<Byte>, out: array<Byte>) returns (group: seq<Byte>, pos: nat)
    requires out.Length == |Kept(src)| && |Kept(src)| % 4 == 0
    modifies out
    ensures pos <= out.Length && Reading(Kept(src), group, 0, out[..pos])
  {
    hide Reading, Kept, Block;
    group := [0, 0, 0, 0];
    var count := 0;
    pos := 0;
    StartReading(src, group);
    assert out[..0] == [];
    for i := 0 to |src|
      invariant pos <= out.Length && count < 4 && |group| == 4
      invariant Reading(Kept(src[..i]), group, count, out[..pos])
    {
      KeptNext(src, i);
      KeptGrows(src, i + 1);
      var tmp := DecodeTable(src[i]);
      if tmp != INVALID {
        ReadNext(Kept(src[..i]), group, count, out[..pos], src[i]);
        ReadingSize(Kept(src[..i]), group, count, out[..pos], out.Length);
        group := group[count := src[i]];
        count := count + 1;
        if count == 4 {
          EmitBytes(out, pos, Block(group[0], group[1], group[2], group[3]));
          pos := pos + 3;
          count := 0;
        }
      }
    }
    assert src[..|src|] == src;
    ReadingCount(Kept(src), group, count, out[..pos]);
  }

  lemma StartReading(src: seq<Byte>, group: seq<Byte>)
    requires |group| == 4
    ensures Reading(Kept(src[..0]), group, 0, [])
  {
  }

  lemma KeptNext(src: seq<Byte>, i: nat)
    requires i < |src|
    ensures Kept(src[..i + 1]) ==
            if DecodeTable(src[i]) != INVALID then Kept(src[..i]) + [src[i]] else Kept(src[..i])
  {
    assert src[..i + 1][..i] == src[..i];
  }

  lemma ReadingCount(kept: seq<Byte>, group: seq<Byte>, count: nat, done: seq<Byte>)
    requires Reading(kept, group, count, done)
    ensures count == |kept| % 4
  {
  }

  lemma ReadingSize(kept: seq<Byte>, group: seq<Byte>, count: nat, done: seq<Byte>, total: nat)
    requires Reading(kept, group, count, done) && |kept| < total
    ensures count == 3 ==> |done| + 3 <= total
  {
    if count == 3 {
      RoomForBytes(kept, total, count);
    }
  }

  /** The decoder: no result if the characters do not make whole groups. */
  method Decode(src: seq<Byte>) returns (ok: bool, out: array<Byte>, outLen: nat)
    ensures ok <==> Decoded(src).Some?
    ensures ok ==> outLen <= out.Length && out[..outLen] == Decoded(src).value
  {
    hide Kept, Bytes;
    var count := CountKept(src);
    out, outLen := new Byte[count](_ => 0), 0;
    if count % 4 != 0 {
      ok := false;
      return;
    }
    ok := true;
    var group, pos := DecodeGroups(src, out);
    ghost var k := Kept(src);
    BytesLength(k);
    assert k[..|k|] == k;
    if pos > 0 {
      if group[2] == PAD {
        pos := pos - 2;
      } else if group[3] == PAD {
        pos := pos - 1;
      }
    }
    outLen := pos;
  }
}
