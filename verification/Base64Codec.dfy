/**
 * Base64 as section 4 of RFC 4648 defines it, the tables, shifts and masks that the program
 * uses for it, and the lengths that it computes on 64-bit words.
 */
module Base64Codec {
  import opened Basics
  import opened Words

  const PAD: Byte := 61
  const INVALID: Byte := 0xDD
  const SENTINEL: Byte := 0xFF

  /** `BASE64_ENCODING_TABLE`. */
  function Letter(v: nat): Byte
    requires v < 64
  {
    if v < 26 then 65 + v
    else if v < 52 then 97 + v - 26
    else if v < 62 then 48 + v - 52
    else if v == 62 then 43
    else 47
  }

  /** `BASE64_DECODING_TABLE`. */
  function Value(c: Byte): Byte
  {
    if c == 0 then 64
    else if 65 <= c <= 90 then c - 65
    else if 97 <= c <= 122 then c - 97 + 26
    else if 48 <= c <= 57 then c - 48 + 52
    else if c == 43 then 62
    else if c == 47 then 63
    else if c == PAD then SENTINEL
    else INVALID
  }

  /** The two tables of a codec. */
  datatype Alphabet = Alphabet(letter: nat -> Byte, value: Byte -> Byte) {
    /** The 64 letters have their values back, and padding is none of them. */
    ghost predicate Sound()
    {
      && value(PAD) == SENTINEL
      && (forall c :: value(c) <= 64 || value(c) == INVALID || value(c) == SENTINEL)
      && forall v: nat | v < 64 :: value(letter(v)) == v && letter(v) != PAD
    }
  }

  /** The tables of the program. */
  function Standard(): Alphabet
  {
    Alphabet(v => if v < 64 then Letter(v) else PAD, c => Value(c))
  }

  lemma StandardSound()
    ensures Standard().Sound()
  {
  }

  // --- the alphabet of RFC 4648 ------------------------------------------------------------

  const UPPER := "ABCDEFGHIJKLMNOPQRSTUVWXYZ"
  const LOWER := "abcdefghijklmnopqrstuvwxyz"
  const DIGITS := "0123456789"

  /** Table 1 of section 4. */
  const ALPHABET := UPPER + LOWER + DIGITS + "+/"

  lemma UpperLetters(v: nat)
    requires v < 26
    ensures |UPPER| == 26 && UPPER[v] as int == 65 + v
  {
  }

  lemma LowerLetters(v: nat)
    requires v < 26
    ensures |LOWER| == 26 && LOWER[v] as int == 97 + v
  {
  }

  lemma Digits(v: nat)
    requires v < 10
    ensures |DIGITS| == 10 && DIGITS[v] as int == 48 + v
  {
  }

  /** The letter of a value is that character of the alphabet. */
  lemma LetterInAlphabet(v: nat)
    requires v < 64
    ensures |ALPHABET| == 64 && Standard().letter(v) == ALPHABET[v] as int
  {
    UpperLetters(if v < 26 then v else 0);
    LowerLetters(if 26 <= v < 52 then v - 26 else 0);
    Digits(if 52 <= v < 62 then v - 52 else 0);
  }

  /** The value of a byte is its place in the alphabet; zero and the padding have values of their own, and no other byte has one. */
  lemma ValueInAlphabet(c: Byte)
    ensures |ALPHABET| == 64
    ensures var v := Standard().value(c);
      && (v < 64 <==> exists k: nat :: k < 64 && ALPHABET[k] as int == c)
      && (v < 64 ==> ALPHABET[v] as int == c)
      && (c == 0 ==> v == 64) && (c == '=' as int ==> v == SENTINEL)
      && (v >= 64 && c != 0 && c != '=' as int ==> v == INVALID)
  {
    LetterInAlphabet(0);
    var v := Standard().value(c);
    if v < 64 {
      LetterInAlphabet(v);
    }
    forall k: nat | k < 64 && ALPHABET[k] as int == c ensures v < 64 {
      LetterInAlphabet(k);
    }
  }

  // --- shifts and masks ------------------------------------------------------------------

  /** `x / n`, by repeated subtraction: a shift to the right when `n` is a power of two. */
  function Quotient(x: nat, n: nat): nat
    requires n > 0
  {
    if x < n then 0 else 1 + Quotient(x - n, n)
  }

  /** Quotient and remainder are what they should be. */
  lemma {:induction false} Parts(x: nat, n: nat, q: nat, r: nat)
    requires r < n && x == q * n + r
    ensures Quotient(x, n) == q && Reduce(x, n) == r
    decreases q
  {
    if q > 0 {
      Distribute(q, 1, n);
      MulGe(q, n);
      Parts(x - n, n, q - 1, r);
    }
  }

  lemma {:induction false} Apart(x: nat, n: nat)
    requires n > 0
    ensures x == Quotient(x, n) * n + Reduce(x, n)
    decreases x
  {
    if x >= n {
      Apart(x - n, n);
      Distribute(Quotient(x - n, n), 1, n);
    }
  }

  /** `(block >> k) & 0x3F`, where `unit` is two to the `k`. */
  function Field(block: nat, unit: nat): (r: nat)
    requires unit > 0
    ensures r < 64
  {
    Reduce(Quotient(block, unit), 64)
  }

  lemma FieldIs(block: nat, unit: nat, above: nat, field: nat, below: nat)
    requires field < 64 && below < unit && block == (above * 64 + field) * unit + below
    ensures Field(block, unit) == field
  {
    Parts(block, unit, above * 64 + field, below);
    Parts(above * 64 + field, 64, above, field);
  }

  /** The four six-bit fields of three bytes. */
  function Six1(a: Byte): (r: nat)
    ensures r < 64
  {
    Apart(a, 4);
    Quotient(a, 4)
  }

  function Six2(a: Byte, b: Byte): (r: nat)
    ensures r < 64
  {
    Apart(b, 16);
    16 * Reduce(a, 4) + Quotient(b, 16)
  }

  function Six3(b: Byte, c: Byte): (r: nat)
    ensures r < 64
  {
    Apart(c, 64);
    4 * Reduce(b, 16) + Quotient(c, 64)
  }

  function Six4(c: Byte): (r: nat)
    ensures r < 64
  {
    Reduce(c, 64)
  }

  function Join(a: Byte, b: Byte, c: Byte): nat
  {
    (a * 256 + b) * 256 + c
  }

  lemma Field1(a: Byte, b: Byte, c: Byte)
    ensures Field(Join(a, b, c), 0x4_0000) == Six1(a)
  {
    Apart(a, 4);
    FieldIs(Join(a, b, c), 0x4_0000, 0, Quotient(a, 4), 0x1_0000 * Reduce(a, 4) + 256 * b + c);
  }

  lemma Field2(a: Byte, b: Byte, c: Byte)
    ensures Field(Join(a, b, c), 0x1000) == Six2(a, b)
  {
    Apart(a, 4);
    Apart(b, 16);
    FieldIs(Join(a, b, c), 0x1000, Quotient(a, 4), 16 * Reduce(a, 4) + Quotient(b, 16), 256 * Reduce(b, 16) + c);
  }

  lemma Field3(a: Byte, b: Byte, c: Byte)
    ensures Field(Join(a, b, c), 64) == Six3(b, c)
  {
    Apart(b, 16);
    Apart(c, 64);
    FieldIs(Join(a, b, c), 64, 16 * a + Quotient(b, 16), 4 * Reduce(b, 16) + Quotient(c, 64), Reduce(c, 64));
  }

  lemma Field4(a: Byte, b: Byte, c: Byte)
    ensures Field(Join(a, b, c), 1) == Six4(c)
  {
    Apart(c, 64);
    FieldIs(Join(a, b, c), 1, 1024 * a + 4 * b + Quotient(c, 64), Reduce(c, 64), 0);
  }

  // --- encoding --------------------------------------------------------------------------

  /** The four letters of three bytes, cut out of the 24-bit block. */
  function Quad(t: Alphabet, a: Byte, b: Byte, c: Byte): (r: seq<Byte>)
    ensures |r| == 4
  {
    Letters(t, Join(a, b, c))
  }

  function Letters(t: Alphabet, block: nat): (r: seq<Byte>)
    ensures |r| == 4
  {
    [t.letter(Field(block, 0x4_0000)), t.letter(Field(block, 0x1000)), t.letter(Field(block, 64)), t.letter(Field(block, 1))]
  }

  /** The letters of four fields. */
  function Spell(t: Alphabet, v1: nat, v2: nat, v3: nat, v4: nat): (r: seq<Byte>)
    ensures |r| == 4
  {
    [t.letter(v1), t.letter(v2), t.letter(v3), t.letter(v4)]
  }

  lemma QuadSpelt(t: Alphabet, a: Byte, b: Byte, c: Byte)
    ensures Quad(t, a, b, c) == Spell(t, Six1(a), Six2(a, b), Six3(b, c), Six4(c))
  {
    Field1(a, b, c);
    Field2(a, b, c);
    Field3(a, b, c);
    Field4(a, b, c);
  }

  /** How many groups of three `n` bytes make, the last one possibly short. */
  function Groups(n: nat): nat
  {
    if n == 0 then 0 else if n <= 3 then 1 else 1 + Groups(n - 3)
  }

  lemma {:induction false} GroupsIs(n: nat)
    ensures Groups(n) == (n + 2) / 3
  {
    if n > 3 {
      GroupsIs(n - 3);
    }
  }

  /** The definition: groups of three bytes, the last one padded. */
  function Encoded(t: Alphabet, data: seq<Byte>): (r: seq<Byte>)
    ensures |r| == 4 * Groups(|data|) && |r| % 4 == 0
  {
    if data == [] then []
    else if |data| == 1 then Quad(t, data[0], 0, 0)[..2] + [PAD, PAD]
    else if |data| == 2 then Quad(t, data[0], data[1], 0)[..3] + [PAD]
    else Quad(t, data[0], data[1], data[2]) + Encoded(t, data[3..])
  }

  /** What the loop writes for the group at the front: missing bytes count as zero. */
  function FirstQuad(t: Alphabet, data: seq<Byte>): (r: seq<Byte>)
    requires data != []
    ensures |r| == 4
  {
    Quad(t, data[0], if |data| > 1 then data[1] else 0, if |data| > 2 then data[2] else 0)
  }

  function Unpadded(t: Alphabet, data: seq<Byte>): (r: seq<Byte>)
    ensures |r| == 4 * Groups(|data|)
  {
    if data == [] then [] else FirstQuad(t, data) + if |data| <= 3 then [] else Unpadded(t, data[3..])
  }

  /** What the padding step makes of it. */
  function Padded(s: seq<Byte>, remainder: nat): (r: seq<Byte>)
    requires remainder > 0 ==> |s| >= 4
    ensures |r| == |s|
  {
    if remainder == 0 then s
    else
      var t := s[|s| - 1 := PAD];
      if remainder == 1 then t[|s| - 2 := PAD] else t
  }

  lemma PaddedTail(q: seq<Byte>, s: seq<Byte>, remainder: nat)
    requires |s| >= 4
    ensures Padded(q + s, remainder) == q + Padded(s, remainder)
  {
  }

  lemma {:induction false} PaddedIsEncoded(t: Alphabet, data: seq<Byte>)
    ensures Padded(Unpadded(t, data), |data| % 3) == Encoded(t, data)
  {
    if |data| > 3 {
      PaddedIsEncoded(t, data[3..]);
      ByThrees(|data|);
      PaddedTail(FirstQuad(t, data), Unpadded(t, data[3..]), |data| % 3);
    } else {
      PaddedShort(t, data);
    }
  }

  lemma ByThrees(n: nat)
    requires n >= 3
    ensures n % 3 == (n - 3) % 3
  {
  }

  lemma PaddedShort(t: Alphabet, data: seq<Byte>)
    requires |data| <= 3
    ensures Padded(Unpadded(t, data), |data| % 3) == Encoded(t, data)
  {
    if |data| == 3 {
      assert Encoded(t, data[3..]) == [];
    }
  }

  // --- decoding --------------------------------------------------------------------------

  /** `s_base64_get_decoded_value`. */
  function ValueOf(t: Alphabet, c: Byte, allowSentinel: bool): (r: Option<Byte>)
    requires t.Sound()
    ensures r.Some? ==> r.value <= 64 || (allowSentinel && r.value == SENTINEL)
  {
    var v := t.value(c);
    if v != INVALID && (v != SENTINEL || allowSentinel) then Some(v) else None
  }

  /** `(v1 << 2) | ((v2 >> 4) & 0x03)` on a byte. */
  function First(v1: Byte, v2: Byte): Byte
    requires v1 <= 64
  {
    (if v1 == 64 then 0 else 4 * v1) + Reduce(Quotient(v2, 16), 4)
  }

  /** `((v2 << 4) & 0xF0) | ((v3 >> 2) & 0x0F)`. */
  function Second(v2: Byte, v3: Byte): Byte
  {
    16 * Reduce(v2, 16) + Reduce(Quotient(v3, 4), 16)
  }

  /** `((v3 & 0x03) << 6) | v4`, where bit 6 of `v4` may be set as well. */
  function Third(v3: Byte, v4: Byte): Byte
    requires v4 <= 64
  {
    var high := Reduce(v3, 4);
    if v4 < 64 then 64 * high + v4 else if high == 1 || high == 3 then 64 * high else 64 * high + 64
  }

  lemma FirstIs(a: Byte, b: Byte)
    ensures First(Six1(a), Six2(a, b)) == a
  {
    Apart(a, 4);
    Apart(b, 16);
    Parts(Six2(a, b), 16, Reduce(a, 4), Quotient(b, 16));
  }

  lemma SecondIs(a: Byte, b: Byte, c: Byte)
    ensures Second(Six2(a, b), Six3(b, c)) == b
  {
    Apart(b, 16);
    Apart(c, 64);
    Parts(Six2(a, b), 16, Reduce(a, 4), Quotient(b, 16));
    Parts(Six3(b, c), 4, Reduce(b, 16), Quotient(c, 64));
  }

  lemma ThirdIs(b: Byte, c: Byte)
    ensures Third(Six3(b, c), Six4(c)) == c
  {
    Apart(c, 64);
    Parts(Six3(b, c), 4, Reduce(b, 16), Quotient(c, 64));
  }

  /** A block of four letters; only the last block may be padded. */
  function Block(t: Alphabet, s: seq<Byte>, last: bool): (r: Option<seq<Byte>>)
    requires t.Sound()
    requires |s| == 4
    ensures r.Some? ==> 1 <= |r.value| <= 3 && (!last ==> |r.value| == 3)
  {
    var v1, v2, v3, v4 := ValueOf(t, s[0], false), ValueOf(t, s[1], false), ValueOf(t, s[2], last), ValueOf(t, s[3], last);
    if v1.None? || v2.None? || v3.None? || v4.None? then None
    else if v3.value == SENTINEL then Some([First(v1.value, v2.value)])
    else if v4.value == SENTINEL then Some([First(v1.value, v2.value), Second(v2.value, v3.value)])
    else Some([First(v1.value, v2.value), Second(v2.value, v3.value), Third(v3.value, v4.value)])
  }

  /** Reading the letters of four fields, or of fewer with padding. */
  lemma BlockSpelt(t: Alphabet, v1: nat, v2: nat, v3: nat, v4: nat, last: bool)
    requires t.Sound() && v1 < 64 && v2 < 64 && v3 < 64 && v4 < 64
    ensures var s := Spell(t, v1, v2, v3, v4);
            && Block(t, s, last) == Some([First(v1, v2), Second(v2, v3), Third(v3, v4)])
            && Block(t, s[..3] + [PAD], true) == Some([First(v1, v2), Second(v2, v3)])
            && Block(t, s[..2] + [PAD, PAD], true) == Some([First(v1, v2)])
            && s[2] != PAD && s[3] != PAD
  {
  }

  lemma BlockOfThree(t: Alphabet, a: Byte, b: Byte, c: Byte, last: bool)
    requires t.Sound()
    ensures Block(t, Quad(t, a, b, c), last) == Some([a, b, c])
    ensures Block(t, Quad(t, a, b, c)[..3] + [PAD], true) == Some([a, b])
    ensures Block(t, Quad(t, a, b, c)[..2] + [PAD, PAD], true) == Some([a])
    ensures Quad(t, a, b, c)[2] != PAD && Quad(t, a, b, c)[3] != PAD
  {
    QuadSpelt(t, a, b, c);
    BlockSpelt(t, Six1(a), Six2(a, b), Six3(b, c), Six4(c), last);
    FirstIs(a, b);
    SecondIs(a, b, c);
    ThirdIs(b, c);
  }

  /** The bytes that decoding writes. */
  function Decoded(t: Alphabet, s: seq<Byte>): (r: Option<seq<Byte>>)
    requires t.Sound()
    requires |s| % 4 == 0
  {
    if s == [] then Some([])
    else if |s| == 4 then Block(t, s, true)
    else match Block(t, s[..4], false)
      case None => None
      case Some(b) => match Decoded(t, s[4..])
        case None => None
        case Some(rest) => Some(b + rest)
  }

  lemma DecodedShort(t: Alphabet, data: seq<Byte>)
    requires t.Sound() && 1 <= |data| <= 2
    ensures Decoded(t, Encoded(t, data)) == Some(data)
  {
    if |data| == 1 {
      BlockOfThree(t, data[0], 0, 0, true);
      assert data == [data[0]];
    } else {
      BlockOfThree(t, data[0], data[1], 0, true);
      assert data == [data[0], data[1]];
    }
  }

  /** Decoding undoes encoding, for data of any length. */
  lemma {:induction false} DecodedEncoded(t: Alphabet, data: seq<Byte>)
    requires t.Sound()
    ensures Decoded(t, Encoded(t, data)) == Some(data)
  {
    if 1 <= |data| <= 2 {
      DecodedShort(t, data);
    } else if |data| >= 3 {
      DecodedEncoded(t, data[3..]);
      var q := FirstGroup(t, data);
      EncodedEmpty(t, data[3..]);
      Glue(t, q, Encoded(t, data[3..]), Encoded(t, data), data);
    }
  }

  lemma EncodedEmpty(t: Alphabet, data: seq<Byte>)
    ensures Encoded(t, data) == [] <==> data == []
  {
    assert Groups(|data|) == 0 <==> |data| == 0;
  }

  /** The first four letters of three bytes or more. */
  lemma FirstGroup(t: Alphabet, data: seq<Byte>) returns (q: seq<Byte>)
    requires t.Sound() && |data| >= 3
    ensures |q| == 4 && q[3] != PAD && Encoded(t, data) == q + Encoded(t, data[3..])
    ensures Block(t, q, |data| == 3) == Some([data[0], data[1], data[2]])
  {
    q := Quad(t, data[0], data[1], data[2]);
    BlockOfThree(t, data[0], data[1], data[2], |data| == 3);
  }

  lemma Glue(t: Alphabet, q: seq<Byte>, rest: seq<Byte>, s: seq<Byte>, data: seq<Byte>)
    requires t.Sound() && |q| == 4 && |rest| % 4 == 0 && |s| % 4 == 0 && s == q + rest
    requires |data| >= 3 && (rest == [] <==> |data| == 3)
    requires Block(t, q, |data| == 3) == Some([data[0], data[1], data[2]]) && Decoded(t, rest) == Some(data[3..])
    ensures Decoded(t, s) == Some(data)
  {
    assert s[..4] == q && s[4..] == rest;
    assert data == [data[0], data[1], data[2]] + data[3..];
    if rest == [] {
      assert s == q && data == [data[0], data[1], data[2]];
    }
  }

  // --- lengths ---------------------------------------------------------------------------

  /** `aws_base64_compute_encoded_len`; none if it detects an overflow. */
  function EncodedLen(n: nat): Option<nat>
    requires n < WORD
  {
    var tmp := Wrap(n + 2);
    if tmp < n then None
    else
      var groups := tmp / 3;
      var length := Wrap(4 * groups + 1);
      if length < groups then None else Some(length)
  }

  /** With one exception the length is found exactly when it fits a word, and it is exact. */
  lemma EncodedLenExact(n: nat)
    requires n < WORD
    ensures n != WORD - 3 ==> EncodedLen(n) == if 4 * Groups(n) + 1 < WORD then Some(4 * Groups(n) + 1) else None
  {
    GroupsIs(n);
    if n + 2 < WORD {
      assert Wrap(4 * ((n + 2) / 3) + 1) == if 4 * ((n + 2) / 3) + 1 < WORD then 4 * ((n + 2) / 3) + 1 else 4 * ((n + 2) / 3) + 1 - WORD;
    } else {
      assert Wrap(n + 2) == n + 2 - WORD;
    }
  }

  /** The exception: the overflow of `4 * groups + 1` comes out as `groups` itself and passes for a length. */
  lemma EncodedLenMissesOne()
    ensures EncodedLen(WORD - 3) == Some((WORD - 1) / 3) && 4 * Groups(WORD - 3) + 1 > WORD
  {
    GroupsIs(WORD - 3);
    var groups := (WORD - 1) / 3;
    assert Wrap(4 * groups + 1) == groups;
  }

  datatype LenResult = Length(value: nat) | InvalidString | Overflow

  /** How many of the last letters count as padding. */
  function Padding(s: seq<Byte>): (r: nat)
    requires |s| >= 4
    ensures r <= 2
  {
    if s[|s| - 1] == PAD && s[|s| - 2] == PAD then 2 else if s[|s| - 1] == PAD then 1 else 0
  }

  /** `aws_base64_compute_decoded_len`. */
  function DecodedLen(s: seq<Byte>): LenResult
    requires |s| < WORD
  {
    if s == [] then Length(0)
    else if |s| % 4 != 0 then InvalidString
    else
      var tmp := Wrap(3 * |s|);
      if tmp < |s| then Overflow else Length(Wrap(tmp / 4 - Padding(s)))
  }

  lemma {:induction false} PaddingOfEncoded(t: Alphabet, data: seq<Byte>)
    requires t.Sound()
    requires data != []
    ensures |data| == 3 * Groups(|data|) - Padding(Encoded(t, data))
  {
    if |data| == 2 {
      BlockOfThree(t, data[0], data[1], 0, true);
    } else if |data| == 3 {
      var q := FirstGroup(t, data);
      assert Encoded(t, data) == q;
    } else if |data| > 3 {
      PaddingOfEncoded(t, data[3..]);
    }
  }

  /** The decoded length of an encoding is right exactly when three times the encoding fits a word. */
  lemma DecodedLenExact(t: Alphabet, data: seq<Byte>)
    requires t.Sound()
    requires |Encoded(t, data)| < WORD
    ensures DecodedLen(Encoded(t, data)) == Length(|data|) <==> 3 * |Encoded(t, data)| < WORD
  {
    if data != [] {
      PaddingOfEncoded(t, data);
      LenOfGroups(Groups(|data|), Padding(Encoded(t, data)));
    }
  }

  lemma LenOfGroups(g: nat, padding: nat)
    requires 1 <= g && 4 * g < WORD && padding <= 2
    ensures var tmp := Wrap(12 * g);
            tmp >= 4 * g && Wrap(tmp / 4 - padding) == 3 * g - padding <==> 12 * g < WORD
  {
    if 12 * g < WORD {
      assert Wrap(12 * g) == 12 * g;
    } else if 12 * g < 2 * WORD {
      assert Wrap(12 * g) == 12 * g - WORD;
    } else {
      assert Wrap(12 * g) == Wrap(12 * g - WORD) == 12 * g - 2 * WORD;
    }
  }

  // --- the vectors of section 10 of RFC 4648 -----------------------------------------------

  lemma Six1Is(a: Byte, a1: nat, a2: nat)
    requires a == a1 * 4 + a2 && a2 < 4
    ensures Six1(a) == a1 && Reduce(a, 4) == a2
  {
    Parts(a, 4, a1, a2);
  }

  lemma Six2Is(b: Byte, b1: nat, b2: nat)
    requires b == b1 * 16 + b2 && b2 < 16
    ensures Quotient(b, 16) == b1 && Reduce(b, 16) == b2
  {
    Parts(b, 16, b1, b2);
  }

  lemma Six4Is(c: Byte, c1: nat, c2: nat)
    requires c == c1 * 64 + c2 && c2 < 64
    ensures Quotient(c, 64) == c1 && Six4(c) == c2
  {
    Parts(c, 64, c1, c2);
  }

  /** The fields of three bytes, from their parts of 6 and 2, 4 and 4, 2 and 6 bits. */
  lemma SixParts(a: Byte, b: Byte, c: Byte, a1: nat, a2: nat, b1: nat, b2: nat, c1: nat, c2: nat)
    requires a == a1 * 4 + a2 && a2 < 4 && b == b1 * 16 + b2 && b2 < 16 && c == c1 * 64 + c2 && c2 < 64
    ensures Six1(a) == a1 && Six2(a, b) == 16 * a2 + b1 && Six3(b, c) == 4 * b2 + c1 && Six4(c) == c2
  {
    Six1Is(a, a1, a2);
    Six2Is(b, b1, b2);
    Six4Is(c, c1, c2);
  }

  lemma SpeltAs(t: Alphabet, a: Byte, b: Byte, c: Byte, v1: nat, v2: nat, v3: nat, v4: nat)
    requires Six1(a) == v1 && Six2(a, b) == v2 && Six3(b, c) == v3 && Six4(c) == v4
    ensures Quad(t, a, b, c) == Spell(t, v1, v2, v3, v4)
  {
    QuadSpelt(t, a, b, c);
  }

  /** One byte: the two letters before the padding. */
  lemma OneByte(t: Alphabet, a: Byte, a1: nat, a2: nat)
    requires a == a1 * 4 + a2 && a2 < 4
    ensures Quad(t, a, 0, 0)[..2] == [t.letter(a1), t.letter(16 * a2)]
  {
    QuadSpelt(t, a, 0, 0);
    Six1Is(a, a1, a2);
    assert Six2(a, 0) == 16 * a2;
  }

  /** The text of four fields. */
  lemma Written(v1: nat, v2: nat, v3: nat, v4: nat, text: string)
    requires v1 < 64 && v2 < 64 && v3 < 64 && v4 < 64 && |text| == 4
    requires Letter(v1) == text[0] as int && Letter(v2) == text[1] as int && Letter(v3) == text[2] as int && Letter(v4) == text[3] as int
    ensures (forall i | 0 <= i < 4 :: text[i] as int < 256) && Spell(Standard(), v1, v2, v3, v4) == Bytes(text)
  {
  }

  /** The bytes of a text. */
  ghost function Bytes(text: string): seq<Byte>
    requires forall i | 0 <= i < |text| :: text[i] as int < 256
  {
    seq(|text|, i requires 0 <= i < |text| => text[i] as int)
  }

  lemma FQuad(a: Byte)
    requires a == 102
    ensures Quad(Standard(), a, 0, 0)[..2] == Bytes("Zg")
  {
    OneByte(Standard(), a, 25, 2);
  }

  lemma FoQuad(a: Byte, b: Byte, c: Byte)
    requires a == 102 && b == 111 && c == 0
    ensures Quad(Standard(), a, b, c) == Bytes("Zm8A")
  {
    FoQuadFields(a, b, c);
    SpeltAs(Standard(), a, b, c, 25, 38, 60, 0);
    Written(25, 38, 60, 0, "Zm8A");
  }

  lemma FoQuadFields(a: Byte, b: Byte, c: Byte)
    requires a == 102 && b == 111 && c == 0
    ensures Six1(a) == 25 && Six2(a, b) == 38 && Six3(b, c) == 60 && Six4(c) == 0
  {
    SixParts(a, b, c, 25, 2, 6, 15, 0, 0);
  }

  lemma FooQuad(a: Byte, b: Byte, c: Byte)
    requires a == 102 && b == 111 && c == 111
    ensures Quad(Standard(), a, b, c) == Bytes("Zm9v")
  {
    FooQuadFields(a, b, c);
    SpeltAs(Standard(), a, b, c, 25, 38, 61, 47);
    Written(25, 38, 61, 47, "Zm9v");
  }

  lemma FooQuadFields(a: Byte, b: Byte, c: Byte)
    requires a == 102 && b == 111 && c == 111
    ensures Six1(a) == 25 && Six2(a, b) == 38 && Six3(b, c) == 61 && Six4(c) == 47
  {
    SixParts(a, b, c, 25, 2, 6, 15, 1, 47);
  }

  lemma BQuad(a: Byte)
    requires a == 98
    ensures Quad(Standard(), a, 0, 0)[..2] == Bytes("Yg")
  {
    OneByte(Standard(), a, 24, 2);
  }

  lemma BaQuad(a: Byte, b: Byte, c: Byte)
    requires a == 98 && b == 97 && c == 0
    ensures Quad(Standard(), a, b, c) == Bytes("YmEA")
  {
    BaQuadFields(a, b, c);
    SpeltAs(Standard(), a, b, c, 24, 38, 4, 0);
    Written(24, 38, 4, 0, "YmEA");
  }

  lemma BaQuadFields(a: Byte, b: Byte, c: Byte)
    requires a == 98 && b == 97 && c == 0
    ensures Six1(a) == 24 && Six2(a, b) == 38 && Six3(b, c) == 4 && Six4(c) == 0
  {
    SixParts(a, b, c, 24, 2, 6, 1, 0, 0);
  }

  lemma BarQuad(a: Byte, b: Byte, c: Byte)
    requires a == 98 && b == 97 && c == 114
    ensures Quad(Standard(), a, b, c) == Bytes("YmFy")
  {
    BarQuadFields(a, b, c);
    SpeltAs(Standard(), a, b, c, 24, 38, 5, 50);
    Written(24, 38, 5, 50, "YmFy");
  }

  lemma BarQuadFields(a: Byte, b: Byte, c: Byte)
    requires a == 98 && b == 97 && c == 114
    ensures Six1(a) == 24 && Six2(a, b) == 38 && Six3(b, c) == 5 && Six4(c) == 50
  {
    SixParts(a, b, c, 24, 2, 6, 1, 1, 50);
  }

  /** What follows "foo" is encoded on its own. */
  lemma FooThen(rest: string)
    requires forall i | 0 <= i < |rest| :: rest[i] as int < 256
    ensures Encoded(Standard(), Bytes("foo" + rest)) == Bytes("Zm9v") + Encoded(Standard(), Bytes(rest))
  {
    var data := Bytes("foo" + rest);
    FooQuad(data[0], data[1], data[2]);
    assert data[3..] == Bytes(rest);
  }

  lemma VectorF()
    ensures Encoded(Standard(), Bytes("f")) == Bytes("Zg==")
  {
    FQuad(Bytes("f")[0]);
  }

  lemma VectorFo()
    ensures Encoded(Standard(), Bytes("fo")) == Bytes("Zm8=")
  {
    FoQuad(Bytes("fo")[0], Bytes("fo")[1], 0);
  }

  lemma VectorB()
    ensures Encoded(Standard(), Bytes("b")) == Bytes("Yg==")
  {
    BQuad(Bytes("b")[0]);
  }

  lemma VectorBa()
    ensures Encoded(Standard(), Bytes("ba")) == Bytes("YmE=")
  {
    BaQuad(Bytes("ba")[0], Bytes("ba")[1], 0);
  }

  lemma VectorBar()
    ensures Encoded(Standard(), Bytes("bar")) == Bytes("YmFy")
  {
    BarQuad(Bytes("bar")[0], Bytes("bar")[1], Bytes("bar")[2]);
    assert Bytes("bar")[3..] == [];
  }

  /** What is encoded after "foo" follows its letters. */
  lemma FooVector(rest: string, text: string, all: string, letters: string)
    requires (forall i | 0 <= i < |rest| :: rest[i] as int < 256) && forall i | 0 <= i < |text| :: text[i] as int < 256
    requires Encoded(Standard(), Bytes(rest)) == Bytes(text) && all == "foo" + rest && letters == "Zm9v" + text
    ensures Encoded(Standard(), Bytes(all)) == Bytes(letters)
  {
    FooThen(rest);
    assert Bytes(letters) == Bytes("Zm9v") + Bytes(text);
  }

  /** The test vectors. */
  lemma TestVectors()
    ensures Encoded(Standard(), Bytes("")) == Bytes("")
    ensures Encoded(Standard(), Bytes("f")) == Bytes("Zg==")
    ensures Encoded(Standard(), Bytes("fo")) == Bytes("Zm8=")
    ensures Encoded(Standard(), Bytes("foo")) == Bytes("Zm9v")
    ensures Encoded(Standard(), Bytes("foob")) == Bytes("Zm9vYg==")
    ensures Encoded(Standard(), Bytes("fooba")) == Bytes("Zm9vYmE=")
    ensures Encoded(Standard(), Bytes("foobar")) == Bytes("Zm9vYmFy")
  {
    assert Bytes("") == [];
    VectorF();
    VectorFo();
    VectorB();
    VectorBa();
    VectorBar();
    FooVector("", "", "foo", "Zm9v");
    FooVector("b", "Yg==", "foob", "Zm9vYg==");
    FooVector("ba", "YmE=", "fooba", "Zm9vYmE=");
    FooVector("bar", "YmFy", "foobar", "Zm9vYmFy");
  }
}
