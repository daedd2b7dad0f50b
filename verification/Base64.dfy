/**
 * The scalar encoder and decoder, which work in the memory of a byte buffer.
 */
module Base64 {
  import opened Basics
  import opened Words
  import opened Base64Codec

  /** `aws_byte_buf`: memory of which the first `len` bytes are in use. */
  class ByteBuf {
    const buffer: array<Byte>
    var len: nat

    ghost predicate Valid()
      reads this
    {
      len <= buffer.Length < WORD
    }

    constructor (buffer: array<Byte>, len: nat)
      requires len <= buffer.Length < WORD
      ensures Valid() && this.buffer == buffer && this.len == len
    {
      this.buffer, this.len := buffer, len;
    }
  }

  /** Memory `b` in which `s` has been written at `at`. */
  ghost function Over(b: seq<Byte>, at: nat, s: seq<Byte>): (r: seq<Byte>)
    requires at + |s| <= |b|
    ensures |r| == |b|
  {
    b[..at] + s + b[at + |s|..]
  }

  lemma OverMore(b: seq<Byte>, at: nat, s: seq<Byte>, more: seq<Byte>)
    requires at + |s| + |more| <= |b|
    ensures Over(Over(b, at, s), at + |s|, more) == Over(b, at, s + more)
  {
  }

  /** Write a few bytes one after the other. */
  method WriteAt(buffer: array<Byte>, at: nat, s: seq<Byte>)
    requires at + |s| <= buffer.Length
    modifies buffer
    ensures buffer[..] == Over(old(buffer[..]), at, s)
  {
    ghost var b := buffer[..];
    assert Over(b, at, s[..0]) == b;
    for k := 0 to |s|
      invariant buffer[..] == Over(b, at, s[..k])
    {
      Put(buffer, at + k, s[k]);
      OverNext(b, at, s, k);
    }
    assert s[..|s|] == s;
  }

  method Put(buffer: array<Byte>, i: nat, x: Byte)
    requires i < buffer.Length
    modifies buffer
    ensures buffer[..] == old(buffer[..])[i := x]
  {
    buffer[i] := x;
  }

  lemma OverNext(b: seq<Byte>, at: nat, s: seq<Byte>, k: nat)
    requires at + |s| <= |b| && k < |s|
    ensures Over(b, at, s[..k])[at + k := s[k]] == Over(b, at, s[..k + 1])
  {
  }

  // --- encoding --------------------------------------------------------------------------

  /** What is left from index `i` on, which may be past the end. */
  ghost function From(data: seq<Byte>, i: nat): seq<Byte>
  {
    if i < |data| then data[i..] else []
  }

  /** The letters of the group at `i`. */
  function QuadAt(t: Alphabet, data: seq<Byte>, i: nat): (r: seq<Byte>)
    requires i < |data|
    ensures |r| == 4
  {
    Quad(t, data[i], if i + 1 < |data| then data[i + 1] else 0, if i + 2 < |data| then data[i + 2] else 0)
  }

  lemma UnpaddedFrom(t: Alphabet, data: seq<Byte>, i: nat)
    requires i < |data|
    ensures Unpadded(t, From(data, i)) == QuadAt(t, data, i) + Unpadded(t, From(data, i + 3))
  {
    var rest := From(data, i);
    assert QuadAt(t, data, i) == FirstQuad(t, rest);
    if |rest| > 3 {
      assert rest[3..] == From(data, i + 3);
    }
  }

  lemma Regroup(a: seq<Byte>, b: seq<Byte>, c: seq<Byte>)
    ensures a + (b + c) == a + b + c
  {
  }

  /** The groups before index `i` have been written. */
  ghost predicate WrittenTo(t: Alphabet, data: seq<Byte>, i: nat, b: seq<Byte>, at: nat, done: seq<Byte>, now: seq<Byte>)
  {
    && at + |Unpadded(t, data)| <= |b|
    && done + Unpadded(t, From(data, i)) == Unpadded(t, data) && now == Over(b, at, done)
  }

  lemma WritesNext(t: Alphabet, data: seq<Byte>, i: nat, b: seq<Byte>, at: nat, done: seq<Byte>, now: seq<Byte>)
    requires WrittenTo(t, data, i, b, at, done, now) && i < |data|
    ensures at + |done| + 4 <= |now|
    ensures WrittenTo(t, data, i + 3, b, at, done + QuadAt(t, data, i), Over(now, at + |done|, QuadAt(t, data, i)))
  {
    UnpaddedFrom(t, data, i);
    Regroup(done, QuadAt(t, data, i), Unpadded(t, From(data, i + 3)));
    OverMore(b, at, done, QuadAt(t, data, i));
  }

  /** The encoding loop, from `at` on. */
  method WriteQuads(t: Alphabet, data: seq<Byte>, buffer: array<Byte>, at: nat)
    requires at + 4 * Groups(|data|) <= buffer.Length
    modifies buffer
    ensures buffer[..] == Over(old(buffer[..]), at, Unpadded(t, data))
  {
    ghost var b, done: seq<Byte> := buffer[..], [];
    var i, index := 0, at;
    while i < |data|
      invariant index == at + |done| && WrittenTo(t, data, i, b, at, done, buffer[..])
      decreases |data| - i
    {
      WritesNext(t, data, i, b, at, done, buffer[..]);
      ghost var q := QuadAt(t, data, i);
      WriteAt(buffer, index, QuadAt(t, data, i));
      done := done + q;
      i, index := i + 3, index + 4;
    }
  }

  /** The padding step. */
  method WritePadding(buffer: array<Byte>, at: nat, ghost s: seq<Byte>, length: nat, remainder: nat, ghost b: seq<Byte>)
    requires length == |s| && at + length <= buffer.Length == |b| && (remainder > 0 ==> length >= 4) && remainder < 3
    requires buffer[..] == Over(b, at, s)
    modifies buffer
    ensures buffer[..] == Over(b, at, Padded(s, remainder))
  {
    if remainder > 0 {
      buffer[at + length - 1] := PAD;
      if remainder == 1 {
        buffer[at + length - 2] := PAD;
      }
    }
    assert buffer[..] == Over(b, at, Padded(s, remainder));
  }

  /**
   * `aws_base64_encode`. It appends the encoding and a zero that does not count, and
   * touches nothing else; it fails exactly when they do not fit. Left out is the one case in
   * which the length that it computes is wrong and the buffer has room for that length.
   */
  method Encode(t: Alphabet, data: seq<Byte>, out: ByteBuf) returns (ok: bool)
    requires out.Valid() && |data| < WORD
    requires |data| == WORD - 3 ==> out.buffer.Length < out.len + (WORD - 1) / 3
    modifies out, out.buffer
    ensures out.Valid() && ok == (old(out.len) + 4 * Groups(|data|) + 1 <= out.buffer.Length)
    ensures ok ==> out.len == old(out.len) + 4 * Groups(|data|)
    ensures ok ==> out.buffer[..] == Over(old(out.buffer[..]), old(out.len), Encoded(t, data) + [0])
    ensures !ok ==> out.len == old(out.len) && out.buffer[..] == old(out.buffer[..])
  {
    EncodedLenExact(|data|);
    if |data| == WORD - 3 {
      EncodedLenMissesOne();
    }
    var terminated := EncodedLen(|data|);
    if terminated.None? || out.len + terminated.value >= WORD || out.buffer.Length < out.len + terminated.value {
      return false;
    }
    var length := terminated.value - 1;
    WriteEncoding(t, data, out.buffer, out.len, length);
    out.len := out.len + length;
    return true;
  }

  /** The loop, the padding and the terminating zero. */
  method WriteEncoding(t: Alphabet, data: seq<Byte>, buffer: array<Byte>, at: nat, length: nat)
    requires length == 4 * Groups(|data|) && at + length < buffer.Length
    modifies buffer
    ensures buffer[..] == Over(old(buffer[..]), at, Encoded(t, data) + [0])
  {
    ghost var b, u := buffer[..], Unpadded(t, data);
    var remainder := |data| % 3;
    WriteQuads(t, data, buffer, at);
    assert remainder > 0 ==> length >= 4 by { assert |data| > 0 ==> Groups(|data|) >= 1; }
    WritePadding(buffer, at, u, length, remainder, b);
    PaddedIsEncoded(t, data);
    Terminate(buffer, at, length, Encoded(t, data), b);
  }

  /** The terminating zero. */
  method Terminate(buffer: array<Byte>, at: nat, length: nat, ghost s: seq<Byte>, ghost b: seq<Byte>)
    requires |s| == length && at + length < buffer.Length == |b| && buffer[..] == Over(b, at, s)
    modifies buffer
    ensures buffer[..] == Over(b, at, s + [0])
  {
    OverMore(b, at, s, [0]);
    WriteAt(buffer, at + length, [0]);
  }

  /** What was in the buffer stays in front of the encoding. */
  lemma Appended(b: seq<Byte>, at: nat, s: seq<Byte>)
    requires at + |s| + 1 <= |b|
    ensures var r := Over(b, at, s + [0]);
            r[..at + |s|] == b[..at] + s && r[at + |s|] == 0 && r[at + |s| + 1..] == b[at + |s| + 1..]
  {
  }

  // --- decoding --------------------------------------------------------------------------

  /** What the decoder writes fits the length it computes. */
  lemma {:induction false} DecodedFits(t: Alphabet, s: seq<Byte>)
    requires t.Sound() && |s| % 4 == 0 && s != [] && Decoded(t, s).Some?
    ensures 4 * (|Decoded(t, s).value| + Padding(s)) <= 3 * |s|
  {
    if |s| > 4 {
      DecodedFits(t, s[4..]);
      assert Padding(s[4..]) == Padding(s);
    }
  }

  /** What decoding the first blocks adds in front of the rest. */
  function Prepend(a: seq<Byte>, r: Option<seq<Byte>>): Option<seq<Byte>>
  {
    match r
    case None => None
    case Some(b) => Some(a + b)
  }

  /** The first `n` letters have been decoded to `done`. */
  ghost predicate ReadTo(t: Alphabet, s: seq<Byte>, n: nat, done: seq<Byte>)
    requires t.Sound() && |s| % 4 == 0
  {
    n < |s| && |s[n..]| % 4 == 0 && 4 * |done| == 3 * n && Decoded(t, s) == Prepend(done, Decoded(t, s[n..]))
  }

  lemma PrependTwice(a: seq<Byte>, b: Option<seq<Byte>>, r: Option<seq<Byte>>)
    ensures b.Some? ==> Prepend(a, Prepend(b.value, r)) == Prepend(a + b.value, r)
  {
    if b.Some? && r.Some? {
      Regroup(a, b.value, r.value);
    }
  }

  lemma ReadsNext(t: Alphabet, s: seq<Byte>, n: nat, done: seq<Byte>)
    requires t.Sound() && |s| % 4 == 0 && ReadTo(t, s, n, done) && n + 4 < |s|
    ensures match Block(t, s[n..n + 4], false)
            case None => Decoded(t, s).None?
            case Some(b) => ReadTo(t, s, n + 4, done + b)
  {
    var rest := s[n..];
    assert rest[..4] == s[n..n + 4] && rest[4..] == s[n + 4..];
    DecodedSplit(t, rest);
    PrependTwice(done, Block(t, s[n..n + 4], false), Decoded(t, s[n + 4..]));
  }

  lemma DecodedSplit(t: Alphabet, s: seq<Byte>)
    requires t.Sound() && |s| > 4 && |s| % 4 == 0
    ensures |s[4..]| % 4 == 0
    ensures match Block(t, s[..4], false)
            case None => Decoded(t, s) == None
            case Some(b) => |b| == 3 && Decoded(t, s) == Prepend(b, Decoded(t, s[4..]))
  {
  }

  lemma ReadNone(t: Alphabet, s: seq<Byte>)
    requires t.Sound() && |s| % 4 == 0 && s != []
    ensures ReadTo(t, s, 0, [])
  {
    assert s[0..] == s;
    if Decoded(t, s).Some? {
      assert [] + Decoded(t, s).value == Decoded(t, s).value;
    }
  }

  /** Write the next bytes after those done. */
  method WriteMore(buffer: array<Byte>, index: nat, more: seq<Byte>, ghost b: seq<Byte>, ghost done: seq<Byte>)
    requires index == |done| && |done| + |more| <= buffer.Length == |b| && buffer[..] == Over(b, 0, done)
    modifies buffer
    ensures buffer[..] == Over(b, 0, done + more)
  {
    OverMore(b, 0, done, more);
    WriteAt(buffer, index, more);
  }

  /** The blocks before the last one. */
  method ReadBlocks(t: Alphabet, s: seq<Byte>, buffer: array<Byte>) returns (ok: bool, ghost done: seq<Byte>)
    requires t.Sound() && |s| % 4 == 0 && s != [] && 3 * (|s| - 4) <= 4 * buffer.Length
    modifies buffer
    ensures ok ==> ReadTo(t, s, |s| - 4, done) && |done| <= buffer.Length && buffer[..] == Over(old(buffer[..]), 0, done)
    ensures !ok ==> Decoded(t, s).None?
  {
    ghost var b := buffer[..];
    done := [];
    var n, index := 0, 0;
    assert Over(b, 0, []) == b;
    ReadNone(t, s);
    while n < |s| - 4
      invariant ReadTo(t, s, n, done) && index == |done| <= buffer.Length && buffer[..] == Over(b, 0, done)
      decreases |s| - n
    {
      ReadsNext(t, s, n, done);
      var block := Block(t, s[n..n + 4], false);
      if block.None? {
        return false, done;
      }
      assert |done| + 3 <= buffer.Length;
      WriteMore(buffer, index, block.value, b, done);
      done := done + block.value;
      n, index := n + 4, index + 3;
    }
    return true, done;
  }

  /** All blocks. */
  method ReadAll(t: Alphabet, s: seq<Byte>, buffer: array<Byte>) returns (ok: bool)
    requires t.Sound() && |s| % 4 == 0 && s != [] && 3 * |s| <= 4 * (buffer.Length + Padding(s))
    modifies buffer
    ensures ok == Decoded(t, s).Some?
    ensures ok ==> |Decoded(t, s).value| <= buffer.Length && buffer[..] == Over(old(buffer[..]), 0, Decoded(t, s).value)
  {
    ghost var b := buffer[..];
    ghost var done;
    ok, done := ReadBlocks(t, s, buffer);
    if !ok {
      return false;
    }
    var last := Block(t, s[|s| - 4..], true);
    if last.None? {
      return false;
    }
    DecodedFits(t, s);
    WriteMore(buffer, (|s| - 4) / 4 * 3, last.value, b, done);
    return true;
  }

  /** A string that the decoder accepts, given room. */
  ghost predicate Readable(t: Alphabet, s: seq<Byte>)
    requires t.Sound() && |s| < WORD
  {
    DecodedLen(s).Length? && (s == [] || |s| >= WORD / 2 || Decoded(t, s).Some?)
  }

  /**
   * `aws_base64_decode`. The block count is a signed word, so a string of 2^63 letters or
   * more is accepted without being read.
   */
  method Decode(t: Alphabet, s: seq<Byte>, out: ByteBuf) returns (ok: bool)
    requires t.Sound() && out.Valid() && |s| < WORD
    modifies out, out.buffer
    ensures out.Valid() && (!ok ==> out.len == old(out.len))
    ensures ok <==> Readable(t, s) && DecodedLen(s).value <= out.buffer.Length
    ensures ok ==> out.len == DecodedLen(s).value
    ensures ok && |s| < WORD / 2 ==> |Decoded(t, s).value| <= out.buffer.Length
    ensures ok && |s| < WORD / 2 ==> out.buffer[..] == Over(old(out.buffer[..]), 0, Decoded(t, s).value)
    ensures ok && |s| >= WORD / 2 ==> out.buffer[..] == old(out.buffer[..])
  {
    var length := DecodedLen(s);
    if !length.Length? || out.buffer.Length < length.value {
      return false;
    }
    ok := true;
    assert Over(out.buffer[..], 0, []) == out.buffer[..];
    if s != [] && |s| < WORD / 2 {
      LenExact(s);
      ok := ReadAll(t, s, out.buffer);
    }
    if ok {
      out.len := length.value;
    }
  }

  /** For a string of fewer than 2^63 letters the length is exact or an overflow is seen. */
  lemma LenExact(s: seq<Byte>)
    requires 4 <= |s| < WORD / 2 && |s| % 4 == 0
    ensures DecodedLen(s) == if 3 * |s| < WORD then Length(|s| / 4 * 3 - Padding(s)) else Overflow
  {
    if 3 * |s| < WORD {
      assert Wrap(3 * |s|) == 3 * |s|;
    } else {
      assert Wrap(3 * |s|) == 3 * |s| - WORD;
    }
  }

  /**
   * Decoding an encoding gives the data back, in a buffer of just its length, exactly when
   * three times the encoding fits a word.
   */
  lemma RoundTrip(t: Alphabet, data: seq<Byte>)
    requires t.Sound() && 4 * Groups(|data|) + 1 < WORD
    ensures var s := Encoded(t, data);
            Readable(t, s) && DecodedLen(s) == Length(|data|) && Decoded(t, s) == Some(data) <==> 3 * |s| < WORD
  {
    DecodedLenExact(t, data);
    DecodedEncoded(t, data);
  }

  /** Data that can be encoded and not decoded: 2^62 bytes. */
  lemma TooLong(t: Alphabet, data: seq<Byte>)
    requires t.Sound() && |data| == 0x4000_0000_0000_0000
    ensures 4 * Groups(|data|) + 1 < WORD && DecodedLen(Encoded(t, data)) == Overflow
  {
    GroupsIs(|data|);
    LenExact(Encoded(t, data));
  }

  /** Both calls, on the program's tables: the bytes come back. */
  method ThereAndBack(data: seq<Byte>) returns (back: seq<Byte>)
    requires 12 * Groups(|data|) < WORD
    ensures back == data
  {
    StandardSound();
    GroupsIs(|data|);
    var n := 4 * Groups(|data|);
    var memory := new Byte[n + 1](_ => 0);
    var text := new ByteBuf(memory, 0);
    var ok := Encode(Standard(), data, text);
    var s := text.buffer[..text.len];
    assert s == Encoded(Standard(), data) by { Appended(seq(n + 1, _ => 0), 0, Encoded(Standard(), data)); }
    RoundTrip(Standard(), data);
    memory := new Byte[|data|](_ => 0);
    var bytes := new ByteBuf(memory, 0);
    ok := Decode(Standard(), s, bytes);
    back := bytes.buffer[..bytes.len];
  }
}
