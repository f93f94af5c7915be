/** The UTF-8 codec of StringUtil. */
module Utf8 {
  import opened Bits

  type Bytes = seq<Byte>

  const MAX_CODE_POINT := 0x10FFFF
  const INVALID := 0xFFFF_FFFF
  const REPLACEMENT := 0xFFFD

  /** A continuation byte carries six bits. */
  function Continuation(ch: u32): Byte {
    0x80 + ch % 0x40
  }

  /** The prefix bits and the payload of each byte do not overlap: `|` adds. */
  function Encode(ch: u32): (b: Bytes)
    ensures |b| >= 1
  {
    if ch <= 0x7F then [ch]
    else if ch <= 0x7FF then [0xC0 + ch / 0x40 % 0x20, Continuation(ch)]
    else if ch <= 0xFFFF then [0xE0 + ch / 0x1000 % 0x10, Continuation(ch / 0x40), Continuation(ch)]
    else if ch <= MAX_CODE_POINT then
      [0xF0 + ch / 0x40000 % 8, Continuation(ch / 0x1000), Continuation(ch / 0x40), Continuation(ch)]
    else [0xEF, 0xBF, 0xBD]
  }

  method EncodeAndAppendUTF8(start: Bytes, ch: u32) returns (s: Bytes)
    ensures s == start + Encode(ch)
  {
    s := start;
    if ch <= 0x7F {
      s := s + [ch];
    } else if ch <= 0x7FF {
      s := s + [0xC0 + ch / 0x40 % 0x20];
      s := s + [0x80 + ch % 0x40];
    } else if ch <= 0xFFFF {
      s := s + [0xE0 + ch / 0x1000 % 0x10];
      s := s + [0x80 + ch / 0x40 % 0x40];
      s := s + [0x80 + ch % 0x40];
    } else if ch <= 0x10FFFF {
      s := s + [0xF0 + ch / 0x40000 % 8];
      s := s + [0x80 + ch / 0x1000 % 0x40];
      s := s + [0x80 + ch / 0x40 % 0x40];
      s := s + [0x80 + ch % 0x40];
    } else {
      s := s + [0xEF];
      s := s + [0xBF];
      s := s + [0xBD];
    }
  }

  datatype Decoded = Decoded(ch: u32, size: nat)

  /** The six bits of a byte that is taken for a continuation byte. */
  function Six(b: Byte): (n: nat)
    ensures n < 0x40
  {
    b as int % 0x40
  }

  /** The first character and its length. The bytes after the first are not checked to be
      continuation bytes, and overlong forms and surrogates are accepted. */
  function Decode(b: Bytes): (d: Decoded)
    requires b != []
    ensures 1 <= d.size <= |b|
  {
    var first: nat := b[0];
    if first < 0x80 then Decoded(first, 1)
    else if 0xC0 <= first < 0xE0 && |b| >= 2 then
      Decoded(first % 0x20 * 0x40 + Six(b[1]), 2)
    else if 0xE0 <= first < 0xF0 && |b| >= 3 then
      Decoded(first % 0x10 * 0x1000 + Six(b[1]) * 0x40 + Six(b[2]), 3)
    else if 0xF0 <= first <= 0xF4 && |b| >= 4 then
      Decoded(first % 8 * 0x40000 + Six(b[1]) * 0x1000 + Six(b[2]) * 0x40 + Six(b[3]), 4)
    else Decoded(INVALID, 1)
  }

  function EncodeAll(cs: seq<u32>): Bytes {
    if cs == [] then [] else Encode(cs[0]) + EncodeAll(cs[1..])
  }

  function DecodeAll(b: Bytes): seq<u32>
    decreases |b|
  {
    if b == [] then [] else [Decode(b).ch] + DecodeAll(b[Decode(b).size..])
  }

  /** What can be written: a value that is no code point becomes the replacement character. */
  function Written(ch: u32): u32 {
    if ch <= MAX_CODE_POINT then ch else REPLACEMENT
  }

  lemma SixBitGroups(ch: u32)
    ensures ch == ch / 0x40 * 0x40 + Six(Continuation(ch))
    ensures ch / 0x40 == ch / 0x1000 * 0x40 + Six(Continuation(ch / 0x40))
    ensures ch / 0x1000 == ch / 0x40000 * 0x40 + Six(Continuation(ch / 0x1000))
  {
    LowSix(ch);
    LowSix(ch / 0x40);
    LowSix(ch / 0x1000);
    ShiftedAgain(ch);
  }

  lemma LowSix(n: u32)
    ensures n == n / 0x40 * 0x40 + Six(Continuation(n))
  {}

  lemma ShiftedAgain(n: nat)
    ensures n / 0x40 / 0x40 == n / 0x1000 && n / 0x1000 / 0x40 == n / 0x40000
  {}

  lemma DecodesOne(ch: u32, rest: Bytes)
    requires ch <= 0x7F
    ensures Decode(Encode(ch) + rest) == Decoded(ch, 1)
  {
    assert (Encode(ch) + rest)[0] == ch;
  }

  /** What `Decode` makes of a first byte that carries `top`, and the bytes behind it. */
  lemma ReadsTwo(top: nat, low: Byte, rest: Bytes)
    requires top < 0x20
    ensures Decode([0xC0 + top, low] + rest) == Decoded(top * 0x40 + Six(low), 2)
  {
    assert (0xC0 + top) % 0x20 == top;
  }

  lemma ReadsThree(top: nat, mid: Byte, low: Byte, rest: Bytes)
    requires top < 0x10
    ensures Decode([0xE0 + top, mid, low] + rest) == Decoded(top * 0x1000 + Six(mid) * 0x40 + Six(low), 3)
  {
    assert (0xE0 + top) % 0x10 == top;
  }

  lemma ReadsFour(top: nat, high: Byte, mid: Byte, low: Byte, rest: Bytes)
    requires top <= 4
    ensures Decode([0xF0 + top, high, mid, low] + rest)
            == Decoded(top * 0x40000 + Six(high) * 0x1000 + Six(mid) * 0x40 + Six(low), 4)
  {
    assert (0xF0 + top) % 8 == top;
  }

  lemma DecodesTwo(ch: u32, rest: Bytes)
    requires 0x7F < ch <= 0x7FF
    ensures Decode(Encode(ch) + rest) == Decoded(ch, 2)
  {
    var top := ch / 0x40;
    LowSix(ch);
    ReadsTwo(top, Continuation(ch), rest);
    assert Encode(ch) == [0xC0 + top, Continuation(ch)];
  }

  lemma DecodesThree(ch: u32, rest: Bytes)
    requires 0x7FF < ch <= 0xFFFF
    ensures Decode(Encode(ch) + rest) == Decoded(ch, 3)
  {
    var top := ch / 0x1000;
    SixBitGroups(ch);
    ReadsThree(top, Continuation(ch / 0x40), Continuation(ch), rest);
    assert Encode(ch) == [0xE0 + top, Continuation(ch / 0x40), Continuation(ch)];
  }

  lemma DecodesFour(ch: u32, rest: Bytes)
    requires 0xFFFF < ch <= MAX_CODE_POINT
    ensures Decode(Encode(ch) + rest) == Decoded(ch, 4)
  {
    var top := ch / 0x40000;
    SixBitGroups(ch);
    ReadsFour(top, Continuation(ch / 0x1000), Continuation(ch / 0x40), Continuation(ch), rest);
    assert Encode(ch) == [0xF0 + top, Continuation(ch / 0x1000), Continuation(ch / 0x40), Continuation(ch)];
  }

  lemma DecodesWhatWasWritten(ch: u32, rest: Bytes)
    ensures Decode(Encode(ch) + rest) == Decoded(Written(ch), |Encode(ch)|)
  {
    if ch <= 0x7F {
      DecodesOne(ch, rest);
    } else if ch <= 0x7FF {
      DecodesTwo(ch, rest);
    } else if ch <= 0xFFFF {
      DecodesThree(ch, rest);
    } else if ch <= MAX_CODE_POINT {
      DecodesFour(ch, rest);
    } else {
      var b := Encode(ch) + rest;
      assert b[0] == 0xEF && b[1] == 0xBF && b[2] == 0xBD;
    }
  }

  /** The round trip, for every list of values: what comes back is what can be written. */
  lemma {:induction false} RoundTrip(cs: seq<u32>)
    ensures DecodeAll(EncodeAll(cs)) == seq(|cs|, i requires 0 <= i < |cs| => Written(cs[i]))
    decreases |cs|
  {
    if cs != [] {
      var b, rest := EncodeAll(cs), EncodeAll(cs[1..]);
      DecodesWhatWasWritten(cs[0], rest);
      assert b[|Encode(cs[0])|..] == rest;
      RoundTrip(cs[1..]);
    }
  }

  ghost predicate AreCodePoints(cs: seq<u32>) {
    forall i | 0 <= i < |cs| :: cs[i] <= MAX_CODE_POINT
  }

  /** It is the identity exactly on lists of code points, surrogates included. */
  lemma RoundTripExactly(cs: seq<u32>)
    ensures DecodeAll(EncodeAll(cs)) == cs <==> AreCodePoints(cs)
  {
    RoundTrip(cs);
    var back := DecodeAll(EncodeAll(cs));
    assert forall i | 0 <= i < |cs| :: back[i] == Written(cs[i]);
  }

  /** Encodings of different lists of code points differ, and none is a prefix that another
      list could continue differently. */
  lemma EncodingIsInjective(a: seq<u32>, b: seq<u32>)
    requires AreCodePoints(a) && AreCodePoints(b) && EncodeAll(a) == EncodeAll(b)
    ensures a == b
  {
    RoundTripExactly(a);
    RoundTripExactly(b);
  }
}
