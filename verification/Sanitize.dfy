/** `SanitizeFileName` on arbitrary bytes. */
module Sanitize {
  import opened Bits
  import opened Utf8

  const SLASH := 0x2F
  const ASTERISK := 0x2A
  const UNDERSCORE := 0x5F

  predicate FileSystemCharacterIsSane(c: u32, stripSlashes: bool) {
    !(c == SLASH && stripSlashes) && c != ASTERISK
  }

  function Clean(c: u32, strip: bool): u32 {
    if FileSystemCharacterIsSane(c, strip) then c else UNDERSCORE
  }

  function CleanAll(cs: seq<u32>, strip: bool): seq<u32> {
    seq(|cs|, i requires 0 <= i < |cs| => Clean(cs[i], strip))
  }

  function Sanitized(s: Bytes, strip: bool): Bytes {
    EncodeAll(CleanAll(DecodeAll(s), strip))
  }

  lemma CleanFront(cs: seq<u32>, strip: bool)
    requires cs != []
    ensures EncodeAll(CleanAll(cs, strip)) == Encode(Clean(cs[0], strip)) + EncodeAll(CleanAll(cs[1..], strip))
  {
    assert CleanAll(cs, strip)[1..] == CleanAll(cs[1..], strip);
  }

  /** The loop is proved for any codec: its arithmetic plays no part in it. */
  type Decoder = NonEmpty -> Decoded
  type Encoder = u32 -> Bytes

  type NonEmpty = b: Bytes | b != [] witness [0]

  ghost predicate IsCodec(d: Decoder, e: Encoder) {
    && (forall b: NonEmpty {:trigger Decode(b)} :: d(b) == Decode(b))
    && (forall c {:trigger Encode(c)} :: e(c) == Encode(c))
  }

  /** What the loop of `SanitizeFileName` still appends from a given position on. */
  function SanitizedFrom(d: Decoder, e: Encoder, str: Bytes, pos: nat, strip: bool): Bytes
    requires pos <= |str|
    decreases |str| - pos
  {
    if pos == |str| then []
    else
      var r := d(str[pos..]);
      e(Clean(r.ch, strip)) + if 1 <= r.size <= |str| - pos then SanitizedFrom(d, e, str, pos + r.size, strip) else []
  }

  method DecodeAt(str: Bytes, pos: nat, ghost d: Decoder, ghost e: Encoder) returns (r: Decoded)
    requires pos < |str| && IsCodec(d, e)
    ensures r == d(str[pos..]) && 1 <= r.size <= |str| - pos
  {
    r := Decode(str[pos..]);
  }

  method Append(start: Bytes, ch: u32, ghost d: Decoder, ghost e: Encoder) returns (s: Bytes)
    requires IsCodec(d, e)
    ensures s == start + e(ch)
  {
    s := EncodeAndAppendUTF8(start, ch);
    assert e(ch) == Encode(ch);
  }

  method SanitizeLoop(str: Bytes, stripSlashes: bool, ghost d: Decoder, ghost e: Encoder) returns (ret: Bytes)
    requires IsCodec(d, e)
    ensures ret == SanitizedFrom(d, e, str, 0, stripSlashes)
  {
    ret := [];
    var pos := 0;
    while pos < |str|
      invariant 0 <= pos <= |str|
      invariant ret + SanitizedFrom(d, e, str, pos, stripSlashes) == SanitizedFrom(d, e, str, 0, stripSlashes)
    {
      var r := DecodeAt(str, pos, d, e);
      var ch := if FileSystemCharacterIsSane(r.ch, stripSlashes) then r.ch else UNDERSCORE;
      Associate(ret, e(ch), SanitizedFrom(d, e, str, pos + r.size, stripSlashes));
      pos := pos + r.size;
      ret := Append(ret, ch, d, e);
    }
  }

  lemma Associate(a: Bytes, b: Bytes, c: Bytes)
    ensures a + (b + c) == a + b + c
  {}

  method SanitizeFileName(str: Bytes, stripSlashes: bool) returns (ret: Bytes)
    ensures ret == Sanitized(str, stripSlashes)
  {
    ghost var d: Decoder, e: Encoder := (b: NonEmpty) => Decode(b), Encode;
    ret := SanitizeLoop(str, stripSlashes, d, e);
    ghost var z: Bytes -> Bytes := (s: Bytes) => Sanitized(s, stripSlashes);
    SanitizedFromIs(d, e, z, str, 0, stripSlashes);
    assert str[0..] == str;
  }

  /** `z` gives the specified result, which most of the proof does not look into. */
  ghost predicate IsSanitizer(z: Bytes -> Bytes, strip: bool) {
    forall s {:trigger Sanitized(s, strip)} :: z(s) == Sanitized(s, strip)
  }

  lemma {:induction false} SanitizedFromIs(d: Decoder, e: Encoder, z: Bytes -> Bytes, str: Bytes, pos: nat, strip: bool)
    requires pos <= |str| && IsCodec(d, e) && IsSanitizer(z, strip)
    ensures SanitizedFrom(d, e, str, pos, strip) == z(str[pos..])
    decreases |str| - pos
  {
    var s := str[pos..];
    if pos < |str| {
      SanitizeFrontBy(d, e, z, s, strip);
      var r := d(s);
      SanitizedFromIs(d, e, z, str, pos + r.size, strip);
      assert s[r.size..] == str[pos + r.size..];
    } else {
      NothingToSanitize(z, strip);
    }
  }

  lemma NothingToSanitize(z: Bytes -> Bytes, strip: bool)
    requires IsSanitizer(z, strip)
    ensures z([]) == []
  {
    assert Sanitized([], strip) == [];
  }

  lemma SanitizeFrontBy(d: Decoder, e: Encoder, z: Bytes -> Bytes, s: Bytes, strip: bool)
    requires s != [] && IsCodec(d, e) && IsSanitizer(z, strip)
    ensures var r := d(s); 1 <= r.size <= |s| && z(s) == e(Clean(r.ch, strip)) + z(s[r.size..])
  {
    var r := Decode(s);
    assert d(s) == r && e(Clean(r.ch, strip)) == Encode(Clean(r.ch, strip));
    SanitizeFront(s, strip);
  }

  lemma SanitizeFront(s: Bytes, strip: bool)
    requires s != []
    ensures Sanitized(s, strip) == Encode(Clean(Decode(s).ch, strip)) + Sanitized(s[Decode(s).size..], strip)
  {
    CleanFront(DecodeAll(s), strip);
  }

  ghost predicate AllSane(cs: seq<u32>, strip: bool) {
    forall i | 0 <= i < |cs| :: FileSystemCharacterIsSane(cs[i], strip)
  }

  /** The result decodes to sane code points only, one for each character that was read. */
  lemma OutputIsSane(s: Bytes, strip: bool)
    ensures var out := DecodeAll(Sanitized(s, strip));
            && AllSane(out, strip) && AreCodePoints(out) && |out| == |DecodeAll(s)|
            && forall i | 0 <= i < |out| :: out[i] == Written(Clean(DecodeAll(s)[i], strip))
  {
    RoundTrip(CleanAll(DecodeAll(s), strip));
  }

  /** A list of sane code points, encoded, is left alone. */
  lemma SaneIsKept(cs: seq<u32>, strip: bool)
    requires AllSane(cs, strip) && AreCodePoints(cs)
    ensures Sanitized(EncodeAll(cs), strip) == EncodeAll(cs)
  {
    RoundTripExactly(cs);
    assert CleanAll(cs, strip) == cs;
  }

  lemma {:induction false} WrittenEncodesAlike(cs: seq<u32>, ws: seq<u32>)
    requires |ws| == |cs| && forall i | 0 <= i < |cs| :: ws[i] == Written(cs[i])
    ensures EncodeAll(ws) == EncodeAll(cs)
    decreases |cs|
  {
    if cs != [] {
      WrittenEncodesAlike(cs[1..], ws[1..]);
      assert Encode(ws[0]) == Encode(cs[0]);
    }
  }

  /** The names that are left alone are exactly the encodings of sane code points. */
  lemma KeptExactly(s: Bytes, strip: bool)
    ensures Sanitized(s, strip) == s
            <==> s == EncodeAll(DecodeAll(s)) && AllSane(DecodeAll(s), strip) && AreCodePoints(DecodeAll(s))
  {
    OutputIsSane(s, strip);
    var cs := DecodeAll(s);
    if Sanitized(s, strip) == s {
      WrittenEncodesAlike(CleanAll(cs, strip), cs);
    } else if AllSane(cs, strip) && AreCodePoints(cs) && s == EncodeAll(cs) {
      SaneIsKept(cs, strip);
    }
  }

  /** Sanitising again changes nothing, whatever the bytes were. */
  lemma SanitizeIdempotent(s: Bytes, strip: bool)
    ensures Sanitized(Sanitized(s, strip), strip) == Sanitized(s, strip)
  {
    var cs := CleanAll(DecodeAll(s), strip);
    var out := DecodeAll(Sanitized(s, strip));
    OutputIsSane(s, strip);
    WrittenEncodesAlike(cs, out);
    SaneIsKept(out, strip);
  }
}
