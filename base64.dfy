/**
  Base64 as `atob` uses it: the alphabet of section 4 of RFC 4648 and the
  "forgiving-base64 decode" of the WHATWG Infra standard (ASCII whitespace is
  skipped, the final padding is optional, the bits left over after the last
  full byte are discarded). `atob` returns a "binary string": one character
  per decoded byte. The encoder is the padded one of RFC 4648 (what `btoa`
  produces) and is used here only as the reference that decoding inverts.
 */
module Base64 {
  import opened Wrappers

  type Byte = x: int | 0 <= x < 256
  type Sextet = x: int | 0 <= x < 64

  /** The ASCII whitespace that forgiving-base64 decode removes. */
  predicate IsAsciiWhitespace(c: char) {
    c == '\t' || c == '\n' || c == '\U{C}' || c == '\r' || c == ' '
  }

  function StripWhitespace(s: string): (r: string)
    ensures forall i :: 0 <= i < |r| ==> !IsAsciiWhitespace(r[i])
    decreases |s|
  {
    if s == [] then []
    else (if IsAsciiWhitespace(s[0]) then [] else [s[0]]) + StripWhitespace(s[1..])
  }

  /** The value of a character of the base64 alphabet (RFC 4648, Table 1). */
  function SextetOf(c: char): Option<Sextet> {
    if 'A' <= c <= 'Z' then Some(c as int - 'A' as int)
    else if 'a' <= c <= 'z' then Some(c as int - 'a' as int + 26)
    else if '0' <= c <= '9' then Some(c as int - '0' as int + 52)
    else if c == '+' then Some(62)
    else if c == '/' then Some(63)
    else None
  }

  /** The alphabet character of a 6-bit value. */
  function AlphabetChar(v: Sextet): (c: char)
    ensures SextetOf(c) == Some(v)
  {
    if v < 26 then ('A' as int + v) as char
    else if v < 52 then ('a' as int + v - 26) as char
    else if v < 62 then ('0' as int + v - 52) as char
    else if v == 62 then '+'
    else '/'
  }

  /** The values of the characters of `s`, or None when one is outside the alphabet. */
  function Sextets(s: string): (r: Option<seq<Sextet>>)
    ensures r.Some? ==> |r.value| == |s|
    ensures r.Some? ==> forall i :: 0 <= i < |s| ==> SextetOf(s[i]) == Some(r.value[i])
    ensures r.None? <==> exists i :: 0 <= i < |s| && SextetOf(s[i]).None?
    decreases |s|
  {
    if s == [] then Some([])
    else
      var head, tail := SextetOf(s[0]), Sextets(s[1..]);
      if head.Some? && tail.Some? then Some([head.value] + tail.value)
      else
        assert head.Some? ==> exists i :: 0 < i < |s| && SextetOf(s[i]).None? by {
          if head.Some? {
            var j :| 0 <= j < |s| - 1 && SextetOf(s[1..][j]).None?;
            assert SextetOf(s[j + 1]).None?;
          }
        }
        None
  }

  /** Reassembles bytes from 6-bit values; a final group of 2 or 3 values
      gives 1 or 2 bytes and its leftover low bits are dropped. */
  function DecodeSextets(v: seq<Sextet>): (bytes: seq<Byte>)
    requires |v| % 4 != 1
    ensures |bytes| == |v| * 3 / 4
    decreases |v|
  {
    if |v| >= 4 then
      [v[0] as int * 4 + v[1] / 16, (v[1] % 16) as int * 16 + v[2] / 4, (v[2] % 4) as int * 64 + v[3]]
      + DecodeSextets(v[4..])
    else if |v| == 3 then [v[0] as int * 4 + v[1] / 16, (v[1] % 16) as int * 16 + v[2] / 4]
    else if |v| == 2 then [v[0] as int * 4 + v[1] / 16]
    else []
  }

  /** Removes one or two final `=` when the length is a multiple of four. */
  function StripPadding(data: string): string {
    if |data| % 4 == 0 && |data| >= 2 && data[|data| - 2..] == "==" then data[..|data| - 2]
    else if |data| % 4 == 0 && |data| >= 1 && data[|data| - 1] == '=' then data[..|data| - 1]
    else data
  }

  /** Forgiving-base64 decode; None is the failure on which `atob` throws. */
  function Decode(s: string): (r: Option<seq<Byte>>) {
    var data := StripPadding(StripWhitespace(s));
    if |data| % 4 == 1 then None
    else match Sextets(data)
      case None => None
      case Some(v) => Some(DecodeSextets(v))
  }

  /** The string with one character per byte, as `atob` returns it. */
  function Latin1(b: seq<Byte>): (s: string)
    ensures |s| == |b|
    ensures forall i :: 0 <= i < |b| ==> s[i] as int == b[i]
  {
    seq(|b|, i requires 0 <= i < |b| => b[i] as char)
  }

  predicate IsLatin1(s: string) {
    forall i :: 0 <= i < |s| ==> s[i] as int < 256
  }

  /** The bytes of a string whose characters are all below 256. */
  function Latin1Bytes(s: string): (b: seq<Byte>)
    requires IsLatin1(s)
    ensures Latin1(b) == s
  {
    seq(|s|, i requires 0 <= i < |s| => s[i] as int)
  }

  /** `atob(s)`: a binary string, or None where `atob` throws. */
  function Atob(s: string): (r: Option<string>)
    ensures r.Some? ==> IsLatin1(r.value)
  {
    match Decode(s)
    case None => None
    case Some(b) => Some(Latin1(b))
  }

  /** Splits bytes into 6-bit values, most significant first, the last
      group filled with zero bits (RFC 4648, section 4). */
  function EncodeSextets(b: seq<Byte>): (v: seq<Sextet>)
    ensures |v| == (if |b| % 3 == 0 then |b| / 3 * 4 else |b| / 3 * 4 + |b| % 3 + 1)
    decreases |b|
  {
    if |b| >= 3 then
      [b[0] / 4, (b[0] % 4) * 16 + b[1] / 16, (b[1] % 16) * 4 + b[2] / 64, b[2] % 64]
      + EncodeSextets(b[3..])
    else if |b| == 2 then [b[0] / 4, (b[0] % 4) * 16 + b[1] / 16, (b[1] % 16) * 4]
    else if |b| == 1 then [b[0] / 4, (b[0] % 4) * 16]
    else []
  }

  function Alphabet(v: seq<Sextet>): (s: string)
    ensures |s| == |v|
    ensures forall i :: 0 <= i < |v| ==> s[i] == AlphabetChar(v[i])
  {
    seq(|v|, i requires 0 <= i < |v| => AlphabetChar(v[i]))
  }

  /** The '=' characters that complete the last group of four characters
      when the input leaves `rest` bytes over. */
  function Padding(rest: nat): (pad: string)
    ensures |pad| == (3 - rest % 3) % 3
  {
    if rest % 3 == 1 then "==" else if rest % 3 == 2 then "=" else ""
  }

  /** Padded base64 encoding (`btoa` of the binary string of `b`). */
  function Encode(b: seq<Byte>): (s: string)
    ensures |s| % 4 == 0
  {
    EncodeLength(b);
    Alphabet(EncodeSextets(b)) + Padding(|b|)
  }

  /** Every started group of three bytes becomes four characters. */
  lemma EncodeLength(b: seq<Byte>)
    ensures |EncodeSextets(b)| + |Padding(|b|)| == (|b| + 2) / 3 * 4
    ensures ((|b| + 2) / 3 * 4) % 4 == 0
  {
    var q, r := |b| / 3, |b| % 3;
    assert |b| == 3 * q + r;
    assert (|b| + 2) / 3 == if r == 0 then q else q + 1;
  }

  lemma {:induction false} DecodeSextetsEncode(b: seq<Byte>)
    ensures DecodeSextets(EncodeSextets(b)) == b
    decreases |b|
  {
    var v := EncodeSextets(b);
    if |b| >= 3 {
      DecodeSextetsEncode(b[3..]);
      assert v[4..] == EncodeSextets(b[3..]);
      assert b == b[..3] + b[3..];
    }
  }

  /** Encoding works three bytes at a time: a prefix of whole groups is
      encoded on its own. */
  lemma {:induction false} EncodeSextetsAppend(x: seq<Byte>, y: seq<Byte>)
    requires |x| % 3 == 0
    ensures EncodeSextets(x + y) == EncodeSextets(x) + EncodeSextets(y)
    decreases |x|
  {
    if x == [] {
      assert x + y == y;
    } else {
      assert (x + y)[3..] == x[3..] + y;
      EncodeSextetsAppend(x[3..], y);
    }
  }

  lemma AlphabetAppend(v: seq<Sextet>, w: seq<Sextet>, pad: string)
    ensures Alphabet(v + w) + pad == Alphabet(v) + (Alphabet(w) + pad)
  {
    assert Alphabet(v + w) == Alphabet(v) + Alphabet(w);
  }

  lemma PaddingShift(n: nat, m: nat)
    requires n % 3 == 0
    ensures Padding(n + m) == Padding(m)
  {
    var q := n / 3;
    assert n == 3 * q;
    assert (3 * q + m) % 3 == m % 3;
  }

  /** A prefix of whole three-byte groups is encoded on its own, without padding. */
  lemma EncodeAppend(x: seq<Byte>, y: seq<Byte>)
    requires |x| % 3 == 0
    ensures Encode(x + y) == Alphabet(EncodeSextets(x)) + Encode(y)
  {
    EncodeSextetsAppend(x, y);
    PaddingShift(|x|, |y|);
    AlphabetAppend(EncodeSextets(x), EncodeSextets(y), Padding(|y|));
    assert Encode(x + y) == Alphabet(EncodeSextets(x + y)) + Padding(|x + y|);
    assert Encode(y) == Alphabet(EncodeSextets(y)) + Padding(|y|);
  }

  lemma Latin1BytesAppend(x: string, y: string)
    requires IsLatin1(x) && IsLatin1(y)
    ensures IsLatin1(x + y)
    ensures Latin1Bytes(x + y) == Latin1Bytes(x) + Latin1Bytes(y)
  {
  }

  lemma {:induction false} StripWhitespaceKeeps(s: string)
    requires forall i :: 0 <= i < |s| ==> !IsAsciiWhitespace(s[i])
    ensures StripWhitespace(s) == s
    decreases |s|
  {
    if s != [] {
      StripWhitespaceKeeps(s[1..]);
      assert [s[0]] + s[1..] == s;
    }
  }

  lemma SextetsAlphabet(v: seq<Sextet>)
    ensures Sextets(Alphabet(v)) == Some(v)
  {
    var r := Sextets(Alphabet(v));
    assert r.Some?;
    assert r.value == v;
  }

  /** Encoded text has no whitespace: every character is of the alphabet or `=`. */
  lemma EncodeHasNoWhitespace(b: seq<Byte>)
    ensures StripWhitespace(Encode(b)) == Encode(b)
  {
    var v := EncodeSextets(b);
    var s := Encode(b);
    forall i | 0 <= i < |s| ensures !IsAsciiWhitespace(s[i]) {
      if i < |v| {
        assert s[i] == AlphabetChar(v[i]);
      }
    }
    StripWhitespaceKeeps(s);
  }

  lemma StripPaddingUnpadded(t: string)
    requires t == [] || t[|t| - 1] != '='
    ensures StripPadding(t) == t
  {
  }

  lemma StripPaddingTwo(t: string)
    requires |t| % 4 == 2
    ensures StripPadding(t + "==") == t
  {
    var data := t + "==";
    assert data[|data| - 2..] == "==";
    assert data[..|data| - 2] == t;
  }

  lemma StripPaddingOne(t: string)
    requires |t| % 4 == 3 && t[|t| - 1] != '='
    ensures StripPadding(t + "=") == t
  {
    var data := t + "=";
    assert data[|data| - 2] == t[|t| - 1];
    assert data[..|data| - 1] == t;
  }

  /** Removing the padding of encoded text leaves exactly the alphabet characters. */
  lemma StripPaddingOfEncode(b: seq<Byte>)
    ensures StripPadding(Encode(b)) == Alphabet(EncodeSextets(b))
  {
    var v := EncodeSextets(b);
    var t := Alphabet(v);
    assert Encode(b) == t + Padding(|b|);
    if |t| >= 1 {
      assert SextetOf(t[|t| - 1]) == Some(v[|v| - 1]);
    }
    if |b| % 3 == 0 {
      assert t + Padding(|b|) == t;
      StripPaddingUnpadded(t);
    } else if |b| % 3 == 1 {
      StripPaddingTwo(t);
    } else {
      StripPaddingOne(t);
    }
  }

  /** Text whose characters, once whitespace and padding are gone, are the
      alphabet characters of `v` decodes to the bytes of `v`. */
  lemma DecodeOfAlphabet(s: string, v: seq<Sextet>)
    requires StripPadding(StripWhitespace(s)) == Alphabet(v)
    requires |v| % 4 != 1
    ensures Decode(s) == Some(DecodeSextets(v))
  {
    SextetsAlphabet(v);
  }

  /** Encoding never leaves a lone final 6-bit value. */
  lemma EncodeSextetsLength(b: seq<Byte>)
    ensures |EncodeSextets(b)| % 4 != 1
  {
  }

  /** Decoding inverts padded encoding: every byte string round-trips. */
  lemma DecodeEncode(b: seq<Byte>)
    ensures Decode(Encode(b)) == Some(b)
  {
    var v := EncodeSextets(b);
    EncodeHasNoWhitespace(b);
    StripPaddingOfEncode(b);
    EncodeSextetsLength(b);
    DecodeOfAlphabet(Encode(b), v);
    DecodeSextetsEncode(b);
  }

  /** `atob(btoa(s)) == s` for every binary string `s`. */
  lemma AtobOfEncoded(s: string)
    requires IsLatin1(s)
    ensures Atob(Encode(Latin1Bytes(s))) == Some(s)
  {
    DecodeEncode(Latin1Bytes(s));
  }

  lemma {:induction false} StripWhitespaceKeepsChar(s: string, i: nat)
    requires i < |s| && !IsAsciiWhitespace(s[i])
    ensures s[i] in StripWhitespace(s)
    decreases |s|
  {
    if i > 0 {
      StripWhitespaceKeepsChar(s[1..], i - 1);
    }
  }

  /** Padding removal only takes `=` characters off the end. */
  lemma StripPaddingTakesEquals(data: string)
    ensures |StripPadding(data)| <= |data|
    ensures StripPadding(data) == data[..|StripPadding(data)|]
    ensures forall k :: |StripPadding(data)| <= k < |data| ==> data[k] == '='
  {
  }

  /** A character that is neither in the alphabet, nor `=`, nor whitespace
      makes decoding fail, wherever it stands. */
  lemma DecodeRejectsForeignChar(s: string, i: nat)
    requires i < |s| && SextetOf(s[i]).None? && s[i] != '=' && !IsAsciiWhitespace(s[i])
    ensures Decode(s) == None
  {
    var stripped := StripWhitespace(s);
    StripWhitespaceKeepsChar(s, i);
    var data := StripPadding(stripped);
    StripPaddingTakesEquals(stripped);
    var j :| 0 <= j < |stripped| && stripped[j] == s[i];
    assert data[j] == s[i];
  }

}
