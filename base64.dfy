/**
 * Base 64 encoding with the alphabet of section 4 of RFC 4648, as decoded by
 * java.util.Base64.getDecoder(): the basic decoder that accepts the final
 * unit with or without its '=' padding, insists that padding, when present,
 * is complete, and refuses anything after it.
 */
module Base64 {
  import opened Wrappers

  type byte = x: int | 0 <= x < 256
  type sextet = x: int | 0 <= x < 64

  const Pad: char := '='

  /** The 64 characters of Table 1 of RFC 4648. */
  predicate IsAlphabetChar(c: char) {
    ('A' <= c <= 'Z') || ('a' <= c <= 'z') || ('0' <= c <= '9') || c == '+' || c == '/'
  }

  predicate AllAlphabet(s: string) {
    forall i :: 0 <= i < |s| ==> IsAlphabetChar(s[i])
  }

  /** The 6-bit value a character of the alphabet stands for. */
  function ValueOf(c: char): sextet
    requires IsAlphabetChar(c)
  {
    if 'A' <= c <= 'Z' then c as int - 'A' as int
    else if 'a' <= c <= 'z' then c as int - 'a' as int + 26
    else if '0' <= c <= '9' then c as int - '0' as int + 52
    else if c == '+' then 62
    else 63
  }

  /** The character of the alphabet for a 6-bit value; ValueOf undoes it. */
  function CharOf(v: sextet): (c: char)
    ensures IsAlphabetChar(c) && ValueOf(c) == v
  {
    if v < 26 then (v + 'A' as int) as char
    else if v < 52 then (v - 26 + 'a' as int) as char
    else if v < 62 then (v - 52 + '0' as int) as char
    else if v == 62 then '+'
    else '/'
  }

  lemma CharOfValueOf(c: char)
    requires IsAlphabetChar(c)
    ensures CharOf(ValueOf(c)) == c
  {
  }

  function Values(s: string): (vs: seq<sextet>)
    requires AllAlphabet(s)
    ensures |vs| == |s|
  {
    seq(|s|, i requires 0 <= i < |s| => ValueOf(s[i]))
  }

  function Chars(vs: seq<sextet>): (s: string)
    ensures |s| == |vs| && AllAlphabet(s)
    ensures forall i :: 0 <= i < |vs| ==> ValueOf(s[i]) == vs[i]
  {
    seq(|vs|, i requires 0 <= i < |vs| => CharOf(vs[i]))
  }

  /**
   * Groups of four 6-bit values become three bytes; a final group of two
   * values gives one byte and one of three gives two. The bits of the last
   * value that do not reach a byte are dropped unchecked, as the JDK does.
   */
  function DecodeSextets(vs: seq<sextet>): (bytes: seq<byte>)
    requires |vs| % 4 != 1
    ensures |bytes| == |vs| / 4 * 3 + (if |vs| % 4 == 0 then 0 else |vs| % 4 - 1)
  {
    if |vs| == 0 then []
    else
      var v: seq<int> := vs;
      var b0: byte := v[0] * 4 + v[1] / 16;
      if |vs| == 2 then [b0]
      else
        var b1: byte := v[1] % 16 * 16 + v[2] / 4;
        if |vs| == 3 then [b0, b1]
        else
          var b2: byte := v[2] % 4 * 64 + v[3];
          [b0, b1, b2] + DecodeSextets(vs[4..])
  }

  /** Three bytes become four 6-bit values; a final one or two bytes become two or three values. */
  function EncodeSextets(bytes: seq<byte>): (vs: seq<sextet>)
    ensures |vs| == |bytes| / 3 * 4 + (if |bytes| % 3 == 0 then 0 else |bytes| % 3 + 1)
  {
    if |bytes| == 0 then []
    else if |bytes| == 1 then [bytes[0] / 4, bytes[0] % 4 * 16]
    else if |bytes| == 2 then [bytes[0] / 4, bytes[0] % 4 * 16 + bytes[1] / 16, bytes[1] % 16 * 4]
    else [bytes[0] / 4, bytes[0] % 4 * 16 + bytes[1] / 16, bytes[1] % 16 * 4 + bytes[2] / 64, bytes[2] % 64]
         + EncodeSextets(bytes[3..])
  }

  /** The '=' characters that complete the final unit of an encoding of n bytes. */
  function Padding(n: nat): string {
    if n % 3 == 1 then "==" else if n % 3 == 2 then "=" else ""
  }

  /** Encoding with padding, as java.util.Base64.getEncoder() produces it. */
  function Encode(bytes: seq<byte>): (s: string)
  {
    Chars(EncodeSextets(bytes)) + Padding(|bytes|)
  }

  /** The position of the first '=' in s, or |s| when there is none. */
  function PadStart(s: string): (k: nat)
    ensures k <= |s|
    ensures forall i :: 0 <= i < k ==> s[i] != Pad
    ensures k < |s| ==> s[k] == Pad
  {
    if |s| == 0 || s[0] == Pad then 0 else 1 + PadStart(s[1..])
  }

  /**
   * Decoding as java.util.Base64.Decoder.decode; None stands for the
   * IllegalArgumentException it throws. Everything before the first '='
   * must be in the alphabet, and its length must not leave a single
   * character in the last unit. After the values, '=' may start only the
   * third or fourth position of a unit: one '=' at the fourth ends the input,
   * and at the third exactly two '=' end it.
   */
  function Decode(s: string): (r: Option<seq<byte>>)
    ensures r.Some? ==>
      var k := PadStart(s);
      AllAlphabet(s[..k]) && (s[k..] == "" || s[k..] == Padding(|r.value|)) &&
      AgreeUpToUnusedBits(Values(s[..k]), EncodeSextets(r.value))
  {
    var k := PadStart(s);
    if !AllAlphabet(s[..k]) || k % 4 == 1 then None
    else if k == |s| then
      EncodeDecodeSextets(Values(s[..k]));
      Some(DecodeSextets(Values(s[..k])))
    else if k % 4 == 0 then None
    else if k % 4 == 2 && s[k..] != "==" then None
    else if k % 4 == 3 && s[k..] != "=" then None
    else
      EncodeDecodeSextets(Values(s[..k]));
      PaddingOfDecoded(k);
      Some(DecodeSextets(Values(s[..k])))
  }

  /**
   * 2 to the number of bits of the last of n values that reach no byte:
   * 4 bits of the second value of a unit, 2 bits of the third, none of the fourth.
   */
  function UnusedModulus(n: nat): nat {
    if n % 4 == 2 then 16 else if n % 4 == 3 then 4 else 1
  }

  /** ws is vs with the bits of its last value that reach no byte cleared. */
  predicate AgreeUpToUnusedBits(vs: seq<sextet>, ws: seq<sextet>) {
    |vs| == |ws| &&
    (forall i :: 0 <= i < |vs| - 1 ==> vs[i] == ws[i]) &&
    (|vs| > 0 ==> ws[|vs| - 1] == vs[|vs| - 1] - vs[|vs| - 1] % UnusedModulus(|vs|))
  }

  /** The padding an encoding of the bytes ends in is the '=' count k values leave their unit short of. */
  lemma PaddingOfDecoded(k: nat)
    requires k % 4 == 2 || k % 4 == 3
    ensures Padding(k / 4 * 3 + k % 4 - 1) == if k % 4 == 2 then "==" else "="
  {
    ModThree(k / 4, k % 4 - 1);
  }

  lemma {:induction false} ModThree(q: nat, c: nat)
    requires c < 3
    ensures (q * 3 + c) % 3 == c
  {
    if q > 0 {
      ModThree(q - 1, c);
      assert q * 3 + c == (q - 1) * 3 + c + 3;
    }
  }

  lemma {:induction false} DecodeEncodeSextets(bytes: seq<byte>)
    ensures DecodeSextets(EncodeSextets(bytes)) == bytes
    decreases |bytes|
  {
    if |bytes| >= 3 {
      DecodeEncodeSextets(bytes[3..]);
      var vs := EncodeSextets(bytes);
      assert vs[4..] == EncodeSextets(bytes[3..]);
      var b0, b1, b2 := bytes[0], bytes[1], bytes[2];
      assert (b0 % 4 * 16 + b1 / 16) / 16 == b0 % 4;
      assert (b0 % 4 * 16 + b1 / 16) % 16 == b1 / 16;
      assert (b1 % 16 * 4 + b2 / 64) / 4 == b1 % 16;
      assert (b1 % 16 * 4 + b2 / 64) % 4 == b2 / 64;
      assert bytes == [b0, b1, b2] + bytes[3..];
    } else if |bytes| == 2 {
      var b0, b1 := bytes[0], bytes[1];
      assert (b0 % 4 * 16 + b1 / 16) / 16 == b0 % 4;
      assert (b0 % 4 * 16 + b1 / 16) % 16 == b1 / 16;
    } else if |bytes| == 1 {
      var b0 := bytes[0];
      assert (b0 % 4 * 16) / 16 == b0 % 4;
    }
  }

  /** Encoding decoded values gives them back, save the unused bits of the last one. */
  lemma {:induction false} EncodeDecodeSextets(vs: seq<sextet>)
    requires |vs| % 4 != 1
    ensures AgreeUpToUnusedBits(vs, EncodeSextets(DecodeSextets(vs)))
    decreases |vs|
  {
    if |vs| >= 4 {
      FullUnit(vs);
      EncodeDecodeSextets(vs[4..]);
      AgreeAfterUnit(vs, EncodeSextets(DecodeSextets(vs[4..])));
    } else if |vs| == 3 {
      LastUnitOfThree(vs[0], vs[1], vs[2]);
      assert vs == [vs[0], vs[1], vs[2]];
    } else if |vs| == 2 {
      LastUnitOfTwo(vs[0], vs[1]);
      assert vs == [vs[0], vs[1]];
    }
  }

  lemma AgreeAfterUnit(vs: seq<sextet>, tail: seq<sextet>)
    requires |vs| >= 4 && AgreeUpToUnusedBits(vs[4..], tail)
    ensures AgreeUpToUnusedBits(vs, vs[..4] + tail)
  {
    var ws := vs[..4] + tail;
    assert UnusedModulus(|vs|) == UnusedModulus(|vs| - 4);
    forall i | 0 <= i < |vs| - 1
      ensures vs[i] == ws[i]
    {
      if i >= 4 {
        assert vs[i] == vs[4..][i - 4];
        assert ws[i] == tail[i - 4];
      }
    }
    if |vs| > 4 {
      assert vs[|vs| - 1] == vs[4..][|vs| - 5];
      assert ws[|vs| - 1] == tail[|vs| - 5];
    }
  }

  lemma LastUnitOfThree(v0: sextet, v1: sextet, v2: sextet)
    ensures AgreeUpToUnusedBits([v0, v1, v2], EncodeSextets(DecodeSextets([v0, v1, v2])))
  {
    var b0, b1 := v0 * 4 + v1 / 16, v1 % 16 * 16 + v2 / 4;
    assert DecodeSextets([v0, v1, v2]) == [b0, b1];
    assert b0 / 4 == v0 && b0 % 4 == v1 / 16;
    assert b1 / 16 == v1 % 16 && b1 % 16 == v2 / 4;
    assert v2 / 4 * 4 == v2 - v2 % 4;
  }

  lemma LastUnitOfTwo(v0: sextet, v1: sextet)
    ensures AgreeUpToUnusedBits([v0, v1], EncodeSextets(DecodeSextets([v0, v1])))
  {
    var b0 := v0 * 4 + v1 / 16;
    assert DecodeSextets([v0, v1]) == [b0];
    assert b0 / 4 == v0 && b0 % 4 == v1 / 16;
    assert v1 / 16 * 16 == v1 - v1 % 16;
  }

  /** A full unit of four values decodes to three bytes that encode back to those four values. */
  lemma {:induction false} FullUnit(vs: seq<sextet>)
    requires |vs| >= 4 && |vs| % 4 != 1
    ensures EncodeSextets(DecodeSextets(vs)) == vs[..4] + EncodeSextets(DecodeSextets(vs[4..]))
  {
    var v: seq<int> := vs;
    var b0: byte := v[0] * 4 + v[1] / 16;
    var b1: byte := v[1] % 16 * 16 + v[2] / 4;
    var b2: byte := v[2] % 4 * 64 + v[3];
    var rest := DecodeSextets(vs[4..]);
    assert DecodeSextets(vs) == [b0, b1, b2] + rest;
    UnitValues(vs[0], vs[1], vs[2], vs[3]);
    var unit: seq<sextet> := [b0 / 4, b0 % 4 * 16 + b1 / 16, b1 % 16 * 4 + b2 / 64, b2 % 64];
    assert unit == vs[..4];
    EncodeUnit(b0, b1, b2, rest);
    calc {
      EncodeSextets(DecodeSextets(vs));
      EncodeSextets([b0, b1, b2] + rest);
      unit + EncodeSextets(rest);
    }
  }

  lemma EncodeUnit(b0: byte, b1: byte, b2: byte, rest: seq<byte>)
    ensures EncodeSextets([b0, b1, b2] + rest) ==
      [b0 / 4, b0 % 4 * 16 + b1 / 16, b1 % 16 * 4 + b2 / 64, b2 % 64] + EncodeSextets(rest)
  {
    assert ([b0, b1, b2] + rest)[3..] == rest;
  }

  lemma UnitValues(v0: sextet, v1: sextet, v2: sextet, v3: sextet)
    ensures var b0, b1, b2 := v0 * 4 + v1 / 16, v1 % 16 * 16 + v2 / 4, v2 % 4 * 64 + v3;
      b0 / 4 == v0 && b0 % 4 * 16 + b1 / 16 == v1 && b1 % 16 * 4 + b2 / 64 == v2 && b2 % 64 == v3
  {
    var b0, b1, b2 := v0 * 4 + v1 / 16, v1 % 16 * 16 + v2 / 4, v2 % 4 * 64 + v3;
    assert b0 / 4 == v0 && b0 % 4 == v1 / 16;
    assert b1 / 16 == v1 % 16 && b1 % 16 == v2 / 4;
    assert b2 / 64 == v2 % 4 && b2 % 64 == v3;
  }

  lemma ValuesOfChars(vs: seq<sextet>)
    ensures Values(Chars(vs)) == vs
  {
  }

  /** A padded encoding decodes to the bytes it came from (section 4 of RFC 4648). */
  lemma RoundTrip(bytes: seq<byte>)
    ensures Decode(Encode(bytes)) == Some(bytes)
  {
    var body := Chars(EncodeSextets(bytes));
    var s := Encode(bytes);
    assert s[..|body|] == body;
    PadStartAt(s, |body|);
    ValuesOfChars(EncodeSextets(bytes));
    DecodeEncodeSextets(bytes);
    assert s[|body|..] == Padding(|bytes|);
  }

  /** The decoder accepts the same encoding with its padding left off. */
  lemma RoundTripUnpadded(bytes: seq<byte>)
    ensures Decode(Chars(EncodeSextets(bytes))) == Some(bytes)
  {
    var s := Chars(EncodeSextets(bytes));
    PadStartAt(s, |s|);
    assert s[..|s|] == s;
    ValuesOfChars(EncodeSextets(bytes));
    DecodeEncodeSextets(bytes);
  }

  lemma {:induction false} PadStartAt(s: string, k: nat)
    requires k <= |s| && AllAlphabet(s[..k]) && (k < |s| ==> s[k] == Pad)
    ensures PadStart(s) == k
  {
    if k > 0 {
      assert s[0] == s[..k][0];
      assert s[1..][..k - 1] == s[..k][1..];
      PadStartAt(s[1..], k - 1);
    }
  }

  /** A '=' that opens a unit is malformed, whatever follows it. */
  lemma PadOpeningUnitRejected(data: string, rest: string)
    requires AllAlphabet(data) && |data| % 4 == 0
    ensures Decode(data + [Pad] + rest) == None
  {
    var s := data + [Pad] + rest;
    assert s[..|data|] == data;
    PadStartAt(s, |data|);
  }

  /** In particular a token may not open with '='. */
  lemma LeadingPadRejected(rest: string)
    ensures Decode("=" + rest) == None
  {
    assert "" + [Pad] + rest == "=" + rest;
    PadOpeningUnitRejected("", rest);
  }

  /** Nothing may follow complete padding. */
  lemma TrailingAfterPaddingRejected(bytes: seq<byte>, extra: string)
    requires |bytes| % 3 != 0 && extra != []
    ensures Decode(Encode(bytes) + extra) == None
  {
    var body := Chars(EncodeSextets(bytes));
    var s := Encode(bytes) + extra;
    assert s[..|body|] == body;
    PadStartAt(s, |body|);
    assert s[|body|..] == Padding(|bytes|) + extra;
  }

  /**
   * The converse direction of Decode's contract: any values whose count
   * leaves no single character in the last unit decode, unpadded or with
   * complete padding, whatever their unused bits hold.
   */
  lemma {:induction false} DecodeAcceptsValues(vs: seq<sextet>, padded: bool)
    requires |vs| % 4 != 1
    ensures var bytes := DecodeSextets(vs);
      Decode(Chars(vs) + (if padded then Padding(|bytes|) else "")) == Some(bytes)
  {
    var bytes := DecodeSextets(vs);
    var body := Chars(vs);
    var pad := if padded then Padding(|bytes|) else "";
    var s := body + pad;
    ValuesOfChars(vs);
    assert s[..|body|] == body;
    assert s[|body|..] == pad;
    if |vs| % 4 == 0 {
      ModThree(|vs| / 4, 0);
      assert |bytes| == |vs| / 4 * 3 + 0;
      assert pad == "";
    } else if padded {
      PaddingOfDecoded(|vs|);
      assert s[|body|] == Pad;
    }
    PadStartAt(s, |body|);
    assert PadStart(s) == |body|;
  }

  /** A single character left in the last unit is an error, padded or not: "AAAAA" and "A=" are refused. */
  lemma LoneCharacterRejected(data: string, rest: string)
    requires AllAlphabet(data) && |data| % 4 == 1
    requires rest == "" || rest[0] == Pad
    ensures Decode(data + rest) == None
  {
    var s := data + rest;
    assert s[..|data|] == data;
    if rest != "" {
      assert s[|data|] == rest[0];
    }
    PadStartAt(s, |data|);
  }

  /** Incomplete padding is an error: two values need "==", so "AA=" is refused. */
  lemma IncompletePaddingRejected(data: string)
    requires AllAlphabet(data) && |data| % 4 == 2
    ensures Decode(data + "=") == None
  {
    var s := data + "=";
    assert s[..|data|] == data;
    PadStartAt(s, |data|);
    assert s[|data|..] == "=";
  }

  /** Only the empty token decodes to no bytes. */
  lemma EmptyOnlyFromEmpty(s: string)
    requires Decode(s) == Some([])
    ensures s == ""
  {
  }
}
