/** The URL-token text layer of src/game/Game.tsx: `data2urlsafe` turns bytes
    into base64 written in the URL- and filename-safe alphabet of
    section 5 of RFC 4648, without the '=' padding (section 3.2 of RFC 4648),
    and `urlsafe2data` turns such a token back into bytes. The browser's
    `btoa` is modelled as the base64 encoding of section 4 of RFC 4648, and
    `atob` as the forgiving-base64 decode of the WHATWG Infra Standard. */
module Codec {
  import opened Wrappers

  type byte = bv8

  /** The character of a 6-bit value in the base64 alphabet of
      section 4 of RFC 4648 (table 1): A-Z, a-z, 0-9, '+', '/'. */
  function CharOf(v: byte): (c: char)
    requires v < 64
    ensures c != '=' && c != '-' && c != '_'
  {
    if v < 26 then ('A' as int + v as int) as char
    else if v < 52 then ('a' as int + (v as int - 26)) as char
    else if v < 62 then ('0' as int + (v as int - 52)) as char
    else if v == 62 then '+'
    else '/'
  }

  /** The 6-bit value of a character of the base64 alphabet, if it is one. */
  function ValueOf(c: char): (r: Option<byte>)
    ensures r.Some? ==> r.value < 64
  {
    if 'A' <= c <= 'Z' then Some((c as int - 'A' as int) as byte)
    else if 'a' <= c <= 'z' then Some((c as int - 'a' as int + 26) as byte)
    else if '0' <= c <= '9' then Some((c as int - '0' as int + 52) as byte)
    else if c == '+' then Some(62)
    else if c == '/' then Some(63)
    else None
  }

  /** Every character of the alphabet reads back as its value. */
  lemma ValueOfCharOf(v: byte)
    requires v < 64
    ensures ValueOf(CharOf(v)) == Some(v)
  {
    ByteOfInt(v);
    if v < 26 {
      ValueOfLetter(v, 'A', 0);
    } else if v < 52 {
      ValueOfLetter(v, 'a', 26);
    } else if v < 62 {
      ValueOfLetter(v, '0', 52);
    }
  }

  /** The characters of one range of the alphabet read back as their values. */
  lemma ValueOfLetter(v: byte, first: char, base: int)
    requires (v as int) as byte == v
    requires first in {'A', 'a', '0'} && base == if first == 'A' then 0 else if first == 'a' then 26 else 52
    requires base <= v as int < base + (if first == '0' then 10 else 26)
    ensures ValueOf((first as int + (v as int - base)) as char) == Some(v)
  {
    var n := v as int;
    var c := (first as int + (n - base)) as char;
    assert c as int - first as int + base == n;
  }

  lemma ByteOfInt(v: byte)
    ensures (v as int) as byte == v
  {
  }

  predicate InAlphabet(s: string) {
    forall i :: 0 <= i < |s| ==> ValueOf(s[i]).Some?
  }

  function Val(c: char): (v: byte)
    requires ValueOf(c).Some?
    ensures v < 64
  {
    ValueOf(c).value
  }

  /** The six-bit values of a group of three bytes, most significant first. */
  function Sextets(b0: byte, b1: byte, b2: byte): (r: seq<byte>)
    ensures |r| == 4 && forall i :: 0 <= i < 4 ==> r[i] < 64
  {
    [b0 >> 2, ((b0 & 3) << 4) | (b1 >> 4), ((b1 & 15) << 2) | (b2 >> 6), b2 & 63]
  }

  /** The four characters of a group of three bytes. */
  function Quad(b0: byte, b1: byte, b2: byte): (r: string)
    ensures |r| == 4 && InAlphabet(r)
  {
    var v := Sextets(b0, b1, b2);
    ValueOfCharOf(v[0]);
    ValueOfCharOf(v[1]);
    ValueOfCharOf(v[2]);
    ValueOfCharOf(v[3]);
    [CharOf(v[0]), CharOf(v[1]), CharOf(v[2]), CharOf(v[3])]
  }

  /** The number of characters n bytes encode to, before padding. */
  function BodyLength(n: nat): nat {
    if n == 0 then 0 else if n == 1 then 2 else if n == 2 then 3 else 4 + BodyLength(n - 3)
  }

  /** Four characters per full group of three bytes, and one more character
      than there are bytes in a final partial group. */
  lemma {:induction false} BodyLengthMod(n: nat)
    ensures BodyLength(n) % 4 == (if n % 3 == 0 then 0 else n % 3 + 1)
  {
    if n >= 3 {
      BodyLengthMod(n - 3);
    }
  }

  /** The characters of the encoding without the padding: three bytes give
      four characters; a final single byte gives two, a final pair three
      (the group is completed with zero bits, as section 4 of RFC 4648 prescribes). */
  function EncodeBody(b: seq<byte>): (r: string)
    ensures |r| == BodyLength(|b|)
    ensures InAlphabet(r)
    decreases |b|
  {
    if |b| == 0 then ""
    else if |b| == 1 then InAlphabetPrefix(Quad(b[0], 0, 0), 2); Quad(b[0], 0, 0)[..2]
    else if |b| == 2 then InAlphabetPrefix(Quad(b[0], b[1], 0), 3); Quad(b[0], b[1], 0)[..3]
    else
      var q, rest := Quad(b[0], b[1], b[2]), EncodeBody(b[3..]);
      InAlphabetConcat(q, rest);
      q + rest
  }

  lemma InAlphabetPrefix(s: string, k: nat)
    requires InAlphabet(s) && k <= |s|
    ensures InAlphabet(s[..k])
  {
    assert forall i :: 0 <= i < k ==> s[..k][i] == s[i];
  }

  lemma InAlphabetConcat(s: string, t: string)
    requires InAlphabet(s) && InAlphabet(t)
    ensures InAlphabet(s + t)
  {
    assert forall i :: |s| <= i < |s + t| ==> (s + t)[i] == t[i - |s|];
  }

  /** The '=' characters that complete the final quantum (section 3.2 of RFC 4648). */
  function Padding(n: int): (r: string)
    ensures forall i :: 0 <= i < |r| ==> r[i] == '='
  {
    if n % 3 == 1 then "==" else if n % 3 == 2 then "=" else ""
  }

  /** The base64 encoding of section 4 of RFC 4648 (`btoa`). */
  function Encode(b: seq<byte>): (r: string)
    ensures |r| % 4 == 0
  {
    PaddingIsEquals(|b|);
    EncodeBody(b) + Padding(|b|)
  }

  /** The three bytes of four six-bit values. */
  function Triple(v0: byte, v1: byte, v2: byte, v3: byte): (r: seq<byte>)
    ensures |r| == 3
  {
    [(v0 << 2) | (v1 >> 4), ((v1 & 15) << 4) | (v2 >> 2), ((v2 & 3) << 6) | v3]
  }

  /** Decoding characters of the alphabet whose count is not 1 more than a
      multiple of 4: a final pair of characters gives one byte, a final
      triple two; the bits left over are dropped. */
  function DecodeBody(s: string): (r: seq<byte>)
    requires InAlphabet(s) && |s| % 4 != 1
    decreases |s|
  {
    if |s| == 0 then []
    else if |s| == 2 then Triple(Val(s[0]), Val(s[1]), 0, 0)[..1]
    else if |s| == 3 then Triple(Val(s[0]), Val(s[1]), Val(s[2]), 0)[..2]
    else Triple(Val(s[0]), Val(s[1]), Val(s[2]), Val(s[3])) + DecodeBody(s[4..])
  }

  /** The forgiving-base64 decode (`atob`), on input without white space:
      with a length that is a multiple of 4, one or two final '=' are
      dropped; then a length 1 more than a multiple of 4, or a character
      outside the alphabet, is an error (the DOMException `atob` throws). */
  function Atob(s: string): (r: Result<seq<byte>>)
    ensures r.Failure? ==> r.error == "InvalidCharacterError"
    ensures r.Success? ==> InAlphabet(DropFinalPadding(s))
  {
    var t := DropFinalPadding(s);
    if |t| % 4 == 1 then Failure("InvalidCharacterError")
    else if !InAlphabet(t) then Failure("InvalidCharacterError")
    else Success(DecodeBody(t))
  }

  /** The first steps of the forgiving-base64 decode: with a length that is
      a multiple of 4, one or two final '=' are dropped. */
  function DropFinalPadding(s: string): (t: string)
    ensures |s| - 2 <= |t| <= |s| && t == s[..|t|]
  {
    if |s| % 4 == 0 && |s| >= 2 && s[|s| - 2..] == "==" then s[..|s| - 2]
    else if |s| % 4 == 0 && |s| >= 1 && s[|s| - 1] == '=' then s[..|s| - 1]
    else s
  }

  /** The four characters of three bytes decode back to them, and the first
      two or three characters of a final partial group to its one or two bytes. */
  lemma QuadDecodes(b0: byte, b1: byte, b2: byte)
    ensures var q := Quad(b0, b1, b2);
            Triple(Val(q[0]), Val(q[1]), Val(q[2]), Val(q[3])) == [b0, b1, b2]
    ensures b1 == 0 && b2 == 0 ==> var q := Quad(b0, b1, b2);
            Triple(Val(q[0]), Val(q[1]), 0, 0)[..1] == [b0]
    ensures b2 == 0 ==> var q := Quad(b0, b1, b2);
            Triple(Val(q[0]), Val(q[1]), Val(q[2]), 0)[..2] == [b0, b1]
  {
    var v := Sextets(b0, b1, b2);
    ValueOfCharOf(v[0]);
    ValueOfCharOf(v[1]);
    ValueOfCharOf(v[2]);
    ValueOfCharOf(v[3]);
    TripleSextets(b0, b1, b2);
  }

  /** The bits of three bytes come back from their six-bit values. */
  lemma TripleSextets(b0: byte, b1: byte, b2: byte)
    ensures var v := Sextets(b0, b1, b2); Triple(v[0], v[1], v[2], v[3]) == [b0, b1, b2]
    ensures Triple(Sextets(b0, 0, 0)[0], Sextets(b0, 0, 0)[1], 0, 0)[..1] == [b0]
    ensures Triple(Sextets(b0, b1, 0)[0], Sextets(b0, b1, 0)[1], Sextets(b0, b1, 0)[2], 0)[..2] == [b0, b1]
  {
  }

  /** The characters of the encoding, without padding, decode to the bytes. */
  lemma {:induction false} DecodeEncodeBody(b: seq<byte>)
    ensures |EncodeBody(b)| % 4 != 1
    ensures DecodeBody(EncodeBody(b)) == b
    decreases |b|
  {
    BodyLengthMod(|b|);
    if |b| == 1 {
      DecodeFinalGroup(b[0], 0, 2);
    } else if |b| == 2 {
      DecodeFinalGroup(b[0], b[1], 3);
    } else if |b| >= 3 {
      SplitGroup(b);
      var q, rest := Quad(b[0], b[1], b[2]), EncodeBody(b[3..]);
      assert EncodeBody(b) == q + rest;
      DecodeEncodeBody(b[3..]);
      DecodeGroup(q, rest);
      QuadDecodes(b[0], b[1], b[2]);
    }
  }

  lemma SplitGroup(b: seq<byte>)
    requires |b| >= 3
    ensures b == [b[0], b[1], b[2]] + b[3..]
  {
    assert b[..3] == [b[0], b[1], b[2]];
    assert b == b[..3] + b[3..];
  }

  /** A leading group of four characters decodes to three bytes ahead of the rest. */
  lemma DecodeGroup(q: string, rest: string)
    requires |q| == 4 && InAlphabet(q) && InAlphabet(rest) && |rest| % 4 != 1
    ensures InAlphabet(q + rest)
    ensures DecodeBody(q + rest) == Triple(Val(q[0]), Val(q[1]), Val(q[2]), Val(q[3])) + DecodeBody(rest)
  {
    InAlphabetConcat(q, rest);
    var s := q + rest;
    assert s[4..] == rest;
    assert s[0] == q[0] && s[1] == q[1] && s[2] == q[2] && s[3] == q[3];
  }

  /** A final group of one byte (two characters) or two bytes (three characters) decodes back. */
  lemma DecodeFinalGroup(b0: byte, b1: byte, k: nat)
    requires k == 2 || k == 3
    requires k == 2 ==> b1 == 0
    ensures InAlphabet(Quad(b0, b1, 0)[..k])
    ensures DecodeBody(Quad(b0, b1, 0)[..k]) == (if k == 2 then [b0] else [b0, b1])
  {
    var q := Quad(b0, b1, 0);
    InAlphabetPrefix(q, k);
    QuadDecodes(b0, b1, 0);
    assert q[..k][0] == q[0] && q[..k][1] == q[1];
    if k == 3 {
      assert q[..k][2] == q[2];
    }
  }

  /** `atob(btoa(x))` gives back x (section 4 of RFC 4648 is a bijection onto its image). */
  lemma AtobEncode(b: seq<byte>)
    ensures Atob(Encode(b)) == Success(b)
  {
    DecodeEncodeBody(b);
    EncodePaddingDropped(b);
  }

  /** The decoder drops exactly the padding the encoder added. */
  lemma EncodePaddingDropped(b: seq<byte>)
    ensures DropFinalPadding(Encode(b)) == EncodeBody(b)
  {
    var body := EncodeBody(b);
    assert Encode(b) == body + Padding(|b|);
    if |b| > 0 {
      assert |body| > 0;
      assert ValueOf(body[|body| - 1]).Some?;
    }
    DropPaddingOf(body, Padding(|b|));
  }

  /** Dropping the final padding of a string that ends in a character other
      than '=' followed by at most two '=' leaves that string. */
  lemma DropPaddingOf(body: string, pad: string)
    requires |body + pad| % 4 == 0 && |pad| <= 2
    requires forall i :: 0 <= i < |pad| ==> pad[i] == '='
    requires |body| > 0 ==> body[|body| - 1] != '='
    requires |pad| > 0 ==> |body| > 0
    ensures DropFinalPadding(body + pad) == body
  {
    var s := body + pad;
    if |pad| == 2 {
      assert s[|s| - 2..] == pad == "==";
      assert s[..|s| - 2] == body;
    } else if |pad| == 1 {
      assert s[|s| - 2] == body[|body| - 1];
      assert s[..|s| - 1] == body;
    } else {
      assert s == body;
    }
  }

  /** The translation of `data2urlsafe`: '+' becomes '-', '/' becomes '_'. */
  function ToUrlAlphabet(s: string): (r: string)
    ensures |r| == |s|
    ensures forall i :: 0 <= i < |s| ==> r[i] != '+' && r[i] != '/'
  {
    seq(|s|, i requires 0 <= i < |s| => if s[i] == '+' then '-' else if s[i] == '/' then '_' else s[i])
  }

  /** The translation of `urlsafe2data`: '-' becomes '+', '_' becomes '/'. */
  function FromUrlAlphabet(s: string): (r: string)
    ensures |r| == |s|
    ensures forall i :: 0 <= i < |s| ==> r[i] != '-' && r[i] != '_'
  {
    seq(|s|, i requires 0 <= i < |s| => if s[i] == '-' then '+' else if s[i] == '_' then '/' else s[i])
  }

  /** Undoing the translation gives back any string without '-' and '_'. */
  lemma FromToUrlAlphabet(s: string)
    requires forall i :: 0 <= i < |s| ==> s[i] != '-' && s[i] != '_'
    ensures FromUrlAlphabet(ToUrlAlphabet(s)) == s
  {
  }

  /** The base64 alphabet holds neither '-' nor '_'. */
  lemma AlphabetHasNoUrlCharacters(s: string)
    requires InAlphabet(s)
    ensures forall i :: 0 <= i < |s| ==> s[i] != '-' && s[i] != '_'
  {
    forall i | 0 <= i < |s|
      ensures s[i] != '-' && s[i] != '_'
    {
      assert ValueOf(s[i]).Some?;
    }
  }

  /** `.replace(/=+$/, '')`: the run of '=' at the end is dropped. */
  function StripPadding(s: string): (r: string)
    ensures |r| <= |s| && r == s[..|r|]
    ensures |r| > 0 ==> r[|r| - 1] != '='
    ensures forall i :: |r| <= i < |s| ==> s[i] == '='
    decreases |s|
  {
    if |s| > 0 && s[|s| - 1] == '=' then StripPadding(s[..|s| - 1]) else s
  }

  /** data2urlsafe (with `String.fromCharCode(...bytes)` and `btoa` read as
      the base64 encoding of the bytes). */
  function Data2UrlSafe(bytes: seq<byte>): (token: string)
    ensures |token| <= |Encode(bytes)| && token == ToUrlAlphabet(Encode(bytes))[..|token|]
  {
    StripPadding(ToUrlAlphabet(Encode(bytes)))
  }

  /** The token holds no '+', '/' or '=': nothing in it needs escaping in a URL. */
  lemma UrlSafeCharacters(bytes: seq<byte>)
    ensures var r := Data2UrlSafe(bytes);
            forall i :: 0 <= i < |r| ==> r[i] != '+' && r[i] != '/' && r[i] != '='
  {
    var e := ToUrlAlphabet(Encode(bytes));
    var r := StripPadding(e);
    forall i | 0 <= i < |r|
      ensures r[i] != '='
    {
      EncodeBodyNoPad(bytes, i);
    }
  }

  /** The encoding has no '=' before its padding, and its padding follows a
      character of the alphabet. */
  lemma EncodeBodyNoPad(bytes: seq<byte>, i: int)
    requires 0 <= i < |StripPadding(ToUrlAlphabet(Encode(bytes)))|
    ensures StripPadding(ToUrlAlphabet(Encode(bytes)))[i] != '='
  {
    var body := EncodeBody(bytes);
    var e := ToUrlAlphabet(Encode(bytes));
    var r := StripPadding(e);
    if i < |body| {
      assert e[i] == r[i];
      assert ValueOf(body[i]).Some?;
    }
  }

  /** A run of k '=' characters. */
  function Equals(k: nat): (r: string)
    ensures |r| == k && forall i :: 0 <= i < k ==> r[i] == '='
  {
    seq(k, _ => '=')
  }

  /** How many '=' bring a length of n up to a multiple of 4. */
  function PadCount(n: nat): (k: nat)
    ensures k < 4 && (n + k) % 4 == 0
  {
    (4 - n % 4) % 4
  }

  /** No shorter run of '=' would do. */
  lemma PadCountLeast(n: nat, j: nat)
    requires j < PadCount(n)
    ensures (n + j) % 4 != 0
  {
  }

  /** The padding `urlsafe2data` adds back: '=' until the length is a multiple of 4. */
  function Repad(s: string): (r: string)
    ensures |r| % 4 == 0 && |s| <= |r| < |s| + 4 && r[..|s|] == s
    ensures forall i :: |s| <= i < |r| ==> r[i] == '='
  {
    s + Equals(PadCount(|s|))
  }

  /** The decoding `urlsafe2data` performs, as one function: translate back,
      re-pad, decode. */
  function UrlSafeDecode(token: string): (r: Result<seq<byte>>)
    ensures r.Failure? ==> r.error == "InvalidCharacterError"
  {
    Atob(Repad(FromUrlAlphabet(token)))
  }

  /** urlsafe2data: translate back, pad with a loop, decode with atob and
      copy the decoded bytes one by one into a fresh byte array. */
  method UrlSafe2Data(token: string) returns (r: Result<seq<byte>>)
    ensures r == UrlSafeDecode(token)
  {
    var s := FromUrlAlphabet(token);
    var padded := PadToQuantum(s);
    var binary := Atob(padded);
    assert binary == UrlSafeDecode(token);
    if binary.Failure? {
      return Failure(binary.error);
    }
    var bin := binary.value;
    var bytes := new byte[|bin|];
    for i := 0 to |bin|
      invariant bytes[..i] == bin[..i]
    {
      bytes[i] := bin[i];
    }
    assert bytes[..] == bytes[..|bin|] && bin[..|bin|] == bin;
    r := Success(bytes[..]);
  }

  /** The padding loop of urlsafe2data: '=' is appended while the length is
      not a multiple of 4. */
  method PadToQuantum(s: string) returns (padded: string)
    ensures padded == Repad(s)
  {
    padded := s;
    ghost var k := 0;
    while |padded| % 4 != 0
      invariant k <= PadCount(|s|) && padded == s + Equals(k)
      decreases PadCount(|s|) - k
    {
      if k == PadCount(|s|) {
        assert false;
      }
      padded := padded + "=";
      assert padded == s + Equals(k + 1);
      k := k + 1;
    }
    if k < PadCount(|s|) {
      PadCountLeast(|s|, k);
    }
  }

  /** The translation goes character by character, and leaves '=' alone. */
  lemma ToUrlAlphabetPad(body: string, k: nat)
    ensures ToUrlAlphabet(body + Equals(k)) == ToUrlAlphabet(body) + Equals(k)
  {
  }

  /** Stripping the '=' run from a string that does not end in '=' and is followed by '='s. */
  lemma {:induction false} StripPaddingOf(x: string, k: nat)
    requires |x| > 0 ==> x[|x| - 1] != '='
    ensures StripPadding(x + Equals(k)) == x
  {
    if k > 0 {
      assert (x + Equals(k))[..|x| + k - 1] == x + Equals(k - 1);
      StripPaddingOf(x, k - 1);
    } else {
      assert x + Equals(k) == x;
    }
  }

  /** Stripping the padding of the translated encoding leaves the translated body. */
  lemma StripToBody(bytes: seq<byte>)
    ensures Data2UrlSafe(bytes) == ToUrlAlphabet(EncodeBody(bytes))
  {
    var body := EncodeBody(bytes);
    var pad := Padding(|bytes|);
    assert pad == Equals(|pad|);
    ToUrlAlphabetPad(body, |pad|);
    var tb := ToUrlAlphabet(body);
    if |tb| > 0 {
      assert ValueOf(body[|body| - 1]).Some?;
    }
    StripPaddingOf(tb, |pad|);
  }

  /** Decoding a token made from bytes gives back the bytes. */
  lemma RoundTrip(bytes: seq<byte>)
    ensures UrlSafeDecode(Data2UrlSafe(bytes)) == Success(bytes)
  {
    var body := EncodeBody(bytes);
    StripToBody(bytes);
    AlphabetHasNoUrlCharacters(body);
    FromToUrlAlphabet(body);
    assert FromUrlAlphabet(Data2UrlSafe(bytes)) == body;
    RepadBody(bytes);
    AtobEncode(bytes);
  }

  /** Re-padding the body of an encoding restores the padding it had. */
  lemma RepadBody(bytes: seq<byte>)
    ensures Repad(EncodeBody(bytes)) == Encode(bytes)
  {
    PaddingIsEquals(|bytes|);
  }

  /** The padding of n bytes is the run of '=' that completes the body's last quantum. */
  lemma PaddingIsEquals(n: nat)
    ensures Padding(n) == Equals(PadCount(BodyLength(n)))
  {
    BodyLengthMod(n);
    var m := BodyLength(n);
    if n % 3 == 0 {
      PadCountOf(m, 0);
    } else if n % 3 == 1 {
      PadCountOf(m, 2);
    } else {
      PadCountOf(m, 3);
    }
  }

  /** The padding count depends only on the remainder modulo 4. */
  lemma PadCountOf(n: nat, r: nat)
    requires n % 4 == r
    ensures PadCount(n) == (4 - r) % 4
  {
  }

  /** The groups of the test vectors of section 10 of RFC 4648: "foo",
      "bar", and the final partial groups "f", "fo", "b", "ba". */
  lemma TestVectorGroups()
    ensures Quad(102, 111, 111) == "Zm9v" && Quad(98, 97, 114) == "YmFy"
    ensures Quad(102, 0, 0)[..2] == "Zg" && Quad(102, 111, 0)[..3] == "Zm8"
    ensures Quad(98, 0, 0)[..2] == "Yg" && Quad(98, 97, 0)[..3] == "YmE"
  {
    assert Sextets(102, 111, 111) == [25, 38, 61, 47];
    assert Sextets(98, 97, 114) == [24, 38, 5, 50];
    assert Sextets(102, 0, 0) == [25, 32, 0, 0];
    assert Sextets(102, 111, 0) == [25, 38, 60, 0];
    assert Sextets(98, 0, 0) == [24, 32, 0, 0];
    assert Sextets(98, 97, 0) == [24, 38, 4, 0];
  }

  /** The test vectors of section 10 of RFC 4648 for "", "f", "fo" and "foo" (ASCII). */
  lemma EncodeTestVectorsShort()
    ensures Encode([]) == ""
    ensures Encode([102]) == "Zg=="
    ensures Encode([102, 111]) == "Zm8="
    ensures Encode([102, 111, 111]) == "Zm9v"
  {
    TestVectorGroups();
    assert EncodeBody([102, 111, 111]) == Quad(102, 111, 111) + EncodeBody([]);
  }

  /** The test vectors of section 10 of RFC 4648 for "foob", "fooba" and "foobar" (ASCII). */
  lemma EncodeTestVectorsLong()
    ensures Encode([102, 111, 111, 98]) == "Zm9vYg=="
    ensures Encode([102, 111, 111, 98, 97]) == "Zm9vYmE="
    ensures Encode([102, 111, 111, 98, 97, 114]) == "Zm9vYmFy"
  {
    TestVectorGroups();
    assert [102, 111, 111, 98][3..] == [98 as byte];
    assert [102, 111, 111, 98, 97][3..] == [98 as byte, 97];
    assert [102, 111, 111, 98, 97, 114][3..] == [98 as byte, 97, 114];
    assert EncodeBody([98, 97, 114]) == Quad(98, 97, 114) + EncodeBody([]);
  }

  /** Bytes whose base64 form uses '+' and '/' ("+/8="): the token carries
      '-' and '_' instead and drops the padding. */
  lemma Data2UrlSafeTestVector()
    ensures Data2UrlSafe([0xfb, 0xff]) == "-_8"
  {
    assert Sextets(0xfb, 0xff, 0) == [62, 63, 60, 0];
    assert Encode([0xfb, 0xff]) == "+/8=";
    assert ToUrlAlphabet("+/8=") == "-_8=";
    assert StripPadding("-_8=") == StripPadding("-_8") == "-_8";
  }

  /** That token decodes back to the two bytes. */
  lemma UrlSafeDecodeTestVector()
    ensures UrlSafeDecode("-_8") == Success([0xfb, 0xff])
  {
    assert FromUrlAlphabet("-_8") == "+/8";
    assert Repad("+/8") == "+/8=";
    assert DropFinalPadding("+/8=") == "+/8";
    assert ValueOf('+') == Some(62) && ValueOf('/') == Some(63) && ValueOf('8') == Some(60);
    assert InAlphabet("+/8");
    assert Triple(62, 63, 60, 0) == [0xfb, 0xff, 0];
    assert DecodeBody("+/8") == [0xfb, 0xff];
  }
}
