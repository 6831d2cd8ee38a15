/** Decoding of a JWK component: trailing `=` padding is trimmed, and what remains is
    decoded as unpadded base64url (section 5 of RFC 4648) by a non-strict decoder of the
    kind Go's `base64.RawURLEncoding.DecodeString` is:
    - the alphabet is `A`-`Z`, `a`-`z`, `0`-`9`, `-`, `_`, worth 0 to 63 in that order;
    - carriage returns and line feeds are skipped wherever they occur;
    - any other character (the standard alphabet's `+` and `/`, and `=` itself) is an
      error at its offset;
    - a final group of one data character is an error at the last offset of the input;
    - the unused low bits of a final group of two or three characters are ignored.
    Offsets are character indices. The first invalid character comes before any
    non-ASCII one (a non-ASCII character is itself invalid), so they equal byte offsets. */
module Base64Url {
  import opened Wrappers
  import opened Errors
  import opened Bytes

  type sextet = v: int | 0 <= v < 64

  const Pad: char := '='

  predicate IsAlphabetChar(c: char) {
    ('A' <= c <= 'Z') || ('a' <= c <= 'z') || ('0' <= c <= '9') || c == '-' || c == '_'
  }

  /** Characters the decoder skips without looking at them. */
  predicate IsLineBreak(c: char) {
    c == '\r' || c == '\n'
  }

  /** Characters the decoder does not reject. */
  predicate IsAccepted(c: char) {
    IsAlphabetChar(c) || IsLineBreak(c)
  }

  predicate AllAlphabet(s: string) {
    forall i :: 0 <= i < |s| ==> IsAlphabetChar(s[i])
  }

  predicate NoLineBreaks(s: string) {
    forall i :: 0 <= i < |s| ==> !IsLineBreak(s[i])
  }

  /** The value of one alphabet character. */
  function SextetOf(c: char): (v: sextet)
    requires IsAlphabetChar(c)
  {
    if 'A' <= c <= 'Z' then c as int - 'A' as int
    else if 'a' <= c <= 'z' then c as int - 'a' as int + 26
    else if '0' <= c <= '9' then c as int - '0' as int + 52
    else if c == '-' then 62
    else 63
  }

  /** The alphabet character of a value: the inverse of `SextetOf`. */
  function CharOf(v: sextet): (c: char)
    ensures IsAlphabetChar(c) && SextetOf(c) == v
  {
    if v < 26 then (v + 'A' as int) as char
    else if v < 52 then (v - 26 + 'a' as int) as char
    else if v < 62 then (v - 52 + '0' as int) as char
    else if v == 62 then '-'
    else '_'
  }

  /** `SextetOf` and `CharOf` are inverse: each alphabet character has its own value. */
  lemma CharOfSextetOf(c: char)
    requires IsAlphabetChar(c)
    ensures CharOf(SextetOf(c)) == c
  {
  }

  /** `Pad` repeated `k` times. */
  function Padding(k: nat): (p: string)
    ensures |p| == k
    ensures forall i :: 0 <= i < k ==> p[i] == Pad
  {
    seq(k, _ => Pad)
  }

  /** `strings.TrimRight(component, "=")`: the longest prefix that does not end in `=`,
      all of whose dropped characters are `=`. */
  function TrimPadding(s: string): (r: string)
    ensures r <= s
    ensures |r| > 0 ==> r[|r| - 1] != Pad
    ensures forall i :: |r| <= i < |s| ==> s[i] == Pad
    decreases |s|
  {
    if |s| > 0 && s[|s| - 1] == Pad then TrimPadding(s[..|s| - 1]) else s
  }

  /** The offset of the first character the decoder rejects, if any. */
  function FirstInvalid(s: string): (r: Option<nat>)
    ensures r.Some? ==> r.value < |s| && !IsAccepted(s[r.value])
    ensures r.Some? ==> forall i :: 0 <= i < r.value ==> IsAccepted(s[i])
    ensures r.None? <==> forall i :: 0 <= i < |s| ==> IsAccepted(s[i])
    decreases |s|
  {
    if |s| == 0 then None
    else if !IsAccepted(s[0]) then Some(0)
    else match FirstInvalid(s[1..])
      case None => None
      case Some(i) => Some(i + 1)
  }

  /** The data characters of `s`, in order: everything except line breaks. */
  function DataChars(s: string): (d: string)
    ensures |d| <= |s|
    ensures NoLineBreaks(s) ==> d == s
    ensures (forall i :: 0 <= i < |s| ==> IsAccepted(s[i])) ==> AllAlphabet(d)
    decreases |s|
  {
    if |s| == 0 then []
    else if IsLineBreak(s[0]) then DataChars(s[1..])
    else [s[0]] + DataChars(s[1..])
  }

  /** The data characters of a concatenation are those of its parts. */
  lemma {:induction false} DataCharsAppend(a: string, b: string)
    ensures DataChars(a + b) == DataChars(a) + DataChars(b)
    decreases |a|
  {
    if |a| > 0 {
      assert (a + b)[1..] == a[1..] + b;
      DataCharsAppend(a[1..], b);
    } else {
      assert a + b == b;
    }
  }

  /** A line break anywhere is skipped, and every other character is kept in place. */
  lemma DataCharsSkipsLineBreaks(a: string, c: char, b: string)
    ensures IsLineBreak(c) ==> DataChars(a + [c] + b) == DataChars(a + b)
    ensures !IsLineBreak(c) ==> DataChars(a + [c] + b) == DataChars(a) + [c] + DataChars(b)
  {
    DataCharsAppend(a + [c], b);
    DataCharsAppend(a, [c]);
    DataCharsAppend(a, b);
    assert [c][1..] == [];
    assert DataChars([c]) == if IsLineBreak(c) then [] else [c];
  }

  /** One group of two, three or four data characters: the 6-bit values are joined most
      significant first and cut into whole bytes; leftover low bits are dropped. */
  function DecodeGroup(g: string): (b: seq<byte>)
    requires 2 <= |g| <= 4 && AllAlphabet(g)
    ensures |b| == |g| - 1
  {
    var v0, v1 := SextetOf(g[0]), SextetOf(g[1]);
    var b0 := v0 * 4 + v1 / 16;
    if |g| == 2 then [b0]
    else
      var v2 := SextetOf(g[2]);
      var b1 := (v1 % 16) * 16 + v2 / 4;
      if |g| == 3 then [b0, b1]
      else [b0, b1, (v2 % 4) * 64 + SextetOf(g[3])]
  }

  /** Decoding of a run of data characters, group by group of four: the bytes hold all
      the characters' bits but for fewer than eight left over. */
  function DecodeData(d: string): (b: seq<byte>)
    requires AllAlphabet(d) && |d| % 4 != 1
    ensures 8 * |b| <= 6 * |d| < 8 * |b| + 8
    decreases |d|
  {
    if |d| == 0 then []
    else if |d| <= 4 then DecodeGroup(d)
    else DecodeGroup(d[..4]) + DecodeData(d[4..])
  }

  /** Every four data characters give three bytes, so n characters give (6 * n) / 8. */
  lemma {:induction false} DecodeDataLength(d: string)
    requires AllAlphabet(d) && |d| % 4 != 1
    ensures |DecodeData(d)| == (6 * |d|) / 8
    decreases |d|
  {
    if |d| > 4 {
      DecodeDataLength(d[4..]);
    }
  }

  /** `base64.RawURLEncoding.DecodeString`. */
  function Decode(s: string): (r: Result<seq<byte>, Err>)
    ensures r.Success? <==>
              (forall i :: 0 <= i < |s| ==> IsAccepted(s[i])) && |DataChars(s)| % 4 != 1
    ensures r.Success? ==> |r.value| == (6 * |DataChars(s)|) / 8
    ensures r.Failure? ==> r.error.CorruptInput? && r.error.offset < |s|
    ensures r.Failure? && FirstInvalid(s).Some? ==> r.error.offset == FirstInvalid(s).value
    ensures r.Failure? && FirstInvalid(s).None? ==> r.error.offset == |s| - 1
  {
    match FirstInvalid(s)
    case Some(i) => Failure(CorruptInput(i))
    case None =>
      var d := DataChars(s);
      if |d| % 4 == 1 then Failure(CorruptInput(|s| - 1))
      else
        DecodeDataLength(d);
        Success(DecodeData(d))
  }

  /** `componentToBase64` (keyfunc.go): trim trailing padding, then decode. An error
      offset is an offset into the component as given, since trimming keeps a prefix. */
  function ComponentToBytes(component: string): (r: Result<seq<byte>, Err>)
    ensures var t := TrimPadding(component);
            r.Success? <==> (forall i :: 0 <= i < |t| ==> IsAccepted(t[i])) && |DataChars(t)| % 4 != 1
    ensures r.Success? ==> |r.value| == (6 * |DataChars(TrimPadding(component))|) / 8
    ensures r.Failure? ==>
              r.error.CorruptInput? && r.error.offset < |TrimPadding(component)|
    ensures var t := TrimPadding(component);
            r.Failure? && FirstInvalid(t).Some? ==> r.error.offset == FirstInvalid(t).value
    ensures var t := TrimPadding(component);
            r.Failure? && FirstInvalid(t).None? ==> r.error.offset == |t| - 1
  {
    Decode(TrimPadding(component))
  }

  /** Three bytes as four alphabet characters, six bits each, most significant first. */
  function EncodeGroup(x: byte, y: byte, z: byte): (g: string)
    ensures |g| == 4 && AllAlphabet(g)
  {
    [CharOf(x / 4), CharOf((x % 4) * 16 + y / 16), CharOf((y % 16) * 4 + z / 64), CharOf(z % 64)]
  }

  /** Unpadded base64url encoding: the reference the decoder is checked against. A
      final group of one or two bytes is written with two or three characters. */
  function Encode(b: seq<byte>): (s: string)
    ensures AllAlphabet(s)
    ensures |s| % 4 != 1
    decreases |b|
  {
    if |b| == 0 then []
    else if |b| == 1 then EncodeGroup(b[0], 0, 0)[..2]
    else if |b| == 2 then EncodeGroup(b[0], b[1], 0)[..3]
    else EncodeGroup(b[0], b[1], b[2]) + Encode(b[3..])
  }

  /** Every three bytes take four characters, so n bytes take ceil(8 * n / 6). */
  lemma {:induction false} EncodeLength(b: seq<byte>)
    ensures |Encode(b)| == (8 * |b| + 5) / 6
    decreases |b|
  {
    if |b| > 2 {
      EncodeLength(b[3..]);
    }
  }

  lemma AllAlphabetAccepted(s: string)
    requires AllAlphabet(s)
    ensures FirstInvalid(s).None?
    ensures NoLineBreaks(s)
  {
  }

  /** The bit arithmetic of one group: the 6-bit fields recombine into the bytes. */
  lemma GroupArithmetic(x: byte, y: byte, z: byte)
    ensures (x / 4) * 4 + ((x % 4) * 16 + y / 16) / 16 == x
    ensures (((x % 4) * 16 + y / 16) % 16) * 16 + ((y % 16) * 4 + z / 64) / 4 == y
    ensures (((y % 16) * 4 + z / 64) % 4) * 64 + z % 64 == z
  {
    assert ((x % 4) * 16 + y / 16) / 16 == x % 4;
    assert ((x % 4) * 16 + y / 16) % 16 == y / 16;
    assert ((y % 16) * 4 + z / 64) / 4 == y % 16;
    assert ((y % 16) * 4 + z / 64) % 4 == z / 64;
  }

  /** A group, whole or cut to two or three characters, decodes to its bytes. */
  lemma GroupRoundTrip(x: byte, y: byte, z: byte)
    ensures DecodeData(EncodeGroup(x, y, z)) == [x, y, z]
    ensures DecodeData(EncodeGroup(x, y, z)[..3]) == [x, y]
    ensures DecodeData(EncodeGroup(x, y, z)[..2]) == [x]
  {
    GroupArithmetic(x, y, z);
    var g := EncodeGroup(x, y, z);
    var v0, v1, v2, v3 := x / 4, (x % 4) * 16 + y / 16, (y % 16) * 4 + z / 64, z % 64;
    assert SextetOf(g[0]) == v0 && SextetOf(g[1]) == v1;
    assert SextetOf(g[2]) == v2 && SextetOf(g[3]) == v3;
    assert DecodeGroup(g) == [x, y, z];
    assert DecodeGroup(g[..3]) == [x, y];
    assert DecodeGroup(g[..2]) == [x];
  }

  /** Decoding splits at a group boundary. */
  lemma DecodeDataSplit(g: string, rest: string)
    requires |g| == 4 && AllAlphabet(g) && AllAlphabet(rest) && |rest| % 4 != 1
    ensures AllAlphabet(g + rest)
    ensures DecodeData(g + rest) == DecodeData(g) + DecodeData(rest)
  {
    var s := g + rest;
    if |rest| > 0 {
      assert s[..4] == g && s[4..] == rest;
    } else {
      assert s == g;
    }
  }

  /** Decoding the data characters of an encoding gives back the bytes. */
  lemma {:induction false} DecodeDataEncode(b: seq<byte>)
    ensures DecodeData(Encode(b)) == b
    decreases |b|
  {
    if |b| == 1 {
      GroupRoundTrip(b[0], 0, 0);
    } else if |b| == 2 {
      GroupRoundTrip(b[0], b[1], 0);
    } else if |b| > 2 {
      DecodeDataEncode(b[3..]);
      DecodeDataEncodeStep(b);
    }
  }

  /** The inductive step: a whole leading group decodes ahead of the rest. */
  lemma DecodeDataEncodeStep(b: seq<byte>)
    requires |b| > 2 && DecodeData(Encode(b[3..])) == b[3..]
    ensures DecodeData(Encode(b)) == b
  {
    var g, rest := EncodeGroup(b[0], b[1], b[2]), Encode(b[3..]);
    assert Encode(b) == g + rest;
    GroupRoundTrip(b[0], b[1], b[2]);
    assert DecodeData(g) == [b[0], b[1], b[2]];
    DecodeDataSplit(g, rest);
    assert DecodeData(g + rest) == [b[0], b[1], b[2]] + b[3..];
    HeadThree(b);
  }

  lemma HeadThree<T>(b: seq<T>)
    requires |b| > 2
    ensures b == [b[0], b[1], b[2]] + b[3..]
  {
  }

  /** Round trip: the unpadded base64url encoding of any bytes decodes to those bytes.
      (Only this direction holds: the decoder ignores unused low bits, so several
      spellings decode to the same bytes.) */
  lemma EncodeThenDecode(b: seq<byte>)
    ensures Decode(Encode(b)) == Success(b)
    ensures ComponentToBytes(Encode(b)) == Success(b)
  {
    var s := Encode(b);
    AllAlphabetAccepted(s);
    DecodeDataEncode(b);
    assert TrimPadding(s) == s;
  }

  /** Trimming ignores any number of appended padding characters. */
  lemma {:induction false} TrimPaddingAppended(s: string, k: nat)
    ensures TrimPadding(s + Padding(k)) == TrimPadding(s)
    decreases k
  {
    if k > 0 {
      var t := s + Padding(k);
      assert t[..|t| - 1] == s + Padding(k - 1);
      TrimPaddingAppended(s, k - 1);
    } else {
      assert s + Padding(0) == s;
    }
  }

  /** Padding tolerance: appending `=` characters never changes the outcome, whether it
      is a byte sequence or an error. */
  lemma PaddingTolerated(s: string, k: nat)
    ensures ComponentToBytes(s + Padding(k)) == ComponentToBytes(s)
  {
    TrimPaddingAppended(s, k);
  }

  /** A component made only of padding, including the empty one, decodes to no bytes. */
  lemma OnlyPaddingDecodesEmpty(k: nat)
    ensures ComponentToBytes(Padding(k)) == Success([])
  {
    TrimPaddingAppended([], k);
    assert [] + Padding(k) == Padding(k);
  }

  /** A character the trimming keeps is one that is not followed by padding alone. */
  lemma KeptByTrim(s: string, i: nat, j: nat)
    requires i <= j < |s| && s[j] != Pad
    ensures i < |TrimPadding(s)| && TrimPadding(s)[i] == s[i]
  {
  }

  /** Only trailing padding is removed: an `=` followed somewhere by another character
      makes the component fail to decode, at an offset no later than that `=`. */
  lemma InteriorPaddingRejected(s: string, i: nat, j: nat)
    requires i < j < |s| && s[i] == Pad && s[j] != Pad
    ensures ComponentToBytes(s).Failure?
    ensures ComponentToBytes(s).error.offset <= i
  {
    KeptByTrim(s, i, j);
    var t := TrimPadding(s);
    assert !IsAccepted(t[i]);
  }

  /** A character outside the alphabet, other than padding and line breaks, makes the
      component fail to decode, at an offset no later than that character. */
  lemma ForeignCharRejected(s: string, i: nat)
    requires i < |s| && !IsAccepted(s[i]) && s[i] != Pad
    ensures ComponentToBytes(s).Failure?
    ensures ComponentToBytes(s).error.offset <= i
  {
    KeptByTrim(s, i, i);
    var t := TrimPadding(s);
    assert !IsAccepted(t[i]);
  }

  /** The characters of the standard alphabet that base64url replaces are rejected. */
  lemma StandardAlphabetRejected(s: string, i: nat)
    requires i < |s| && (s[i] == '+' || s[i] == '/')
    ensures ComponentToBytes(s).Failure?
  {
    ForeignCharRejected(s, i);
  }

  /** Inserting a line break into input that decodes changes nothing. */
  lemma DecodeSkipsLineBreak(a: string, c: char, b: string)
    requires IsLineBreak(c) && Decode(a + b).Success?
    ensures Decode(a + [c] + b) == Decode(a + b)
  {
    DataCharsSkipsLineBreaks(a, c, b);
    var s, t := a + [c] + b, a + b;
    forall i | 0 <= i < |s|
      ensures IsAccepted(s[i])
    {
      if i < |a| {
        assert s[i] == t[i];
      } else if i > |a| {
        assert s[i] == t[i - 1];
      }
    }
  }

  /** Without line breaks, the trimmed length decides: one character left over in the
      last group is an error, and otherwise a successful decode has (6 * length) / 8
      bytes. */
  lemma TrimmedLengthDecides(s: string)
    requires NoLineBreaks(TrimPadding(s))
    ensures |TrimPadding(s)| % 4 == 1 ==> ComponentToBytes(s).Failure?
    ensures ComponentToBytes(s).Success? ==>
              |ComponentToBytes(s).value| == (6 * |TrimPadding(s)|) / 8
  {
  }
}
