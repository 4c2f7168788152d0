/** GuidExtensions.cs: the 22-character URL-friendly form of a GUID. The GUID
    is its 16 bytes as `Guid.ToByteArray` lays them out; the codec is base 64
    (section 4 of RFC 4648) with the two substitutions of the URL-safe
    alphabet (section 5 of RFC 4648) and the padding dropped. */
module GuidExtensions {
  import opened Wrappers
  import opened Text

  /** A GUID as its 16 bytes. */
  type Guid = s: seq<byte> | |s| == 16 witness seq(16, _ => 0)

  // ---------------------------------------------------------------------------
  // Base 64, section 4 of RFC 4648
  // ---------------------------------------------------------------------------

  /** The character for a 6-bit value: A-Z, a-z, 0-9, '+', '/'. */
  function B64Char(v: nat): (c: char)
    requires v < 64
    ensures IsB64Char(c)
  {
    if v < 26 then ('A' as int + v) as char
    else if v < 52 then ('a' as int + (v - 26)) as char
    else if v < 62 then ('0' as int + (v - 52)) as char
    else if v == 62 then '+'
    else '/'
  }

  predicate IsB64Char(c: char) {
    ('A' <= c <= 'Z') || ('a' <= c <= 'z') || ('0' <= c <= '9') || c == '+' || c == '/'
  }

  /** The 6-bit value of an alphabet character. */
  function B64Value(c: char): (v: nat)
    requires IsB64Char(c)
    ensures v < 64 && B64Char(v) == c
  {
    if 'A' <= c <= 'Z' then c as int - 'A' as int
    else if 'a' <= c <= 'z' then c as int - 'a' as int + 26
    else if '0' <= c <= '9' then c as int - '0' as int + 52
    else if c == '+' then 62
    else 63
  }

  lemma B64ValueOfChar(v: nat)
    requires v < 64
    ensures B64Value(B64Char(v)) == v
  {
  }

  /** Four alphabet characters in front. */
  predicate IsQuartet(q: string) {
    |q| >= 4 && IsB64Char(q[0]) && IsB64Char(q[1]) && IsB64Char(q[2]) && IsB64Char(q[3])
  }

  /** Three bytes as four characters. */
  function EncodeGroup(b0: byte, b1: byte, b2: byte): (r: string)
    ensures |r| == 4 && IsQuartet(r)
  {
    [B64Char(b0 / 4), B64Char((b0 % 4) * 16 + b1 / 16), B64Char((b1 % 16) * 4 + b2 / 64), B64Char(b2 % 64)]
  }

  /** `Convert.ToBase64String`: every three bytes become four characters; a
      final one or two bytes become two or three characters and '=' padding. */
  function Base64Encode(b: seq<byte>): (r: string)
    ensures |r| % 4 == 0 && (|r| == 0 <==> |b| == 0)
    decreases |b|
  {
    if |b| == 0 then ""
    else if |b| == 1 then [B64Char(b[0] / 4), B64Char((b[0] % 4) * 16)] + "=="
    else if |b| == 2 then [B64Char(b[0] / 4), B64Char((b[0] % 4) * 16 + b[1] / 16), B64Char((b[1] % 16) * 4)] + "="
    else EncodeGroup(b[0], b[1], b[2]) + Base64Encode(b[3..])
  }

  /** Four alphabet characters as three bytes. */
  function DecodeGroup(q: string): (r: seq<byte>)
    requires |q| == 4 && IsQuartet(q)
    ensures |r| == 3
  {
    var v0, v1, v2, v3 := B64Value(q[0]), B64Value(q[1]), B64Value(q[2]), B64Value(q[3]);
    [v0 * 4 + v1 / 16, (v1 % 16) * 16 + v2 / 4, (v2 % 4) * 64 + v3]
  }

  /** The last quartet: "xx==", "xxx=" or "xxxx". Bits beyond the last byte
      are ignored. */
  function DecodeFinal(q: string): (r: Result<seq<byte>>)
    requires |q| == 4
  {
    if IsB64Char(q[0]) && IsB64Char(q[1]) && q[2] == '=' && q[3] == '=' then
      Ok([B64Value(q[0]) * 4 + B64Value(q[1]) / 16])
    else if IsB64Char(q[0]) && IsB64Char(q[1]) && IsB64Char(q[2]) && q[3] == '=' then
      var v1, v2 := B64Value(q[1]), B64Value(q[2]);
      Ok([B64Value(q[0]) * 4 + v1 / 16, (v1 % 16) * 16 + v2 / 4])
    else if IsQuartet(q) then Ok(DecodeGroup(q))
    else Err(Format)
  }

  function DecodeQuartets(s: string): Result<seq<byte>>
    requires |s| % 4 == 0
    decreases |s|
  {
    if s == [] then Ok([])
    else if |s| == 4 then DecodeFinal(s)
    else if IsQuartet(s) then
      match DecodeQuartets(s[4..])
      case Ok(rest) => Ok(DecodeGroup(s[..4]) + rest)
      case Err(e) => Err(e)
    else Err(Format)
  }

  /** The white space `Convert.FromBase64String` skips. */
  predicate IsB64Space(c: char) { c == ' ' || c == '\t' || c == '\r' || c == '\n' }

  predicate NotB64Space(c: char) { !IsB64Space(c) }

  /** `Convert.FromBase64String`: after the white space is skipped the text is
      whole quartets, padding only at the end; anything else is a
      `FormatException`. */
  function Base64Decode(s: string): (r: Result<seq<byte>>)
    ensures r.Ok? ==> |Filter(s, NotB64Space)| % 4 == 0
  {
    var t := Filter(s, NotB64Space);
    if |t| % 4 != 0 then Err(Format) else DecodeQuartets(t)
  }

  lemma DecodeEncodeGroup(b0: byte, b1: byte, b2: byte)
    ensures DecodeGroup(EncodeGroup(b0, b1, b2)) == [b0, b1, b2]
  {
    GroupValues(b0, b1, b2);
    GroupArithmetic(b0, b1, b2);
  }

  /** The 6-bit values behind the four characters of a group. */
  lemma GroupValues(b0: byte, b1: byte, b2: byte)
    ensures var q := EncodeGroup(b0, b1, b2);
            && B64Value(q[0]) == b0 / 4 && B64Value(q[1]) == (b0 % 4) * 16 + b1 / 16
            && B64Value(q[2]) == (b1 % 16) * 4 + b2 / 64 && B64Value(q[3]) == b2 % 64
  {
    B64ValueOfChar(b0 / 4);
    B64ValueOfChar((b0 % 4) * 16 + b1 / 16);
    B64ValueOfChar((b1 % 16) * 4 + b2 / 64);
    B64ValueOfChar(b2 % 64);
  }

  /** The bit shuffling of a group, undone. */
  lemma GroupArithmetic(b0: byte, b1: byte, b2: byte)
    ensures var v0, v1, v2, v3 := b0 / 4, (b0 % 4) * 16 + b1 / 16, (b1 % 16) * 4 + b2 / 64, b2 % 64;
            && v0 * 4 + v1 / 16 == b0 && (v1 % 16) * 16 + v2 / 4 == b1 && (v2 % 4) * 64 + v3 == b2
  {
    DivModOf(b0 % 4, b1 / 16, 16);
    DivModOf(b1 % 16, b2 / 64, 4);
  }

  /** Euclidean division recovers the two halves of `hi * k + lo`. */
  lemma DivModOf(hi: nat, lo: nat, k: nat)
    requires lo < k
    ensures (hi * k + lo) / k == hi && (hi * k + lo) % k == lo
  {
    var x := hi * k + lo;
    var q, r := x / k, x % k;
    assert x == q * k + r;
    if q > hi {
      MulMono(hi + 1, q, k);
      SuccMul(hi, k);
      assert false;
    } else if q < hi {
      MulMono(q + 1, hi, k);
      SuccMul(q, k);
      assert false;
    }
  }

  /** Every three bytes, and a final one or two, take four characters. */
  lemma {:induction false} Base64Length(b: seq<byte>)
    ensures |Base64Encode(b)| == 4 * ((|b| + 2) / 3)
    decreases |b|
  {
    if |b| > 2 {
      Base64Length(b[3..]);
      assert (|b| + 2) / 3 == (|b[3..]| + 2) / 3 + 1;
    }
  }

  /** Decoding undoes encoding, for every byte string. */
  lemma {:induction false} Base64RoundTrip(b: seq<byte>)
    ensures Base64Decode(Base64Encode(b)) == Ok(b)
  {
    var e := Base64Encode(b);
    NoSpaceInEncoding(b);
    FilterAllKept(e, NotB64Space);
    assert Filter(e, NotB64Space) == e;
    assert |e| % 4 == 0;
    DecodeQuartetsEncode(b);
  }

  lemma {:induction false} NoSpaceInEncoding(b: seq<byte>)
    ensures forall i :: 0 <= i < |Base64Encode(b)| ==> NotB64Space(Base64Encode(b)[i])
    decreases |b|
  {
    if |b| > 2 {
      NoSpaceInEncoding(b[3..]);
    }
  }

  lemma DecodeOneByte(b0: byte)
    ensures DecodeQuartets(Base64Encode([b0])) == Ok([b0])
  {
    assert Base64Encode([b0]) == [B64Char(b0 / 4), B64Char((b0 % 4) * 16)] + "==";
    B64ValueOfChar(b0 / 4);
    B64ValueOfChar((b0 % 4) * 16);
  }

  lemma DecodeTwoBytes(b0: byte, b1: byte)
    ensures DecodeQuartets(Base64Encode([b0, b1])) == Ok([b0, b1])
  {
    assert Base64Encode([b0, b1]) == [B64Char(b0 / 4), B64Char((b0 % 4) * 16 + b1 / 16), B64Char((b1 % 16) * 4)] + "=";
    var v1 := (b0 % 4) * 16 + b1 / 16;
    var v2 := (b1 % 16) * 4;
    B64ValueOfChar(b0 / 4);
    B64ValueOfChar(v1);
    B64ValueOfChar(v2);
    assert v1 / 16 == b0 % 4 && v1 % 16 == b1 / 16;
    assert v2 / 4 == b1 % 16;
  }

  lemma DecodeFullGroup(b0: byte, b1: byte, b2: byte)
    ensures DecodeQuartets(Base64Encode([b0, b1, b2])) == Ok([b0, b1, b2])
  {
    var q := EncodeGroup(b0, b1, b2);
    assert [b0, b1, b2][3..] == [];
    assert Base64Encode([b0, b1, b2]) == q + "" == q;
    DecodeEncodeGroup(b0, b1, b2);
    assert q[3] != '=';
  }

  lemma {:induction false} DecodeQuartetsEncode(b: seq<byte>)
    ensures DecodeQuartets(Base64Encode(b)) == Ok(b)
    decreases |b|
  {
    if 1 <= |b| <= 3 {
      DecodeShort(b);
    } else if |b| > 3 {
      var rest := b[3..];
      DecodeQuartetsEncode(rest);
      EncodeStep(b);
      DecodeQuartetsStep(b[0], b[1], b[2], Base64Encode(rest), rest);
      ConsThree(b);
    }
  }

  lemma EncodeStep(b: seq<byte>)
    requires |b| > 3
    ensures Base64Encode(b) == EncodeGroup(b[0], b[1], b[2]) + Base64Encode(b[3..])
    ensures |Base64Encode(b[3..])| > 0
  {
  }

  lemma ConsThree(b: seq<byte>)
    requires |b| >= 3
    ensures b == [b[0], b[1], b[2]] + b[3..]
  {
  }

  /** The last quartet of an encoding decodes to the last one to three bytes. */
  lemma DecodeShort(b: seq<byte>)
    requires 1 <= |b| <= 3
    ensures DecodeQuartets(Base64Encode(b)) == Ok(b)
  {
    if |b| == 1 {
      var b0 := b[0];
      SingletonSeq(b);
      DecodeOneByte(b0);
    } else if |b| == 2 {
      var b0, b1 := b[0], b[1];
      PairSeq(b);
      DecodeTwoBytes(b0, b1);
    } else {
      var b0, b1, b2 := b[0], b[1], b[2];
      TripleSeq(b);
      DecodeFullGroup(b0, b1, b2);
    }
  }

  lemma SingletonSeq(b: seq<byte>)
    requires |b| == 1
    ensures b == [b[0]]
  {
  }

  lemma PairSeq(b: seq<byte>)
    requires |b| == 2
    ensures b == [b[0], b[1]]
  {
  }

  lemma TripleSeq(b: seq<byte>)
    requires |b| == 3
    ensures b == [b[0], b[1], b[2]]
  {
  }

  /** One full group in front of whole quartets that decode. */
  lemma DecodeQuartetsStep(b0: byte, b1: byte, b2: byte, tail: string, rest: seq<byte>)
    requires |tail| % 4 == 0 && |tail| > 0 && DecodeQuartets(tail) == Ok(rest)
    ensures |EncodeGroup(b0, b1, b2) + tail| % 4 == 0
    ensures DecodeQuartets(EncodeGroup(b0, b1, b2) + tail) == Ok([b0, b1, b2] + rest)
  {
    DecodeEncodeGroup(b0, b1, b2);
    DecodeQuartetsFront(EncodeGroup(b0, b1, b2), tail, rest);
  }

  /** A quartet in front of whole quartets that decode. */
  lemma DecodeQuartetsFront(g: string, tail: string, rest: seq<byte>)
    requires |g| == 4 && IsQuartet(g)
    requires |tail| % 4 == 0 && |tail| > 0 && DecodeQuartets(tail) == Ok(rest)
    ensures |g + tail| % 4 == 0
    ensures DecodeQuartets(g + tail) == Ok(DecodeGroup(g) + rest)
  {
    AddFourMod(|tail|);
    QuartetInFront(g, tail);
    DecodeQuartetsCons(g + tail, rest);
  }

  lemma QuartetInFront(g: string, tail: string)
    requires |g| == 4 && IsQuartet(g) && |tail| > 0
    ensures IsQuartet(g + tail) && |g + tail| > 4
    ensures (g + tail)[..4] == g && (g + tail)[4..] == tail
  {
    var e := g + tail;
    assert e[0] == g[0] && e[1] == g[1] && e[2] == g[2] && e[3] == g[3];
  }

  /** More than one quartet: the first one decoded, then the rest. */
  lemma DecodeQuartetsCons(s: string, rest: seq<byte>)
    requires |s| % 4 == 0 && |s| > 4 && IsQuartet(s) && DecodeQuartets(s[4..]) == Ok(rest)
    ensures DecodeQuartets(s) == Ok(DecodeGroup(s[..4]) + rest)
  {
  }

  lemma SubThreeMod(n: nat)
    requires n >= 3
    ensures (n - 3) % 3 == n % 3
  {
  }

  lemma AddFourMod(n: nat)
    ensures (n + 4) % 4 == n % 4
  {
  }

  // ---------------------------------------------------------------------------
  // GuidEncoder
  // ---------------------------------------------------------------------------

  /** `GuidEncoder.Encode(Guid)`: base 64, '/' to '_', '+' to '-', and the two
      padding characters cut off. */
  function Encode(guid: Guid): (r: string)
    ensures |r| == 22
    ensures forall i :: 0 <= i < 22 ==> r[i] != '+' && r[i] != '/' && r[i] != '='
  {
    var enc := Base64Encode(guid);
    var safe := ReplaceChar(ReplaceChar(enc, '/', "_"), '+', "-");
    UrlSafeShape(guid);
    safe[..22]
  }

  /** The URL-safe text is the base-64 text with '/' and '+' mapped, character
      by character, and only its last two characters are padding. */
  lemma UrlSafeShape(guid: Guid)
    ensures var enc := Base64Encode(guid);
            var safe := ReplaceChar(ReplaceChar(enc, '/', "_"), '+', "-");
            && |enc| == 24 && |safe| == 24 && enc[22..] == "=="
            && (forall i :: 0 <= i < 24 ==> safe[i] == UrlSafe(enc[i]))
            && (forall i :: 0 <= i < 22 ==> IsB64Char(enc[i]))
  {
    var enc := Base64Encode(guid);
    ReplaceCharPointwise(enc, '/', '_');
    ReplaceCharPointwise(ReplaceChar(enc, '/', "_"), '+', '-');
    EncodingOf16(guid);
  }

  /** The alphabet of section 5 of RFC 4648 in place of '+' and '/'. */
  function UrlSafe(c: char): char {
    if c == '/' then '_' else if c == '+' then '-' else c
  }

  function FromUrlSafe(c: char): char {
    if c == '_' then '/' else if c == '-' then '+' else c
  }

  /** Sixteen bytes: five full groups, then one byte and "==". */
  lemma EncodingOf16(b: seq<byte>)
    requires |b| == 16
    ensures |Base64Encode(b)| == 24 && Base64Encode(b)[22..] == "=="
    ensures forall i :: 0 <= i < 22 ==> IsB64Char(Base64Encode(b)[i])
  {
    Base64Length(b);
    assert (|b| + 2) / 3 == 6;
    EncodingOfOneMore(b);
  }

  /** When one byte is left over, the encoding is alphabet characters and then
      "==". */
  lemma {:induction false} EncodingOfOneMore(b: seq<byte>)
    requires |b| % 3 == 1
    ensures |Base64Encode(b)| >= 4
    ensures Base64Encode(b)[|Base64Encode(b)| - 2..] == "=="
    ensures forall i :: 0 <= i < |Base64Encode(b)| - 2 ==> IsB64Char(Base64Encode(b)[i])
    decreases |b|
  {
    if |b| == 1 {
      assert Base64Encode(b) == [B64Char(b[0] / 4), B64Char((b[0] % 4) * 16)] + "==";
    } else {
      EncodeStep(b);
      SubThreeMod(|b|);
      EncodingOfOneMore(b[3..]);
      GroupThenTail(EncodeGroup(b[0], b[1], b[2]), Base64Encode(b[3..]));
    }
  }

  lemma GroupThenTail(g: string, t: string)
    requires |g| == 4 && IsQuartet(g) && |t| >= 4 && t[|t| - 2..] == "=="
    requires forall i :: 0 <= i < |t| - 2 ==> IsB64Char(t[i])
    ensures (g + t)[|g + t| - 2..] == "=="
    ensures forall i :: 0 <= i < |g + t| - 2 ==> IsB64Char((g + t)[i])
  {
    var e := g + t;
    assert e[|e| - 2..] == t[|t| - 2..];
    forall i | 0 <= i < |e| - 2
      ensures IsB64Char(e[i])
    {
      if i >= 4 {
        assert e[i] == t[i - 4];
      }
    }
  }

  /** `GuidEncoder.Decode(encoded)`: '_' to '/', '-' to '+', "==" appended,
      base 64 decoded; `new Guid(bytes)` accepts exactly 16 bytes. */
  function Decode(encoded: string): (r: Result<Guid>)
    ensures r.Ok? ==> Base64Decode(ReplaceChar(ReplaceChar(encoded, '_', "/"), '-', "+") + "==") == Ok(r.value)
  {
    var s := ReplaceChar(ReplaceChar(encoded, '_', "/"), '-', "+");
    match Base64Decode(s + "==")
    case Err(e) => Err(e)
    case Ok(buffer) => if |buffer| == 16 then Ok(buffer) else Err(Argument)
  }

  /** Decoding the encoding of a GUID gives the GUID back, so distinct GUIDs
      have distinct codes. */
  lemma DecodeEncode(guid: Guid)
    ensures Decode(Encode(guid)) == Ok(guid)
  {
    var enc := Base64Encode(guid);
    var code := Encode(guid);
    UrlSafeShape(guid);
    var back := ReplaceChar(ReplaceChar(code, '_', "/"), '-', "+");
    ReplaceCharPointwise(code, '_', '/');
    ReplaceCharPointwise(ReplaceChar(code, '_', "/"), '-', '+');
    assert back == enc[..22];
    assert back + "==" == enc;
    Base64RoundTrip(guid);
  }

  lemma EncodeInjective(g: Guid, h: Guid)
    requires Encode(g) == Encode(h)
    ensures g == h
  {
    DecodeEncode(g);
    DecodeEncode(h);
  }

  /** `GetShortGuid(prefix, suffix)`: `guid` is the `Guid.NewGuid()` drawn. */
  function GetShortGuid(prefix: Option<string>, suffix: Option<string>, guid: Guid): (r: string)
    ensures |r| == |prefix.GetOr("")| + 22 + |suffix.GetOr("")|
    ensures StartsWith(r, prefix.GetOr("")) && EndsWith(r, suffix.GetOr(""))
    ensures r[|prefix.GetOr("")|..|prefix.GetOr("")| + 22] == Encode(guid)
  {
    prefix.GetOr("") + Encode(guid) + suffix.GetOr("")
  }
}
