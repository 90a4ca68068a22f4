/** UTF-8 as in section 3 of RFC 3629, with decoding that ignores ill-formed bytes. */
module Utf8 {
  import opened Prelude

  type CodePoint = x: int | 0 <= x <= 0x10FFFF
  type Text = seq<CodePoint>

  predicate IsScalar(c: CodePoint) { !(0xD800 <= c <= 0xDFFF) }

  ghost predicate Encodable(text: Text) { forall c :: c in text ==> IsScalar(c) }

  /** A continuation byte with the low six bits. */
  function Low(x: nat): byte { 0x80 + x % 64 }

  /** How many bytes a code point takes. */
  function Width(c: CodePoint): nat { if c < 0x80 then 1 else if c < 0x800 then 2 else if c < 0x10000 then 3 else 4 }

  function EncodeOne(c: CodePoint): (r: seq<byte>)
    ensures |r| == Width(c)
  {
    if c < 0x80 then [c]
    else if c < 0x800 then [0xC0 + c / 64, Low(c)]
    else if c < 0x10000 then [0xE0 + c / 64 / 64, Low(c / 64), Low(c)]
    else [0xF0 + c / 64 / 64 / 64, Low(c / 64 / 64), Low(c / 64), Low(c)]
  }

  function Encode(text: Text): seq<byte> {
    if text == [] then [] else EncodeOne(text[0]) + Encode(text[1..])
  }

  // ----- decoding -----

  predicate IsContinuation(b: byte) { 0x80 <= b <= 0xBF }

  /** How many bytes the sequence behind this first byte has, or 0 if none starts with it. */
  function Length(b: byte): nat {
    if b < 0x80 then 1
    else if 0xC2 <= b <= 0xDF then 2
    else if 0xE0 <= b <= 0xEF then 3
    else if 0xF0 <= b <= 0xF4 then 4
    else 0
  }

  predicate SecondFits(b0: byte, b1: byte) {
    && IsContinuation(b1)
    && (b0 == 0xE0 ==> b1 >= 0xA0) && (b0 == 0xED ==> b1 <= 0x9F)
    && (b0 == 0xF0 ==> b1 >= 0x90) && (b0 == 0xF4 ==> b1 <= 0x8F)
  }

  /** How many leading bytes are the start of one well-formed sequence. */
  function Usable(s: seq<byte>): (n: nat)
    requires s != []
    ensures n <= |s| && n <= Length(s[0]) && (Length(s[0]) > 0 ==> n > 0)
  {
    var length := Length(s[0]);
    if length <= 1 then length
    else if |s| < 2 || !SecondFits(s[0], s[1]) then 1
    else if length == 2 || |s| < 3 || !IsContinuation(s[2]) then 2
    else if length == 3 || |s| < 4 || !IsContinuation(s[3]) then 3
    else 4
  }

  function Bits(b: byte): int { b - 0x80 }

  function Value(s: seq<byte>): CodePoint
    requires s != [] && Usable(s) == Length(s[0]) > 0
  {
    var lead: int := s[0];
    if Length(s[0]) == 1 then lead
    else if Length(s[0]) == 2 then (lead - 0xC0) * 64 + Bits(s[1])
    else if Length(s[0]) == 3 then ((lead - 0xE0) * 64 + Bits(s[1])) * 64 + Bits(s[2])
    else (((lead - 0xF0) * 64 + Bits(s[1])) * 64 + Bits(s[2])) * 64 + Bits(s[3])
  }

  /** `decode("utf-8", errors="ignore")`: drops what starts no well-formed sequence. */
  function DecodeIgnore(s: seq<byte>): (r: Text)
    ensures forall c :: c in r ==> IsScalar(c)
  {
    if s == [] then []
    else
      var n := Usable(s);
      if n == Length(s[0]) && n > 0 then [Value(s)] + DecodeIgnore(s[n..])
      else DecodeIgnore(s[if n == 0 then 1 else n..])
  }

  lemma {:induction false} UsableShort(c: CodePoint, s: seq<byte>)
    requires c < 0x800 && EncodeOne(c) <= s
    ensures Length(s[0]) == Usable(s) == |EncodeOne(c)| && Value(s) == c
  {
    assert s[0] == EncodeOne(c)[0];
    if c >= 0x80 { assert s[1] == EncodeOne(c)[1]; }
  }

  lemma {:induction false} UsableThree(c: CodePoint, s: seq<byte>)
    requires IsScalar(c) && 0x800 <= c < 0x10000 && EncodeOne(c) <= s
    ensures Length(s[0]) == Usable(s) == |EncodeOne(c)| && Value(s) == c
  {
    assert s[0] == EncodeOne(c)[0] && s[1] == EncodeOne(c)[1] && s[2] == EncodeOne(c)[2];
  }

  lemma {:induction false} UsableFour(c: CodePoint, s: seq<byte>)
    requires 0x10000 <= c && EncodeOne(c) <= s
    ensures Length(s[0]) == Usable(s) == |EncodeOne(c)| && Value(s) == c
  {
    assert s[0] == EncodeOne(c)[0] && s[1] == EncodeOne(c)[1] && s[2] == EncodeOne(c)[2] && s[3] == EncodeOne(c)[3];
  }

  lemma {:induction false} UsableEncoded(c: CodePoint, rest: seq<byte>)
    requires IsScalar(c)
    ensures var s := EncodeOne(c) + rest; Length(s[0]) == Usable(s) == |EncodeOne(c)| && Value(s) == c
  {
    var s := EncodeOne(c) + rest;
    if c < 0x800 { UsableShort(c, s); } else if c < 0x10000 { UsableThree(c, s); } else { UsableFour(c, s); }
  }

  lemma {:induction false} DecodeFirst(c: CodePoint, rest: seq<byte>)
    requires IsScalar(c)
    ensures DecodeIgnore(EncodeOne(c) + rest) == [c] + DecodeIgnore(rest)
  {
    UsableEncoded(c, rest);
    assert (EncodeOne(c) + rest)[|EncodeOne(c)|..] == rest;
  }

  /** A sequence cut short decodes to nothing. */
  lemma {:induction false} DecodeCut(c: CodePoint, n: nat)
    requires IsScalar(c) && n < |EncodeOne(c)|
    ensures DecodeIgnore(EncodeOne(c)[..n]) == []
  {
    if n > 0 {
      var s := EncodeOne(c)[..n];
      UsableEncoded(c, []);
      assert EncodeOne(c) + [] == EncodeOne(c);
      assert Usable(s) == n;
      assert s[n..] == [];
    }
  }

  // ----- how much of a text fits -----

  function Size(text: Text): nat { if text == [] then 0 else Width(text[0]) + Size(text[1..]) }

  lemma {:induction false} SizeIsLength(text: Text)
    ensures |Encode(text)| == Size(text)
  {
    if text != [] { SizeIsLength(text[1..]); }
  }

  lemma {:induction false} SizeConcat(a: Text, b: Text)
    ensures Size(a + b) == Size(a) + Size(b)
  {
    if a == [] {
      assert a + b == b;
    } else {
      assert (a + b)[1..] == a[1..] + b;
      SizeConcat(a[1..], b);
    }
  }

  /** How many code points of a text fit into so many bytes. */
  function Fit(text: Text, room: nat): (k: nat)
    ensures k <= |text|
  {
    if text == [] || Width(text[0]) > room then 0 else 1 + Fit(text[1..], room - Width(text[0]))
  }

  lemma {:induction false} FitIsLongest(text: Text, room: nat)
    ensures var k := Fit(text, room);
            Size(text[..k]) <= room && (k < |text| ==> Size(text[..k]) + Width(text[k]) > room)
    ensures Size(text) <= room <==> Fit(text, room) == |text|
  {
    if text != [] && Width(text[0]) <= room {
      FitIsLongest(text[1..], room - Width(text[0]));
      var k := Fit(text, room);
      assert text[..k][1..] == text[1..][..k - 1];
    } else {
      assert text[..0] == [];
    }
  }

  lemma {:induction false} SplitTake(a: seq<byte>, b: seq<byte>, n: nat)
    requires n <= |a| + |b|
    ensures (a + b)[..n] == if |a| <= n then a + b[..n - |a|] else a[..n]
  {
  }

  lemma {:induction false} DecodeHead(c: CodePoint, tail: seq<byte>, n: nat)
    requires IsScalar(c) && n <= Width(c) + |tail|
    ensures DecodeIgnore((EncodeOne(c) + tail)[..n]) ==
            if Width(c) <= n then [c] + DecodeIgnore(tail[..n - Width(c)]) else []
  {
    SplitTake(EncodeOne(c), tail, n);
    if Width(c) <= n { DecodeFirst(c, tail[..n - Width(c)]); } else { DecodeCut(c, n); }
  }

  lemma {:induction false} EncodableTail(text: Text)
    requires Encodable(text) && text != []
    ensures IsScalar(text[0]) && Encodable(text[1..])
  {
    assert text[0] in text && forall c :: c in text[1..] ==> c in text;
  }

  lemma {:induction false} FrontOf(text: Text, k: nat)
    requires 0 < k <= |text|
    ensures [text[0]] + text[1..][..k - 1] == text[..k]
  {
  }

  /** Cutting the bytes anywhere and decoding what is left gives the longest prefix of whole code
      points that fits. */
  lemma {:induction false} DecodePrefix(text: Text, n: nat)
    requires Encodable(text) && n <= |Encode(text)|
    ensures DecodeIgnore(Encode(text)[..n]) == text[..Fit(text, n)]
    decreases |text|
  {
    if text != [] {
      EncodableTail(text);
      DecodeHead(text[0], Encode(text[1..]), n);
      if Width(text[0]) <= n {
        DecodePrefix(text[1..], n - Width(text[0]));
        FrontOf(text, Fit(text, n));
      }
    }
  }

  /** Decoding inverts encoding exactly for texts without surrogates. */
  lemma {:induction false} RoundTripIff(text: Text)
    ensures DecodeIgnore(Encode(text)) == text <==> Encodable(text)
  {
    if Encodable(text) {
      SizeIsLength(text);
      FitIsLongest(text, Size(text));
      DecodePrefix(text, Size(text));
      assert Encode(text)[..Size(text)] == Encode(text) && text[..|text|] == text;
    }
  }
}
