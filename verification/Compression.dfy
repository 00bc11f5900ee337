/** The codecs of compression.go, and what an encoded value does to the delimiting of its get reply. */
module Compression {
  import opened Bytes
  import opened Decimal
  import opened Replies
  import opened Telnet
  import opened StaleReplies
  import opened Framing

  /** A DataCompressor; None stands for an error. */
  datatype Codec = Codec(compress: Bytes -> Option<Bytes>, decompress: Bytes -> Option<Bytes>)

  predicate RestoredBy(c: Codec, data: Bytes) {
    match c.compress(data)
    case None => false
    case Some(t) => c.decompress(t) == Some(data) && (data != [] ==> t != [])
  }

  /** Nothing fails on the way there and back, nothing is lost, and no data is stored as nothing. */
  ghost predicate Lossless(c: Codec) {
    forall data :: RestoredBy(c, data)
  }

  // ----- base64.RawStdEncoding: sections 3.2 and 4 of RFC 4648

  function Symbol(v: nat): byte
    requires v < 64
  {
    if v < 26 then (65 + v) as byte
    else if v < 52 then (71 + v) as byte
    else if v < 62 then (v - 4) as byte
    else if v == 62 then 43
    else 47
  }

  function Sextet(b: byte): Option<nat> {
    if 65 <= b <= 90 then Some((b - 65) as nat)
    else if 97 <= b <= 122 then Some((b - 71) as nat)
    else if 48 <= b <= 57 then Some(b as nat + 4)
    else if b == 43 then Some(62)
    else if b == 47 then Some(63)
    else None
  }

  /** The four groups of six bits in three bytes. */
  function Sextets(x: nat, y: nat, z: nat): (nat, nat, nat, nat) {
    (x / 4, x % 4 * 16 + y / 16, y % 16 * 4 + z / 64, z % 64)
  }

  lemma SextetsFit(x: nat, y: nat, z: nat)
    requires x < 256 && y < 256 && z < 256
    ensures var g := Sextets(x, y, z);
            && g.0 < 64 && g.1 < 64 && g.2 < 64 && g.3 < 64
            && g.0 * 4 + g.1 / 16 == x && g.1 % 16 * 16 + g.2 / 4 == y && g.2 % 4 * 64 + g.3 == z
  {
  }

  function Quad(a: byte, b: byte, c: byte): (q: Bytes)
    ensures |q| == 4
  {
    SextetsFit(a as nat, b as nat, c as nat);
    var g := Sextets(a as nat, b as nat, c as nat);
    [Symbol(g.0), Symbol(g.1), Symbol(g.2), Symbol(g.3)]
  }

  function Encode(data: Bytes): Bytes {
    if |data| == 0 then []
    else if |data| == 1 then Quad(data[0], 0, 0)[..2]
    else if |data| == 2 then Quad(data[0], data[1], 0)[..3]
    else Quad(data[0], data[1], data[2]) + Encode(data[3..])
  }

  /** The decoder passes over line breaks wherever they stand. */
  function WithoutBreaks(text: Bytes): Bytes {
    if text == [] then []
    else if IsBreak(text[0]) then WithoutBreaks(text[1..])
    else [text[0]] + WithoutBreaks(text[1..])
  }

  function Triple(p: nat, q: nat, r: nat, s: nat): Bytes
    requires p < 64 && q < 64 && r < 64 && s < 64
  {
    [(p * 4 + q / 16) as byte, (q % 16 * 16 + r / 4) as byte, (r % 4 * 64 + s) as byte]
  }

  function Value6(text: Bytes, i: nat): (v: Option<nat>)
    ensures v.Some? ==> v.value < 64
  {
    if i < |text| then Sextet(text[i]) else Some(0)
  }

  function DecodeSymbols(text: Bytes): Option<Bytes>
    decreases |text|
  {
    if text == [] then Some([])
    else if |text| == 1 then None
    else
      var p, q, r, s := Value6(text, 0), Value6(text, 1), Value6(text, 2), Value6(text, 3);
      if p.None? || q.None? || r.None? || s.None? then None
      else
        var three := Triple(p.value, q.value, r.value, s.value);
        if |text| < 4 then Some(three[..|text| - 1])
        else match DecodeSymbols(text[4..])
          case None => None
          case Some(rest) => Some(three + rest)
  }

  function Decode(text: Bytes): Option<Bytes> {
    DecodeSymbols(WithoutBreaks(text))
  }

  const BASE64 := Codec((data: Bytes) => Some(Encode(data)), (text: Bytes) => Decode(text))

  /** The lengths that the destination buffers are made with. */
  function EncodedLen(n: nat): nat {
    n / 3 * 4 + (n % 3 * 8 + 5) / 6
  }

  function DecodedLen(n: nat): nat {
    n / 4 * 3 + n % 4 * 6 / 8
  }

  predicate IsSymbol(b: byte) {
    Sextet(b).Some?
  }

  lemma SextetOfSymbol(v: nat)
    requires v < 64
    ensures Sextet(Symbol(v)) == Some(v)
  {
  }

  lemma QuadDecodes(a: byte, b: byte, c: byte)
    ensures var q := Quad(a, b, c);
            && IsSymbol(q[0]) && IsSymbol(q[1]) && IsSymbol(q[2]) && IsSymbol(q[3])
            && Triple(Sextet(q[0]).value, Sextet(q[1]).value, Sextet(q[2]).value, Sextet(q[3]).value) == [a, b, c]
            && (c == 0 ==> Sextet(q[3]).value == 0)
            && (b == 0 && c == 0 ==> Sextet(q[2]).value == 0)
  {
    SextetsFit(a as nat, b as nat, c as nat);
    var g := Sextets(a as nat, b as nat, c as nat);
    SextetOfSymbol(g.0);
    SextetOfSymbol(g.1);
    SextetOfSymbol(g.2);
    SextetOfSymbol(g.3);
  }

  lemma {:induction false} EncodingIsSymbols(data: Bytes)
    ensures forall i :: 0 <= i < |Encode(data)| ==> IsSymbol(Encode(data)[i])
  {
    if |data| == 1 {
      QuadDecodes(data[0], 0, 0);
    } else if |data| == 2 {
      QuadDecodes(data[0], data[1], 0);
    } else if 3 <= |data| {
      QuadDecodes(data[0], data[1], data[2]);
      EncodingIsSymbols(data[3..]);
    }
  }

  /** An encoding has no line break, so it stays on one line of a reply. */
  lemma EncodingLacksBreaks(data: Bytes)
    ensures Lacks(Encode(data), CR) && Lacks(Encode(data), LF)
  {
    EncodingIsSymbols(data);
    assert !IsSymbol(CR) && !IsSymbol(LF);
  }

  lemma {:induction false} NothingToPassOver(text: Bytes)
    requires Lacks(text, CR) && Lacks(text, LF)
    ensures WithoutBreaks(text) == text
  {
    if text != [] {
      NothingToPassOver(text[1..]);
    }
  }

  /** A last group of one or two bytes. */
  lemma ShortGroupDecodes(a: byte, b: byte, n: nat)
    requires n == 1 || n == 2
    requires n == 1 ==> b == 0
    ensures DecodeSymbols(Quad(a, b, 0)[..n + 1]) == Some([a, b][..n])
  {
    QuadDecodes(a, b, 0);
    assert [a, b, 0][..n] == [a, b][..n];
  }

  lemma {:induction false} SymbolsDecode(data: Bytes)
    ensures DecodeSymbols(Encode(data)) == Some(data)
  {
    if |data| == 1 {
      ShortGroupDecodes(data[0], 0, 1);
      assert [data[0], 0][..1] == data;
    } else if |data| == 2 {
      ShortGroupDecodes(data[0], data[1], 2);
      assert [data[0], data[1]][..2] == data;
    } else if 3 <= |data| {
      QuadDecodes(data[0], data[1], data[2]);
      SymbolsDecode(data[3..]);
      assert Encode(data)[4..] == Encode(data[3..]);
      assert data == [data[0], data[1], data[2]] + data[3..];
    }
  }

  /** Decoding undoes encoding, for every byte string. */
  lemma DecodeInvertsEncode(data: Bytes)
    ensures Decode(Encode(data)) == Some(data)
  {
    EncodingLacksBreaks(data);
    NothingToPassOver(Encode(data));
    SymbolsDecode(data);
  }

  lemma {:induction false} WithoutOneBreak(before: Bytes, b: byte, behind: Bytes)
    requires IsBreak(b)
    ensures WithoutBreaks(before + [b] + behind) == WithoutBreaks(before + behind)
    decreases |before|
  {
    var text := before + [b] + behind;
    if before == [] {
      assert text[1..] == behind && before + behind == behind;
    } else {
      assert text[1..] == before[1..] + [b] + behind;
      assert (before + behind)[1..] == before[1..] + behind;
      WithoutOneBreak(before[1..], b, behind);
    }
  }

  /** A line break changes nothing, wherever it stands. */
  lemma BreaksArePassedOver(before: Bytes, b: byte, behind: Bytes)
    requires IsBreak(b)
    ensures Decode(before + [b] + behind) == Decode(before + behind)
  {
    WithoutOneBreak(before, b, behind);
  }

  predicate AllSymbols(text: Bytes) {
    forall i :: 0 <= i < |text| ==> IsSymbol(text[i])
  }

  lemma AllSymbolsOf(text: Bytes)
    requires 4 <= |text|
    ensures AllSymbols(text) <==>
            IsSymbol(text[0]) && IsSymbol(text[1]) && IsSymbol(text[2]) && IsSymbol(text[3]) && AllSymbols(text[4..])
  {
    var rest := text[4..];
    assert forall i :: 4 <= i < |text| ==> text[i] == rest[i - 4];
  }

  lemma GroupDecodesExactlyWhen(text: Bytes)
    requires 4 <= |text|
    ensures DecodeSymbols(text).Some? <==>
            IsSymbol(text[0]) && IsSymbol(text[1]) && IsSymbol(text[2]) && IsSymbol(text[3])
            && DecodeSymbols(text[4..]).Some?
  {
  }

  lemma AllSymbolsOfShort(text: Bytes)
    requires |text| < 4
    ensures AllSymbols(text) <==>
            && (0 < |text| ==> IsSymbol(text[0])) && (1 < |text| ==> IsSymbol(text[1]))
            && (2 < |text| ==> IsSymbol(text[2]))
  {
  }

  lemma ShortDecodesExactlyWhen(text: Bytes)
    requires |text| < 4
    ensures DecodeSymbols(text).Some? <==>
            && |text| != 1 && (0 < |text| ==> IsSymbol(text[0])) && (1 < |text| ==> IsSymbol(text[1]))
            && (2 < |text| ==> IsSymbol(text[2]))
  {
  }

  lemma {:induction false} SymbolsDecodeExactlyWhen(text: Bytes)
    ensures DecodeSymbols(text).Some? <==> AllSymbols(text) && |text| % 4 != 1
    decreases |text|
  {
    if |text| < 4 {
      AllSymbolsOfShort(text);
      ShortDecodesExactlyWhen(text);
    } else {
      var rest := text[4..];
      assert |text| % 4 == |rest| % 4;
      AllSymbolsOf(text);
      GroupDecodesExactlyWhen(text);
      SymbolsDecodeExactlyWhen(rest);
    }
  }

  /** A text decodes exactly when, but for line breaks, it is symbols, and not one too many. */
  lemma DecodesExactlyWhen(text: Bytes)
    ensures Decode(text).Some? <==> AllSymbols(WithoutBreaks(text)) && |WithoutBreaks(text)| % 4 != 1
  {
    SymbolsDecodeExactlyWhen(WithoutBreaks(text));
  }

  lemma {:induction false} EncodingFillsBuffer(data: Bytes)
    ensures |Encode(data)| == EncodedLen(|data|)
    ensures DecodedLen(EncodedLen(|data|)) == |data|
  {
    if 3 <= |data| {
      EncodingFillsBuffer(data[3..]);
    }
  }

  lemma Base64IsLossless()
    ensures Lossless(BASE64)
  {
    forall data ensures RestoredBy(BASE64, data) {
      DecodeInvertsEncode(data);
      EncodingFillsBuffer(data);
    }
  }

  // ----- the Zstandard path: base64 first, then the compressor

  function Layered(inner: Codec): Codec {
    Codec(
      (data: Bytes) => inner.compress(Encode(data)),
      (text: Bytes) => match inner.decompress(text) case None => None case Some(t) => Decode(t))
  }

  lemma LayeredIsLossless(inner: Codec)
    requires Lossless(inner)
    ensures Lossless(Layered(inner))
  {
    forall data ensures RestoredBy(Layered(inner), data) {
      assert RestoredBy(inner, Encode(data));
      DecodeInvertsEncode(data);
      EncodingFillsBuffer(data);
    }
  }

  // ----- encoded values and the marker of a get reply

  /** Whole groups of three bytes, the last of them a multiple of four and two letters C. */
  predicate EndsInCC(data: Bytes) {
    |data| >= 3 && |data| % 3 == 0 && data[|data| - 3] % 4 == 0 && data[|data| - 2] == 67 && data[|data| - 1] == 67
  }

  predicate IsEnd(p: byte, q: byte, r: byte) {
    p == 69 && q == 78 && r == 68
  }

  lemma QuadEndsInEnd(a: byte, b: byte, c: byte)
    ensures IsEnd(Quad(a, b, c)[1], Quad(a, b, c)[2], Quad(a, b, c)[3]) <==> a % 4 == 0 && b == 67 && c == 67
  {
    SextetsFit(a as nat, b as nat, c as nat);
    var g := Sextets(a as nat, b as nat, c as nat);
    SextetOfSymbol(g.1);
    SextetOfSymbol(g.2);
    SextetOfSymbol(g.3);
    assert Sextet(69) == Some(4) && Sextet(78) == Some(13) && Sextet(68) == Some(3);
  }

  lemma ShortGroupsDoNotEndInD(a: byte, b: byte)
    ensures Quad(a, 0, 0)[1] != 68 && Quad(a, b, 0)[2] != 68
  {
    SextetsFit(a as nat, b as nat, 0);
    SextetsFit(a as nat, 0, 0);
    SextetOfSymbol(Sextets(a as nat, 0, 0).1);
    SextetOfSymbol(Sextets(a as nat, b as nat, 0).2);
    assert Sextet(68) == Some(3);
  }

  predicate TailIsEnd(text: Bytes) {
    3 <= |text| && IsEnd(text[|text| - 3], text[|text| - 2], text[|text| - 1])
  }

  lemma EndsWithEnd(text: Bytes)
    ensures EndsWith(text, END) <==> TailIsEnd(text)
  {
    if EndsWith(text, END) {
      assert END[0] == text[|text| - 3 + 0] && END[1] == text[|text| - 3 + 1] && END[2] == text[|text| - 3 + 2];
    }
  }

  /** The last bytes of a text decide, whatever stands before them. */
  lemma TailOfWhole(before: Bytes, text: Bytes)
    ensures 3 <= |text| ==> (TailIsEnd(before + text) <==> TailIsEnd(text))
    ensures text != [] && text[|text| - 1] != 68 ==> !TailIsEnd(before + text)
  {
  }

  /** Up to three bytes, behind any number of whole groups. */
  lemma LastGroupTail(data: Bytes)
    requires 1 <= |data| <= 3
    ensures |data| == 3 ==> 3 <= |Encode(data)| && (TailIsEnd(Encode(data)) <==> EndsInCC(data))
    ensures |data| < 3 ==> Encode(data) != [] && Encode(data)[|Encode(data)| - 1] != 68
  {
    if |data| == 3 {
      QuadEndsInEnd(data[0], data[1], data[2]);
      assert Encode(data[3..]) == [];
    } else {
      ShortGroupsDoNotEndInD(data[0], data[|data| - 1]);
    }
  }

  lemma CCBehindGroup(data: Bytes)
    requires 3 < |data|
    ensures EndsInCC(data) <==> EndsInCC(data[3..])
  {
  }

  lemma {:induction false} EncodingTail(data: Bytes)
    ensures TailIsEnd(Encode(data)) <==> EndsInCC(data)
  {
    if 1 <= |data| <= 3 {
      LastGroupTail(data);
      TailOfWhole([], Encode(data));
      assert [] + Encode(data) == Encode(data);
    } else if 3 < |data| {
      var rest := data[3..];
      EncodingTail(rest);
      CCBehindGroup(data);
      TailOfWhole(Quad(data[0], data[1], data[2]), Encode(rest));
      if |rest| < 3 {
        LastGroupTail(rest);
      }
    }
  }

  /** Which byte strings have an encoding that ends in END. */
  lemma EncodingEndsInEndExactlyWhen(data: Bytes)
    ensures EndsWith(Encode(data), END) <==> EndsInCC(data)
  {
    EndsWithEnd(Encode(data));
    EncodingTail(data);
  }

  /**
    * The reply that carries an encoded value can be delimited under every cutting, exactly when the value
    * does not end in the letters CC behind a multiple of four, in whole groups of three bytes.
    */
  lemma EncodedReplyIsSuffixOnlyExactlyWhen(key: Bytes, flags: Bytes, data: Bytes)
    requires Lacks(key, LF) && AllDigits(flags)
    ensures SuffixOnly(ValueReply(key, flags, Encode(data)), GET_SET.markers) <==> !EndsInCC(data)
  {
    EncodingLacksBreaks(data);
    GetReplyIsSuffixOnlyExactlyWhen(key, flags, Encode(data));
    EndBehindPlainData(Encode(data));
    EncodingEndsInEndExactlyWhen(data);
  }
}
