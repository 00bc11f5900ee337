/**
  * What is on the wire, in characters: the words, separators and numbers of doc/protocol.txt, and the alphabet of
  * section 4 of RFC 4648.
  */
module Characters {
  import opened Bytes
  import opened Decimal
  import opened Protocol
  import opened Replies
  import opened Compression

  /** The bytes of a text in ASCII. */
  function Ascii(text: string): (s: Bytes)
    requires forall i :: 0 <= i < |text| ==> text[i] < 128 as char
    ensures |s| == |text| && forall i :: 0 <= i < |text| ==> s[i] as int == text[i] as int
  {
    seq(|text|, i requires 0 <= i < |text| => text[i] as byte)
  }

  lemma WordsAreAscii()
    ensures SET == Ascii("set") && ADD == Ascii("add") && GET == Ascii("get") && DELETE == Ascii("delete")
    ensures CRLF == Ascii("\r\n") && [SPACE] == Ascii(" ") && [ZERO] == Ascii("0")
  {
  }

  lemma SpacedZeroIsAscii()
    ensures [SPACE] + [ZERO] + [SPACE] == Ascii(" 0 ")
  {
  }

  /** Every request, byte for byte. */
  lemma RequestIsAscii(r: Request)
    ensures var key := r.path + r.key;
            match r
            case PutReq(verb, _, _, value, ttl) =>
              r.Rendered() == Ascii(match verb case Set => "set" case Add => "add") + Ascii(" ") + key + Ascii(" 0 ")
                              + Digits(ttl) + Ascii(" ") + Digits(|value|) + Ascii("\r\n") + value + Ascii("\r\n")
            case GetReq(_, _) => r.Rendered() == Ascii("get ") + key + Ascii("\r\n")
            case DeleteReq(_, _) => r.Rendered() == Ascii("delete ") + key + Ascii("\r\n")
  {
    WordsAreAscii();
    match r
    case PutReq(verb, _, _, value, ttl) =>
      SpacedZeroIsAscii();
      var start := VerbBytes(verb) + [SPACE] + (r.path + r.key);
      assert start + [SPACE] + [ZERO] + [SPACE] == start + ([SPACE] + [ZERO] + [SPACE]);
    case GetReq(_, _) =>
      assert Ascii("get") + Ascii(" ") == Ascii("get ");
    case DeleteReq(_, _) =>
      assert Ascii("delete") + Ascii(" ") == Ascii("delete ");
  }

  /** The replies that the client looks for. */
  lemma RepliesAreAscii()
    ensures END_DB == Ascii("END\r\n") && STORED_DB == Ascii("STORED\r\n") && NOT_STORED_DB == Ascii("NOT_STORED\r\n")
    ensures DELETED_DB == Ascii("DELETED\r\n") && NOT_FOUND_DB == Ascii("NOT_FOUND\r\n")
    ensures ERROR_DB == Ascii("ERROR\r\n") && END == Ascii("END") && VALUE == Ascii("VALUE")
  {
  }

  lemma ValueHeaderIsAscii(key: Bytes, flags: Bytes, length: nat)
    ensures ValueHeader(key, flags, length) ==
            Ascii("VALUE ") + key + Ascii(" ") + flags + Ascii(" ") + Digits(length) + Ascii("\r\n")
  {
    WordsAreAscii();
    RepliesAreAscii();
    assert Ascii("VALUE") + Ascii(" ") == Ascii("VALUE ");
  }

  lemma ValueReplyIsAscii(key: Bytes, flags: Bytes, data: Bytes)
    ensures ValueReply(key, flags, data) == ValueHeader(key, flags, |data|) + (data + Ascii("\r\nEND\r\n"))
  {
    RepliesAreAscii();
    assert CRLF + END_DB == Ascii("\r\nEND\r\n");
    assert data + CRLF + END_DB == data + (CRLF + END_DB);
  }

  lemma DigitIsAscii(d: nat)
    requires d < 10
    ensures 48 + d as byte == Ascii("0123456789")[d]
  {
  }

  /** A number is printed digit by digit, the last one last, and without leading zeros. */
  lemma {:induction false} DigitsAreAscii(n: nat)
    ensures n < 10 ==> Digits(n) == [Ascii("0123456789")[n]]
    ensures 10 <= n ==> Digits(n) == Digits(n / 10) + [Ascii("0123456789")[n % 10]]
    ensures 0 < n ==> Digits(n)[0] != ZERO
    decreases n
  {
    DigitIsAscii(n % 10);
    if 10 <= n {
      DigitsAreAscii(n / 10);
      assert Digits(n)[0] == Digits(n / 10)[0];
    }
  }

  /** What strconv.Atoi takes for a number: digits, and at most one sign before them. */
  lemma IntegerExactlyWhen(s: Bytes)
    ensures Integer(s).Some? <==>
            (s != [] && AllDigits(s)) || (1 < |s| && (s[0] as char == '+' || s[0] as char == '-') && AllDigits(s[1..]))
  {
  }

  lemma SignedIsRead(n: nat)
    ensures Integer(Ascii("+") + Digits(n)) == Some(n as int)
    ensures Integer(Ascii("-") + Digits(n)) == Some(-(n as int))
  {
    ValueOfDigits(n);
    assert (Ascii("+") + Digits(n))[1..] == (Ascii("-") + Digits(n))[1..] == Digits(n);
  }

  /** Table 1 of RFC 4648. */
  function Letter(v: nat): (c: char)
    requires v < 64
    ensures c < 128 as char
  {
    if v < 26 then 'A' + v as char
    else if v < 52 then 'a' + (v - 26) as char
    else if v < 62 then '0' + (v - 52) as char
    else if v == 62 then '+'
    else '/'
  }

  lemma SymbolIsAscii(v: nat)
    requires v < 64
    ensures Symbol(v) as int == Letter(v) as int
  {
  }

  /** The number that four groups of six bits make. */
  function Bits(p: nat, q: nat, r: nat, s: nat): nat {
    0x40000 * p + 0x1000 * q + 0x40 * r + s
  }

  lemma BitsAreUnique(p: nat, q: nat, r: nat, s: nat, p': nat, q': nat, r': nat, s': nat)
    requires p < 64 && q < 64 && r < 64 && s < 64 && p' < 64 && q' < 64 && r' < 64 && s' < 64
    requires Bits(p, q, r, s) == Bits(p', q', r', s')
    ensures p == p' && q == q' && r == r' && s == s'
  {
  }

  lemma SextetsAreBits(x: nat, y: nat, z: nat)
    requires x < 256 && y < 256 && z < 256
    ensures var g := Sextets(x, y, z);
            0x10000 * x + 0x100 * y + z == Bits(g.0, g.1, g.2, g.3)
  {
    SextetsFit(x, y, z);
  }

  lemma ThreeAreQuad(a: byte, b: byte, c: byte)
    ensures Encode([a, b, c]) == Quad(a, b, c)
  {
    var data := [a, b, c];
    assert data[3..] == [];
    assert Encode(data) == Quad(a, b, c) + Encode(data[3..]);
  }

  lemma SextetsOfBits(x: nat, y: nat, z: nat, p: nat, q: nat, r: nat, s: nat)
    requires x < 256 && y < 256 && z < 256 && p < 64 && q < 64 && r < 64 && s < 64
    requires 0x10000 * x + 0x100 * y + z == Bits(p, q, r, s)
    ensures Sextets(x, y, z) == (p, q, r, s)
  {
    SextetsFit(x, y, z);
    SextetsAreBits(x, y, z);
    var g := Sextets(x, y, z);
    BitsAreUnique(p, q, r, s, g.0, g.1, g.2, g.3);
  }

  /** Three bytes are four letters, six bits each, the highest first. */
  lemma EncodingIsAscii(a: byte, b: byte, c: byte, p: nat, q: nat, r: nat, s: nat)
    requires p < 64 && q < 64 && r < 64 && s < 64
    requires 0x10000 * a as nat + 0x100 * b as nat + c as nat == Bits(p, q, r, s)
    ensures Encode([a, b, c]) == [Letter(p) as byte, Letter(q) as byte, Letter(r) as byte, Letter(s) as byte]
  {
    SextetsOfBits(a as nat, b as nat, c as nat, p, q, r, s);
    ThreeAreQuad(a, b, c);
    SymbolIsAscii(p);
    SymbolIsAscii(q);
    SymbolIsAscii(r);
    SymbolIsAscii(s);
  }
}
