/**
  * The command stream.  The client's side prints commands (ValidateKey, renderStoreCmd,
  * renderKeyOnlyCmd); the server's side reads them back as memcached's doc/protocol.txt says in
  * "Commands", "Storage commands", "Retrieval command" and "Deletion".
  */
module Protocol {
  import opened Bytes
  import opened Decimal

  const MAX_KEY_LENGTH := 250

  const SET: Bytes := [115, 101, 116]                 // set
  const ADD: Bytes := [97, 100, 100]                  // add
  const GET: Bytes := [103, 101, 116]                 // get
  const DELETE: Bytes := [100, 101, 108, 101, 116, 101]  // delete
  const NOREPLY: Bytes := [110, 111, 114, 101, 112, 108, 121]  // noreply

  datatype Verb = Set | Add

  function VerbBytes(v: Verb): Bytes {
    match v case Set => SET case Add => ADD
  }

  // ----- the client's side

  datatype KeyError = InvalidKeyFormat

  /** The key that reaches the server: the path and the key put together. */
  function Composite(path: Bytes, key: Bytes): Bytes {
    path + key
  }

  predicate ValidKey(key: Bytes) {
    0 < |key| <= MAX_KEY_LENGTH && Lacks(key, SPACE) && Lacks(key, LF) && Lacks(key, CR)
  }

  method ValidateKey(path: Bytes, key: Bytes) returns (err: Option<KeyError>)
    ensures err.None? <==> ValidKey(Composite(path, key))
  {
    var keyComposite;
    if |path| > 0 {
      keyComposite := path;
      if |key| > 0 {
        keyComposite := keyComposite + key;
      } else {
        assert path + key == path;
      }
    } else {
      keyComposite := key;
      assert path + key == key;
    }
    if |keyComposite| == 0 || |keyComposite| > MAX_KEY_LENGTH
       || IndexFrom(keyComposite, SPACE, 0) < |keyComposite|
       || IndexFrom(keyComposite, LF, 0) < |keyComposite|
       || IndexFrom(keyComposite, CR, 0) < |keyComposite|
    {
      return Some(InvalidKeyFormat);
    }
    return None;
  }

  /** A bytes.Buffer that was grown once, to `capacity`, and must never need to grow again. */
  class Buffer {
    const data: array<byte>
    var len: nat
    ghost var written: Bytes

    ghost predicate Valid()
      reads this, data
    {
      len == |written| <= data.Length && data[..len] == written
    }

    constructor Grow(capacity: nat)
      ensures Valid() && fresh(data) && data.Length == capacity && written == []
    {
      data := new byte[capacity];
      len := 0;
      written := [];
    }

    method Write(p: Bytes)
      requires Valid() && len + |p| <= data.Length
      modifies this, data
      ensures Valid() && written == old(written) + p
    {
      forall i | 0 <= i < |p| {
        data[len + i] := p[i];
      }
      len := len + |p|;
      written := written + p;
    }

    method WriteByte(b: byte)
      requires Valid() && len < data.Length
      modifies this, data
      ensures Valid() && written == old(written) + [b]
    {
      data[len] := b;
      len := len + 1;
      written := written + [b];
    }

    /** The bytes of a buffer that is full. */
    method Bytes() returns (p: Bytes)
      requires Valid() && len == data.Length
      ensures p == written
    {
      p := data[..];
    }
  }

  function StoreLine(verb: Verb, key: Bytes, ttl: nat, length: nat): Bytes {
    VerbBytes(verb) + [SPACE] + key + [SPACE] + [ZERO] + [SPACE] + Digits(ttl) + [SPACE] + Digits(length)
  }

  function StoreCmd(verb: Verb, key: Bytes, value: Bytes, ttl: nat): Bytes {
    StoreLine(verb, key, ttl, |value|) + CRLF + value + CRLF
  }

  function KeyOnlyCmd(cmd: Bytes, key: Bytes): Bytes {
    cmd + [SPACE] + key + CRLF
  }

  /** The buffer is filled to its last byte: the amount asked from Grow is the exact length. */
  method RenderStoreCmd(verb: Verb, path: Bytes, key: Bytes, value: Bytes, ttl: nat) returns (rendered: Bytes)
    ensures rendered == StoreCmd(verb, Composite(path, key), value, ttl)
  {
    var length := Digits(|value|);
    var ttlStr := Digits(ttl);
    var cmd := VerbBytes(verb);
    var buffer := new Buffer.Grow(|cmd| + |path| + |key| + |value| + |ttlStr| + |length| + 4 + |CRLF| * 2 + 1);
    buffer.Write(cmd);
    buffer.WriteByte(SPACE);
    buffer.Write(path);
    buffer.Write(key);
    ghost var named := cmd + [SPACE] + Composite(path, key);
    assert buffer.written == named;
    buffer.WriteByte(SPACE);
    buffer.WriteByte(ZERO);
    buffer.WriteByte(SPACE);
    buffer.Write(ttlStr);
    buffer.WriteByte(SPACE);
    buffer.Write(length);
    ghost var line := named + [SPACE] + [ZERO] + [SPACE] + ttlStr + [SPACE] + length;
    assert buffer.written == line;
    buffer.Write(CRLF);
    buffer.Write(value);
    buffer.Write(CRLF);
    rendered := buffer.Bytes();
  }

  method RenderKeyOnlyCmd(cmd: Bytes, path: Bytes, key: Bytes) returns (rendered: Bytes)
    ensures rendered == KeyOnlyCmd(cmd, Composite(path, key))
  {
    var buffer := new Buffer.Grow(|cmd| + |path| + |key| + 1 + |CRLF|);
    buffer.Write(cmd);
    buffer.WriteByte(SPACE);
    buffer.Write(path);
    buffer.Write(key);
    assert buffer.written == cmd + [SPACE] + Composite(path, key);
    buffer.Write(CRLF);
    rendered := buffer.Bytes();
  }

  // ----- the server's side

  /** A command as the protocol knows it. */
  datatype Command =
    | Store(verb: Verb, key: Bytes, flags: nat, exptime: int, data: Bytes, noreply: bool)
    | Retrieve(keys: seq<Bytes>)
    | Remove(key: Bytes, noreply: bool)

  /** The first CR LF, or the length when there is none. */
  function LineEnd(s: Bytes, from: nat): (k: nat)
    requires from <= |s|
    ensures from <= k <= |s|
    ensures k < |s| ==> k + 1 < |s| && s[k] == CR && s[k + 1] == LF
    ensures forall i :: from <= i < k && i + 1 < |s| ==> !(s[i] == CR && s[i + 1] == LF)
    decreases |s| - from
  {
    if from + 1 >= |s| then |s|
    else if s[from] == CR && s[from + 1] == LF then from
    else LineEnd(s, from + 1)
  }

  /** The words of a line, separated by single spaces. */
  function Words(line: Bytes): (ws: seq<Bytes>)
    ensures 0 < |ws|
    decreases |line|
  {
    var k := IndexFrom(line, SPACE, 0);
    if k == |line| then [line] else [line[..k]] + Words(line[k + 1..])
  }

  predicate IsNumber(w: Bytes) {
    w != [] && AllDigits(w)
  }

  predicate AcceptsKey(w: Bytes) {
    0 < |w| <= MAX_KEY_LENGTH
  }

  function Verbs(w: Bytes): Option<Verb> {
    if w == SET then Some(Set) else if w == ADD then Some(Add) else None
  }

  /** `n` words, or one more that says noreply. */
  predicate AcceptsTail(ws: seq<Bytes>, n: nat) {
    |ws| == n || (|ws| == n + 1 && ws[n] == NOREPLY)
  }

  /** `<verb> <key> <flags> <exptime> <bytes> [noreply]`, then the data block and its CR LF. */
  function ParseStore(verb: Verb, ws: seq<Bytes>, rest: Bytes): (r: Option<(Command, Bytes)>)
    requires 0 < |ws|
    ensures r.Some? ==> |r.value.1| <= |rest|
  {
    if !AcceptsTail(ws, 5) || !AcceptsKey(ws[1]) || !IsNumber(ws[2]) || Integer(ws[3]).None?
        || !IsNumber(ws[4]) then None
    else
      var n := Value(ws[4]);
      if n + 2 <= |rest| && rest[n..n + 2] == CRLF then
        Some((Store(verb, ws[1], Value(ws[2]), Integer(ws[3]).value, rest[..n], |ws| == 6), rest[n + 2..]))
      else None
  }

  /** The first command of a stream and the bytes behind it; None for a line that is no whole command. */
  function ParseOne(s: Bytes): (r: Option<(Command, Bytes)>)
    ensures r.Some? ==> |r.value.1| < |s|
  {
    var k := LineEnd(s, 0);
    if k == |s| then None
    else
      var ws := Words(s[..k]);
      var rest := s[k + 2..];
      if Verbs(ws[0]).Some? then ParseStore(Verbs(ws[0]).value, ws, rest)
      else if ws[0] == GET && 2 <= |ws| && (forall i :: 1 <= i < |ws| ==> AcceptsKey(ws[i])) then
        Some((Retrieve(ws[1..]), rest))
      else if ws[0] == DELETE && AcceptsTail(ws, 2) && AcceptsKey(ws[1]) then
        Some((Remove(ws[1], |ws| == 3), rest))
      else None
  }

  /** A whole stream, when it is made of whole commands. */
  function ParseAll(s: Bytes): Option<seq<Command>>
    decreases |s|
  {
    if s == [] then Some([])
    else match ParseOne(s)
      case None => None
      case Some((c, rest)) =>
        match ParseAll(rest)
        case None => None
        case Some(cs) => Some([c] + cs)
  }

  // ----- the two sides agree

  /** What a caller of the client asks for. */
  datatype Request =
    | PutReq(verb: Verb, path: Bytes, key: Bytes, value: Bytes, ttl: nat)
    | GetReq(path: Bytes, key: Bytes)
    | DeleteReq(path: Bytes, key: Bytes)
  {
    function CompositeKey(): Bytes {
      Composite(path, key)
    }

    /** What the bytes sent for it must mean to the server. */
    function Meaning(): Command {
      match this
      case PutReq(verb, _, _, value, ttl) => Store(verb, CompositeKey(), 0, ttl, value, false)
      case GetReq(_, _) => Retrieve([CompositeKey()])
      case DeleteReq(_, _) => Remove(CompositeKey(), false)
    }

    function Rendered(): Bytes {
      match this
      case PutReq(verb, _, _, value, ttl) => StoreCmd(verb, CompositeKey(), value, ttl)
      case GetReq(_, _) => KeyOnlyCmd(GET, CompositeKey())
      case DeleteReq(_, _) => KeyOnlyCmd(DELETE, CompositeKey())
    }

    /** The key passes ValidateKey; nothing is asked of the value or of the time to live. */
    predicate Acceptable() {
      ValidKey(CompositeKey())
    }
  }

  function Meanings(rs: seq<Request>): seq<Command> {
    if rs == [] then [] else [rs[0].Meaning()] + Meanings(rs[1..])
  }

  function Stream(rs: seq<Request>): Bytes {
    if rs == [] then [] else rs[0].Rendered() + Stream(rs[1..])
  }

  lemma LineEndAfter(line: Bytes, more: Bytes, from: nat)
    requires Lacks(line, CR) && from <= |line|
    ensures LineEnd(line + CRLF + more, from) == |line|
  {
    var s := line + CRLF + more;
    assert s[|line|] == CR && s[|line| + 1] == LF;
    assert forall i :: 0 <= i < |line| ==> s[i] == line[i] != CR;
  }

  lemma SingleWord(w: Bytes)
    requires Lacks(w, SPACE)
    ensures Words(w) == [w]
  {
  }

  /** A word put behind a line becomes its last word. */
  lemma {:induction false} WordsAppend(line: Bytes, w: Bytes)
    requires Lacks(w, SPACE)
    ensures Words(line + [SPACE] + w) == Words(line) + [w]
    decreases |line|
  {
    var s := line + [SPACE] + w;
    var k := IndexFrom(line, SPACE, 0);
    assert s[|line|] == SPACE;
    assert forall i :: 0 <= i < |line| ==> s[i] == line[i];
    assert IndexFrom(s, SPACE, 0) == k;
    assert s[..k] == line[..k];
    if k == |line| {
      assert s[k + 1..] == w && line[..k] == line;
      SingleWord(w);
    } else {
      assert s[k + 1..] == line[k + 1..] + [SPACE] + w;
      WordsAppend(line[k + 1..], w);
    }
  }

  lemma FiveWords(a: Bytes, b: Bytes, c: Bytes, d: Bytes, e: Bytes)
    requires Lacks(a, SPACE) && Lacks(b, SPACE) && Lacks(c, SPACE) && Lacks(d, SPACE) && Lacks(e, SPACE)
    ensures Words(a + [SPACE] + b + [SPACE] + c + [SPACE] + d + [SPACE] + e) == [a, b, c, d, e]
  {
    var l2 := a + [SPACE] + b;
    var l3 := l2 + [SPACE] + c;
    var l4 := l3 + [SPACE] + d;
    SingleWord(a);
    WordsAppend(a, b);
    WordsAppend(l2, c);
    WordsAppend(l3, d);
    WordsAppend(l4, e);
  }

  lemma FiveWordsLack(a: Bytes, b: Bytes, c: Bytes, d: Bytes, e: Bytes, x: byte)
    requires x != SPACE && Lacks(a, x) && Lacks(b, x) && Lacks(c, x) && Lacks(d, x) && Lacks(e, x)
    ensures Lacks(a + [SPACE] + b + [SPACE] + c + [SPACE] + d + [SPACE] + e, x)
  {
  }

  lemma VerbHasNone(verb: Verb)
    ensures Lacks(VerbBytes(verb), SPACE) && Lacks(VerbBytes(verb), CR)
  {
  }

  lemma StoreLineWords(verb: Verb, key: Bytes, ttl: nat, length: nat)
    requires ValidKey(key)
    ensures Words(StoreLine(verb, key, ttl, length)) == [VerbBytes(verb), key, [ZERO], Digits(ttl), Digits(length)]
    ensures Lacks(StoreLine(verb, key, ttl, length), CR)
  {
    DigitsHaveNone(ttl, SPACE);
    DigitsHaveNone(length, SPACE);
    DigitsHaveNone(ttl, CR);
    DigitsHaveNone(length, CR);
    VerbHasNone(verb);
    FiveWords(VerbBytes(verb), key, [ZERO], Digits(ttl), Digits(length));
    FiveWordsLack(VerbBytes(verb), key, [ZERO], Digits(ttl), Digits(length), CR);
  }

  /** A line of words and what follows it, as ParseOne takes them apart. */
  lemma LineApart(line: Bytes, more: Bytes)
    requires Lacks(line, CR)
    ensures var s := line + CRLF + more;
            LineEnd(s, 0) == |line| && s[..|line|] == line && s[|line| + 2..] == more
  {
    LineEndAfter(line, more, 0);
  }

  lemma ParseStoreWords(verb: Verb, key: Bytes, value: Bytes, ttl: nat, more: Bytes)
    requires ValidKey(key)
    ensures ParseStore(verb, [VerbBytes(verb), key, [ZERO], Digits(ttl), Digits(|value|)], value + CRLF + more)
         == Some((Store(verb, key, 0, ttl, value, false), more))
  {
    var rest := value + CRLF + more;
    ValueOfDigits(|value|);
    AtoiItoa(ttl);
    assert [ZERO] == Digits(0);
    ValueOfDigits(0);
    assert rest[..|value|] == value && rest[|value|..|value| + 2] == CRLF && rest[|value| + 2..] == more;
  }

  /** A printed storage command reads back whole, whatever bytes its value holds and whatever follows. */
  lemma ParseStoreCmd(verb: Verb, key: Bytes, value: Bytes, ttl: nat, more: Bytes)
    requires ValidKey(key)
    ensures ParseOne(StoreCmd(verb, key, value, ttl) + more) == Some((Store(verb, key, 0, ttl, value, false), more))
  {
    var line := StoreLine(verb, key, ttl, |value|);
    var rest := value + CRLF + more;
    assert StoreCmd(verb, key, value, ttl) + more == line + CRLF + rest;
    StoreLineWords(verb, key, ttl, |value|);
    LineApart(line, rest);
    ParseStoreWords(verb, key, value, ttl, more);
  }

  lemma ParseKeyOnlyCmd(cmd: Bytes, key: Bytes, more: Bytes)
    requires ValidKey(key) && (cmd == GET || cmd == DELETE)
    ensures ParseOne(KeyOnlyCmd(cmd, key) + more)
         == Some((if cmd == GET then Retrieve([key]) else Remove(key, false), more))
  {
    var line := cmd + [SPACE] + key;
    var s := KeyOnlyCmd(cmd, key) + more;
    assert s == line + CRLF + more;
    LineApart(line, more);
    SingleWord(cmd);
    WordsAppend(cmd, key);
  }

  lemma ParseRequest(r: Request, more: Bytes)
    requires r.Acceptable()
    ensures ParseOne(r.Rendered() + more) == Some((r.Meaning(), more))
  {
    match r
    case PutReq(verb, _, _, value, ttl) => ParseStoreCmd(verb, r.CompositeKey(), value, ttl, more);
    case GetReq(_, _) => ParseKeyOnlyCmd(GET, r.CompositeKey(), more);
    case DeleteReq(_, _) => ParseKeyOnlyCmd(DELETE, r.CompositeKey(), more);
  }

  /** The server recovers exactly the commands that were asked for, from their bytes put end to end. */
  lemma {:induction false} StreamDecodes(rs: seq<Request>)
    requires forall i :: 0 <= i < |rs| ==> rs[i].Acceptable()
    ensures ParseAll(Stream(rs)) == Some(Meanings(rs))
  {
    if rs != [] {
      ParseRequest(rs[0], Stream(rs[1..]));
      StreamDecodes(rs[1..]);
    }
  }

  /** No two lists of commands share their bytes. */
  lemma StreamInjective(rs: seq<Request>, qs: seq<Request>)
    requires forall i :: 0 <= i < |rs| ==> rs[i].Acceptable()
    requires forall i :: 0 <= i < |qs| ==> qs[i].Acceptable()
    requires Stream(rs) == Stream(qs)
    ensures Meanings(rs) == Meanings(qs)
  {
    StreamDecodes(rs);
    StreamDecodes(qs);
  }
}
