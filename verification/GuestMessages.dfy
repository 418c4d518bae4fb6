/** Reading a file message back from its MessagePack bytes. */
module GuestMessages {
  import opened Basics
  import opened Download
  import opened ControlChannel

  /** A value read from the front of some bytes, and the bytes behind it. */
  datatype Front<+T> = Front(value: T, rest: seq<byte>)

  function FromBigEndian(b: seq<byte>): nat {
    if b == [] then 0 else 256 * FromBigEndian(b[..|b| - 1]) + b[|b| - 1]
  }

  function Power256(k: nat): (p: nat)
    ensures p > 0
  {
    if k == 0 then 1 else 256 * Power256(k - 1)
  }

  lemma {:induction false} BigEndianReadsBack(n: nat, k: nat)
    requires n < Power256(k)
    ensures FromBigEndian(BigEndian(n, k)) == n
    decreases k
  {
    if k > 0 {
      BigEndianReadsBack(n / 256, k - 1);
      var b := BigEndian(n, k);
      assert b[..k - 1] == BigEndian(n / 256, k - 1) && b[k - 1] == n % 256;
    }
  }

  lemma Powers()
    ensures Power256(1) == 256 && Power256(2) == 65536 && Power256(4) == 4294967296 && Power256(8) == U64_LIMIT
  {
    assert Power256(4) == 256 * (256 * Power256(2));
    assert Power256(8) == 256 * (256 * (256 * (256 * Power256(4))));
  }

  /** A number of `k` octets behind a tag. */
  function Digits(s: seq<byte>, k: nat): Option<Front<nat>> {
    if |s| < 1 + k then None else Some(Front(FromBigEndian(s[1..1 + k]), s[1 + k..]))
  }

  lemma DigitsReadBack(tag: byte, n: nat, k: nat, rest: seq<byte>)
    requires n < Power256(k)
    ensures Digits([tag] + BigEndian(n, k) + rest, k) == Some(Front(n, rest))
  {
    var s := [tag] + BigEndian(n, k) + rest;
    BigEndianReadsBack(n, k);
    assert s[1..1 + k] == BigEndian(n, k) && s[1 + k..] == rest;
  }

  function TakeUint(s: seq<byte>): Option<Front<nat>> {
    if s == [] then None
    else if s[0] < 128 then Some(Front(s[0], s[1..]))
    else if s[0] == 0xcc then Digits(s, 1)
    else if s[0] == 0xcd then Digits(s, 2)
    else if s[0] == 0xce then Digits(s, 4)
    else if s[0] == 0xcf then Digits(s, 8)
    else None
  }

  lemma UintReadsBack(n: nat, rest: seq<byte>)
    requires n < U64_LIMIT
    ensures TakeUint(UintBytes(n) + rest) == Some(Front(n, rest))
  {
    Powers();
    if n < 128 {
      assert ([n] + rest)[1..] == rest;
    } else if n < 256 {
      DigitsReadBack(0xcc, n, 1, rest);
    } else if n < 65536 {
      DigitsReadBack(0xcd, n, 2, rest);
    } else if n < 4294967296 {
      DigitsReadBack(0xce, n, 4, rest);
    } else {
      DigitsReadBack(0xcf, n, 8, rest);
    }
  }

  /** The length of a text or list: a short one is in its tag, from `short` on. */
  function TakeLength(s: seq<byte>, short: byte, shortest: nat, tag8: Option<byte>, tag16: byte, tag32: byte): Option<Front<nat>> {
    if s == [] then None
    else if short <= s[0] < short + shortest then Some(Front(s[0] - short, s[1..]))
    else if tag8 == Some(s[0]) then Digits(s, 1)
    else if s[0] == tag16 then Digits(s, 2)
    else if s[0] == tag32 then Digits(s, 4)
    else None
  }

  function TakeText(s: seq<byte>): Option<Front<seq<byte>>> {
    match TakeLength(s, 0xa0, 32, Some(0xd9), 0xda, 0xdb)
    case Some(Front(n, rest)) => if |rest| < n then None else Some(Front(rest[..n], rest[n..]))
    case None => None
  }

  lemma TextHeadReadsBack(n: nat, rest: seq<byte>)
    requires n < U32_LIMIT
    ensures TakeLength(TextHead(n) + rest, 0xa0, 32, Some(0xd9), 0xda, 0xdb) == Some(Front(n, rest))
  {
    Powers();
    if n < 32 {
      var tag: byte := 0xa0 + n;
      assert ([tag] + rest)[1..] == rest;
    } else if n < 256 {
      DigitsReadBack(0xd9, n, 1, rest);
    } else if n < 65536 {
      DigitsReadBack(0xda, n, 2, rest);
    } else {
      DigitsReadBack(0xdb, n, 4, rest);
    }
  }

  lemma TextReadsBack(text: seq<byte>, rest: seq<byte>)
    requires |text| < U32_LIMIT
    ensures TakeText(TextBytes(text) + rest) == Some(Front(text, rest))
  {
    TextHeadReadsBack(|text|, text + rest);
    AppendAssoc(TextHead(|text|), text, rest);
    assert (text + rest)[..|text|] == text && (text + rest)[|text|..] == rest;
  }

  /** `n` octets, each an integer. */
  function TakeOctets(s: seq<byte>, n: nat): Option<Front<seq<byte>>> {
    if n == 0 then Some(Front([], s))
    else
      match TakeOctets(s, n - 1)
      case None => None
      case Some(Front(front, rest)) =>
        match TakeUint(rest)
        case Some(Front(last, more)) => if last < 256 then Some(Front(front + [last], more)) else None
        case None => None
  }

  lemma OneMoreOctet(s: seq<byte>, front: seq<byte>, last: byte, rest: seq<byte>)
    requires TakeOctets(s, |front|) == Some(Front(front, UintBytes(last) + rest))
    ensures TakeOctets(s, |front| + 1) == Some(Front(front + [last], rest))
  {
    UintReadsBack(last, rest);
  }

  lemma {:induction false} OctetsReadBack(data: seq<byte>, rest: seq<byte>)
    ensures TakeOctets(UintsBytes(data) + rest, |data|) == Some(Front(data, rest))
    decreases |data|
  {
    if data == [] {
      assert [] + rest == rest;
    } else {
      var front, last := data[..|data| - 1], data[|data| - 1];
      OctetsReadBack(front, UintBytes(last) + rest);
      AppendAssoc(UintsBytes(front), UintBytes(last), rest);
      OneMoreOctet(UintsBytes(data) + rest, front, last, rest);
      assert data == front + [last];
    }
  }

  function TakeList(s: seq<byte>): Option<Front<seq<byte>>> {
    match TakeLength(s, 0x90, 16, None, 0xdc, 0xdd)
    case Some(Front(n, rest)) => TakeOctets(rest, n)
    case None => None
  }

  lemma ListHeadReadsBack(n: nat, rest: seq<byte>)
    requires n < U32_LIMIT
    ensures TakeLength(ListHead(n) + rest, 0x90, 16, None, 0xdc, 0xdd) == Some(Front(n, rest))
  {
    Powers();
    if n < 16 {
      var tag: byte := 0x90 + n;
      assert ([tag] + rest)[1..] == rest;
    } else if n < 65536 {
      DigitsReadBack(0xdc, n, 2, rest);
    } else {
      DigitsReadBack(0xdd, n, 4, rest);
    }
  }

  lemma ListReadsBack(data: seq<byte>, rest: seq<byte>)
    requires |data| < U32_LIMIT
    ensures TakeList(ListBytes(data) + rest) == Some(Front(data, rest))
  {
    ListHeadReadsBack(|data|, UintsBytes(data) + rest);
    AppendAssoc(ListHead(|data|), UintsBytes(data), rest);
    OctetsReadBack(data, rest);
  }

  /** What stands behind the name of a field. */
  function AfterName(s: seq<byte>, name: seq<byte>): Option<seq<byte>> {
    match TakeText(s)
    case Some(Front(text, rest)) => if text == name then Some(rest) else None
    case None => None
  }

  function TakeUintField(s: seq<byte>, name: seq<byte>): Option<Front<nat>> {
    match AfterName(s, name) case Some(rest) => TakeUint(rest) case None => None
  }

  function TakeTextField(s: seq<byte>, name: seq<byte>): Option<Front<seq<byte>>> {
    match AfterName(s, name) case Some(rest) => TakeText(rest) case None => None
  }

  function TakeListField(s: seq<byte>, name: seq<byte>): Option<Front<seq<byte>>> {
    match AfterName(s, name) case Some(rest) => TakeList(rest) case None => None
  }

  lemma UintFieldReadsBack(name: seq<byte>, n: nat, rest: seq<byte>)
    requires |name| < U32_LIMIT && n < U64_LIMIT
    ensures TakeUintField(UintField(name, n) + rest, name) == Some(Front(n, rest))
  {
    TextReadsBack(name, UintBytes(n) + rest);
    AppendAssoc(TextBytes(name), UintBytes(n), rest);
    UintReadsBack(n, rest);
  }

  lemma TextFieldReadsBack(name: seq<byte>, text: seq<byte>, rest: seq<byte>)
    requires |name| < U32_LIMIT && |text| < U32_LIMIT
    ensures TakeTextField(TextField(name, text) + rest, name) == Some(Front(text, rest))
  {
    TextReadsBack(name, TextBytes(text) + rest);
    AppendAssoc(TextBytes(name), TextBytes(text), rest);
    TextReadsBack(text, rest);
  }

  lemma ListFieldReadsBack(name: seq<byte>, data: seq<byte>, rest: seq<byte>)
    requires |name| < U32_LIMIT && |data| < U32_LIMIT
    ensures TakeListField(ListField(name, data) + rest, name) == Some(Front(data, rest))
  {
    TextReadsBack(name, ListBytes(data) + rest);
    AppendAssoc(TextBytes(name), ListBytes(data), rest);
    ListReadsBack(data, rest);
  }

  /** The kind of a tagged message, the number of its fields, and the fields. */
  datatype Tagged = Tagged(kind: seq<byte>, n: nat, fields: seq<byte>)

  function TakeTagged(w: Words, s: seq<byte>): Option<Tagged> {
    if s == [] || s[0] != 0x82 then None else TakeKind(w, s[1..])
  }

  function TakeKind(w: Words, s: seq<byte>): Option<Tagged> {
    match TakeTextField(s, w.t)
    case None => None
    case Some(Front(kind, rest)) =>
      match AfterName(rest, w.d)
      case None => None
      case Some(more) => TakeFields(kind, more)
  }

  /** The names are short, and the kinds are told apart. */
  predicate AreWords(w: Words) {
    && |w.t| < 32 && |w.d| < 32 && |w.content| < 32 && |w.chunk| < 32 && |w.failure| < 32 && |w.id| < 32
    && |w.path| < 32 && |w.data| < 32 && |w.offset| < 32 && |w.total| < 32 && |w.error| < 32
    && w.content != w.chunk && w.content != w.failure && w.chunk != w.failure
  }

  lemma NameReadsBack(name: seq<byte>, rest: seq<byte>)
    requires |name| < U32_LIMIT
    ensures AfterName(TextBytes(name) + rest, name) == Some(rest)
  {
    TextReadsBack(name, rest);
  }

  /** The number of fields, in its tag, and the fields. */
  function TakeFields(kind: seq<byte>, s: seq<byte>): Option<Tagged> {
    if s == [] || !(0x80 <= s[0] < 0x90) then None else Some(Tagged(kind, s[0] - 0x80, s[1..]))
  }

  lemma CountReadsBack(kind: seq<byte>, n: nat, fields: seq<byte>)
    requires n < 16
    ensures TakeFields(kind, [0x80 + n] + fields) == Some(Tagged(kind, n, fields))
  {
    var first: byte := 0x80 + n;
    BehindFirst(first, fields);
  }

  lemma KindReadsBack(w: Words, kind: seq<byte>, n: nat, fields: seq<byte>, end: seq<byte>)
    requires AreWords(w) && |kind| < 32 && TakeFields(kind, end) == Some(Tagged(kind, n, fields))
    ensures TakeKind(w, TextBytes(w.t) + (TextBytes(kind) + (TextBytes(w.d) + end))) == Some(Tagged(kind, n, fields))
  {
    TextFieldReadsBack(w.t, kind, TextBytes(w.d) + end);
    AppendAssoc(TextBytes(w.t), TextBytes(kind), TextBytes(w.d) + end);
    NameReadsBack(w.d, end);
  }

  lemma BehindFirst<T>(first: T, rest: seq<T>)
    ensures ([first] + rest)[0] == first && ([first] + rest)[1..] == rest
  {
  }

  lemma TaggedReadsBack(w: Words, kind: seq<byte>, n: nat, fields: seq<byte>)
    requires AreWords(w) && |kind| < 32 && n < 16
    ensures TakeTagged(w, TaggedBytes(w, kind, n, fields)) == Some(Tagged(kind, n, fields))
  {
    var end := [0x80 + n] + fields;
    var first: byte := 0x82;
    CountReadsBack(kind, n, fields);
    KindReadsBack(w, kind, n, fields, end);
    BehindFirst(first, TextBytes(w.t) + (TextBytes(kind) + (TextBytes(w.d) + end)));
  }

  /** A file message as it is decoded: its id, what it says, and the path or error. */
  datatype Decoded = Decoded(id: nat, message: Message, text: seq<byte>)

  /** The end of a message is the end of its bytes. */
  function AtEnd<T>(value: T, rest: seq<byte>): Option<T> {
    if rest == [] then Some(value) else None
  }

  function DecodeContent(w: Words, id: nat, s: seq<byte>): Option<Decoded> {
    match TakeTextField(s, w.path)
    case None => None
    case Some(Front(path, s1)) =>
      match TakeListField(s1, w.data)
      case Some(Front(data, rest)) => AtEnd(Decoded(id, FileContent(data), path), rest)
      case None => None
  }

  function DecodeChunk(w: Words, id: nat, s: seq<byte>): Option<Decoded> {
    match TakeUintField(s, w.offset)
    case None => None
    case Some(Front(offset, s1)) =>
      match TakeListField(s1, w.data)
      case None => None
      case Some(Front(data, s2)) =>
        match TakeUintField(s2, w.total)
        case Some(Front(total, rest)) => AtEnd(Decoded(id, FileChunk(offset, data, total), []), rest)
        case None => None
  }

  function DecodeError(w: Words, id: nat, s: seq<byte>): Option<Decoded> {
    match TakeTextField(s, w.error)
    case Some(Front(error, rest)) => AtEnd(Decoded(id, FileError, error), rest)
    case None => None
  }

  function DecodeFields(w: Words, kind: seq<byte>, n: nat, id: nat, s: seq<byte>): Option<Decoded> {
    if kind == w.content && n == 3 then DecodeContent(w, id, s)
    else if kind == w.chunk && n == 4 then DecodeChunk(w, id, s)
    else if kind == w.failure && n == 2 then DecodeError(w, id, s)
    else None
  }

  /** decode_guest_msg for the file messages, with the fields in the order in which they are written. */
  function DecodeWith(w: Words, s: seq<byte>): Option<Decoded> {
    match TakeTagged(w, s)
    case None => None
    case Some(Tagged(kind, n, fields)) =>
      match TakeUintField(fields, w.id)
      case Some(Front(id, rest)) => DecodeFields(w, kind, n, id, rest)
      case None => None
  }

  function Decode(s: seq<byte>): Option<Decoded> {
    DecodeWith(WORDS, s)
  }

  /** The numbers and lengths of a message are within their types. */
  predicate IsSendable(id: nat, m: Message, text: seq<byte>) {
    && id < U64_LIMIT && |text| < U32_LIMIT && |OctetsOf(m)| < U32_LIMIT
    && (m.FileChunk? ==> m.offset < U64_LIMIT && m.total < U64_LIMIT && text == [])
  }

  /** The fields behind the id. */
  function Behind(w: Words, m: Message, text: seq<byte>): seq<byte> {
    match m
    case FileContent(data) => TextField(w.path, text) + ListField(w.data, data)
    case FileChunk(offset, data, total) => UintField(w.offset, offset) + (ListField(w.data, data) + UintField(w.total, total))
    case FileError => TextField(w.error, text)
  }

  lemma ContentReadsBack(w: Words, id: nat, path: seq<byte>, data: seq<byte>)
    requires AreWords(w) && |path| < U32_LIMIT && |data| < U32_LIMIT
    ensures DecodeContent(w, id, TextField(w.path, path) + ListField(w.data, data)) == Some(Decoded(id, FileContent(data), path))
  {
    TextFieldReadsBack(w.path, path, ListField(w.data, data));
    ListFieldReadsBack(w.data, data, []);
    assert ListField(w.data, data) + [] == ListField(w.data, data);
  }

  lemma ChunkReadsBack(w: Words, id: nat, offset: nat, data: seq<byte>, total: nat)
    requires AreWords(w) && offset < U64_LIMIT && total < U64_LIMIT && |data| < U32_LIMIT
    ensures DecodeChunk(w, id, UintField(w.offset, offset) + (ListField(w.data, data) + UintField(w.total, total))) ==
            Some(Decoded(id, FileChunk(offset, data, total), []))
  {
    UintFieldReadsBack(w.offset, offset, ListField(w.data, data) + UintField(w.total, total));
    ListFieldReadsBack(w.data, data, UintField(w.total, total));
    UintFieldReadsBack(w.total, total, []);
    assert UintField(w.total, total) + [] == UintField(w.total, total);
  }

  lemma ErrorReadsBack(w: Words, id: nat, error: seq<byte>)
    requires AreWords(w) && |error| < U32_LIMIT
    ensures DecodeError(w, id, TextField(w.error, error)) == Some(Decoded(id, FileError, error))
  {
    TextFieldReadsBack(w.error, error, []);
    assert TextField(w.error, error) + [] == TextField(w.error, error);
  }

  function KindOf(w: Words, m: Message): seq<byte> {
    if m.FileContent? then w.content else if m.FileChunk? then w.chunk else w.failure
  }

  function FieldsOf(m: Message): (n: nat)
    ensures n < 16
  {
    if m.FileContent? then 3 else if m.FileChunk? then 4 else 2
  }

  lemma BehindReadsBack(w: Words, id: nat, m: Message, text: seq<byte>)
    requires AreWords(w) && IsSendable(id, m, text)
    ensures DecodeFields(w, KindOf(w, m), FieldsOf(m), id, Behind(w, m, text)) == Some(Decoded(id, m, text))
  {
    match m
    case FileContent(data) => ContentReadsBack(w, id, text, data);
    case FileChunk(offset, data, total) => ChunkReadsBack(w, id, offset, data, total);
    case FileError => ErrorReadsBack(w, id, text);
  }

  lemma MessageReadsBack(w: Words, id: nat, m: Message, text: seq<byte>)
    requires AreWords(w) && IsSendable(id, m, text)
    ensures DecodeWith(w, EncodeWith(w, id, m, text)) == Some(Decoded(id, m, text))
  {
    TaggedReadsBack(w, KindOf(w, m), FieldsOf(m), UintField(w.id, id) + Behind(w, m, text));
    UintFieldReadsBack(w.id, id, Behind(w, m, text));
    BehindReadsBack(w, id, m, text);
  }

  lemma WordsAreWords()
    ensures AreWords(WORDS)
  {
    assert WORDS.chunk[4] == 'c' as int && WORDS.failure[4] == 'e' as int;
  }

  /** Decoding undoes encoding for every file message. */
  lemma DecodeUndoesEncode(id: nat, m: Message, text: seq<byte>)
    requires IsSendable(id, m, text)
    ensures Decode(Encode(id, m, text)) == Some(Decoded(id, m, text))
  {
    WordsAreWords();
    MessageReadsBack(WORDS, id, m, text);
  }

  /** The bytes themselves, for an empty file: what a reader that knows MessagePack must find. */
  lemma SmallestMessage(id: nat)
    requires id < 128
    ensures Encode(id, FileContent([]), []) ==
            [0x82] + ([0xa1, 't' as int] + (([0xab] + Ascii("filecontent")) + ([0xa1, 'd' as int] + ([0x83] +
            ([0xa2, 'i' as int, 'd' as int, id] + (([0xa4] + Ascii("path") + [0xa0]) + ([0xa4] + Ascii("data") + [0x90])))))))
  {
    SmallestParts(Ascii("path"), Ascii("data"), id);
    assert TextBytes(Ascii("t")) == [0xa1, 't' as int] && TextBytes(Ascii("d")) == [0xa1, 'd' as int];
    assert UintField(Ascii("id"), id) == [0xa2, 'i' as int, 'd' as int, id];
  }

  lemma SmallestParts(path: seq<byte>, data: seq<byte>, id: nat)
    requires |path| == 4 && |data| == 4
    ensures TextField(path, []) == [0xa4] + path + [0xa0] && ListField(data, []) == [0xa4] + data + [0x90]
  {
  }
}
