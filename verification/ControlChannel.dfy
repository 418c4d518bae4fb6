/**
 The control channel from the guest to the host while files are downloaded: the size of a message's frame, the
 reader that gives up on a frame that is too large, and what this means for every transfer on the channel.
 */
module ControlChannel {
  import opened Basics
  import opened Download

  const MAX_FRAME_SIZE: nat := 262_144

  // ---------------------------------------------------------------------------
  // Frame sizes in MessagePack
  // ---------------------------------------------------------------------------

  /** An unsigned integer in its shortest form. */
  function UintSize(n: nat): (size: nat)
    ensures 1 <= size <= 9
  {
    if n < 0x80 then 1 else if n < 0x100 then 2 else if n < 0x1_0000 then 3 else if n < U32_LIMIT then 5 else 9
  }

  /** A text of `n` octets. */
  function TextSize(n: nat): (size: nat)
    ensures n < size <= n + 5
  {
    n + if n < 32 then 1 else if n < 0x100 then 2 else if n < 0x1_0000 then 3 else 5
  }

  /** The header of a list of `n` items. */
  function ListHeader(n: nat): (size: nat)
    ensures 1 <= size <= 5
  {
    if n < 16 then 1 else if n < 0x1_0000 then 3 else 5
  }

  /** A file's octets go out one integer each. */
  function ItemsSize(data: seq<byte>): nat {
    if data == [] then 0 else ItemsSize(data[..|data| - 1]) + UintSize(data[|data| - 1])
  }

  /** The octets from 128 up. */
  function High(data: seq<byte>): (n: nat)
    ensures n <= |data|
  {
    if data == [] then 0 else High(data[..|data| - 1]) + if data[|data| - 1] >= 128 then 1 else 0
  }

  lemma {:induction false} ItemsSizeIs(data: seq<byte>)
    ensures ItemsSize(data) == |data| + High(data)
    decreases |data|
  {
    if data != [] {
      ItemsSizeIs(data[..|data| - 1]);
    }
  }

  /** A frame: a file message with the octets of the path or error text that it also holds, or any other message. */
  datatype Frame = FileFrame(id: nat, message: Message, text: nat) | OtherFrame(size: nat)

  /** A tagged message is a map of its kind's name under "t" and its fields under "d". */
  function Envelope(name: nat): nat {
    1 + TextSize(1) + TextSize(name) + TextSize(1)
  }

  function FrameSize(f: Frame): nat {
    match f
    case OtherFrame(size) => size
    case FileFrame(id, FileContent(data), text) =>
      Envelope(|"filecontent"|) + 1 + TextSize(|"id"|) + UintSize(id) + TextSize(|"path"|) + TextSize(text)
      + TextSize(|"data"|) + ListHeader(|data|) + ItemsSize(data)
    case FileFrame(id, FileChunk(offset, data, total), _) =>
      Envelope(|"filechunk"|) + 1 + TextSize(|"id"|) + UintSize(id) + TextSize(|"offset"|) + UintSize(offset)
      + TextSize(|"data"|) + ListHeader(|data|) + ItemsSize(data) + TextSize(|"total_size"|) + UintSize(total)
    case FileFrame(id, FileError, text) =>
      Envelope(|"fileerror"|) + 1 + TextSize(|"id"|) + UintSize(id) + TextSize(|"error"|) + TextSize(text)
  }

  predicate Fits(f: Frame) {
    FrameSize(f) <= MAX_FRAME_SIZE
  }

  function OctetsOf(m: Message): seq<byte> {
    if m.FileError? then [] else m.data
  }

  /** A message is larger than its octets and the high ones again, by less than 75 and its text. */
  lemma FrameSizeIsNear(id: nat, m: Message, text: nat)
    ensures var size, octets := FrameSize(FileFrame(id, m, text)), OctetsOf(m);
            |octets| + High(octets) < size < |octets| + High(octets) + text + 75
  {
    ItemsSizeIs(OctetsOf(m));
  }

  // ---------------------------------------------------------------------------
  // The bytes of a frame
  // ---------------------------------------------------------------------------

  /** The `k` lowest digits of a number in base 256, highest first. */
  function BigEndian(n: nat, k: nat): (b: seq<byte>)
    ensures |b| == k
  {
    if k == 0 then [] else BigEndian(n / 256, k - 1) + [n % 256]
  }

  /** positive fixint, uint 8, uint 16, uint 32 and uint 64 */
  function UintBytes(n: nat): seq<byte> {
    if n < 128 then [n]
    else if n < 256 then [0xcc] + BigEndian(n, 1)
    else if n < 65536 then [0xcd] + BigEndian(n, 2)
    else if n < 4294967296 then [0xce] + BigEndian(n, 4)
    else [0xcf] + BigEndian(n, 8)
  }

  /** fixstr, str 8, str 16 and str 32 */
  function TextHead(n: nat): seq<byte> {
    if n < 32 then [0xa0 + n]
    else if n < 256 then [0xd9] + BigEndian(n, 1)
    else if n < 65536 then [0xda] + BigEndian(n, 2)
    else [0xdb] + BigEndian(n, 4)
  }

  function TextBytes(text: seq<byte>): seq<byte> {
    TextHead(|text|) + text
  }

  function UintsBytes(data: seq<byte>): seq<byte> {
    if data == [] then [] else UintsBytes(data[..|data| - 1]) + UintBytes(data[|data| - 1])
  }

  /** fixarray, array 16 and array 32 */
  function ListHead(n: nat): seq<byte> {
    if n < 16 then [0x90 + n]
    else if n < 65536 then [0xdc] + BigEndian(n, 2)
    else [0xdd] + BigEndian(n, 4)
  }

  /** A file's octets. */
  function ListBytes(data: seq<byte>): seq<byte> {
    ListHead(|data|) + UintsBytes(data)
  }

  /** The names of kinds and fields. */
  datatype Words = Words(t: seq<byte>, d: seq<byte>, content: seq<byte>, chunk: seq<byte>, failure: seq<byte>,
                         id: seq<byte>, path: seq<byte>, data: seq<byte>, offset: seq<byte>, total: seq<byte>, error: seq<byte>)

  const WORDS: Words := Words(Ascii("t"), Ascii("d"), Ascii("filecontent"), Ascii("filechunk"), Ascii("fileerror"),
                              Ascii("id"), Ascii("path"), Ascii("data"), Ascii("offset"), Ascii("total_size"), Ascii("error"))

  /** A message is a map of two: its kind's name under "t", and the map of its `n` fields under "d". */
  function TaggedBytes(w: Words, kind: seq<byte>, n: nat, fields: seq<byte>): seq<byte>
    requires n < 16
  {
    [0x82] + (TextBytes(w.t) + (TextBytes(kind) + (TextBytes(w.d) + ([0x80 + n] + fields))))
  }

  function UintField(name: seq<byte>, n: nat): seq<byte> {
    TextBytes(name) + UintBytes(n)
  }

  function TextField(name: seq<byte>, text: seq<byte>): seq<byte> {
    TextBytes(name) + TextBytes(text)
  }

  function ListField(name: seq<byte>, data: seq<byte>): seq<byte> {
    TextBytes(name) + ListBytes(data)
  }

  /** encode_guest_msg without the length prefix; `text` is the path or the error. */
  function EncodeWith(w: Words, id: nat, m: Message, text: seq<byte>): seq<byte> {
    match m
    case FileContent(data) =>
      TaggedBytes(w, w.content, 3, UintField(w.id, id) + (TextField(w.path, text) + ListField(w.data, data)))
    case FileChunk(offset, data, total) =>
      TaggedBytes(w, w.chunk, 4,
                  UintField(w.id, id) + (UintField(w.offset, offset) + (ListField(w.data, data) + UintField(w.total, total))))
    case FileError =>
      TaggedBytes(w, w.failure, 2, UintField(w.id, id) + TextField(w.error, text))
  }

  function Encode(id: nat, m: Message, text: seq<byte>): seq<byte> {
    EncodeWith(WORDS, id, m, text)
  }

  lemma {:induction false} UintsLength(data: seq<byte>)
    ensures |UintsBytes(data)| == ItemsSize(data)
    decreases |data|
  {
    if data != [] {
      UintsLength(data[..|data| - 1]);
    }
  }

  lemma UintFieldLength(name: seq<byte>, n: nat)
    ensures |UintField(name, n)| == TextSize(|name|) + UintSize(n)
  {
  }

  lemma TextFieldLength(name: seq<byte>, text: seq<byte>)
    ensures |TextField(name, text)| == TextSize(|name|) + TextSize(|text|)
  {
  }

  lemma ListFieldLength(name: seq<byte>, data: seq<byte>)
    ensures |ListField(name, data)| == TextSize(|name|) + ListHeader(|data|) + ItemsSize(data)
  {
    UintsLength(data);
  }

  /** The size of a frame is the number of its bytes. */
  lemma FrameSizeIsLength(id: nat, m: Message, text: seq<byte>)
    ensures FrameSize(FileFrame(id, m, |text|)) == |Encode(id, m, text)|
  {
    var w := WORDS;
    UintFieldLength(w.id, id);
    match m
    case FileContent(data) =>
      TextFieldLength(w.path, text);
      ListFieldLength(w.data, data);
    case FileChunk(offset, data, total) =>
      UintFieldLength(w.offset, offset);
      ListFieldLength(w.data, data);
      UintFieldLength(w.total, total);
    case FileError =>
      TextFieldLength(w.error, text);
  }

  // ---------------------------------------------------------------------------
  // The host's reader
  // ---------------------------------------------------------------------------

  /** What comes through: the frames before the first that does not fit. */
  function Arriving(frames: seq<Frame>): (r: seq<Frame>)
    ensures r <= frames && forall i | 0 <= i < |r| :: Fits(frames[i])
    ensures r != frames ==> !Fits(frames[|r|])
  {
    if frames == [] then []
    else
      var n := |frames| - 1;
      var front := Arriving(frames[..n]);
      if |front| == n && Fits(frames[n]) then frames else front
  }

  /** The reader thread: a frame that is too large ends it, and with it the connection. */
  method ReadControl(frames: seq<Frame>) returns (delivered: seq<Frame>)
    ensures delivered == Arriving(frames)
  {
    delivered := [];
    for i := 0 to |frames|
      invariant delivered == frames[..i] && forall j | 0 <= j < i :: Fits(frames[j])
    {
      if FrameSize(frames[i]) > MAX_FRAME_SIZE {
        ArrivingIs(frames, i);
        return;
      }
      delivered := delivered + [frames[i]];
    }
    ArrivingIs(frames, |frames|);
  }

  lemma ArrivingIs(frames: seq<Frame>, n: nat)
    requires n <= |frames| && (forall j | 0 <= j < n :: Fits(frames[j])) && (n < |frames| ==> !Fits(frames[n]))
    ensures Arriving(frames) == frames[..n]
  {
    var r := Arriving(frames);
    assert |r| < |frames| ==> !Fits(frames[|r|]);
    assert r == frames[..|r|];
  }

  /** A message of another kind of at most 262,144 bytes, or a file message with few enough octets. */
  predicate IsSmall(f: Frame) {
    match f
    case OtherFrame(size) => size <= 262_144
    case FileFrame(_, m, text) => |OctetsOf(m)| + High(OctetsOf(m)) + text + 74 <= 262_144
  }

  predicate IsLarge(f: Frame) {
    match f
    case OtherFrame(size) => size > 262_144
    case FileFrame(_, m, text) => |OctetsOf(m)| + High(OctetsOf(m)) >= 262_144
  }

  /** Small frames come through, all of them; the first large one ends the channel. */
  lemma SmallFramesArrive(frames: seq<Frame>, n: nat)
    requires n <= |frames| && (forall i | 0 <= i < n :: IsSmall(frames[i])) && (n < |frames| ==> IsLarge(frames[n]))
    ensures Arriving(frames) == frames[..n]
  {
    forall i | 0 <= i < n ensures Fits(frames[i]) {
      assert IsSmall(frames[i]);
      SmallFits(frames[i]);
    }
    if n < |frames| {
      LargeDoesNotFit(frames[n]);
    }
    ArrivingIs(frames, n);
  }

  lemma SmallFits(f: Frame)
    requires IsSmall(f)
    ensures Fits(f)
  {
    if f.FileFrame? {
      FrameSizeIsNear(f.id, f.message, f.text);
    }
  }

  lemma LargeDoesNotFit(f: Frame)
    requires IsLarge(f)
    ensures !Fits(f)
  {
    if f.FileFrame? {
      FrameSizeIsNear(f.id, f.message, f.text);
    }
  }

  /** The file messages for one id. */
  function MessagesFor(frames: seq<Frame>, id: nat): seq<Message> {
    if frames == [] then []
    else
      var front, last := MessagesFor(frames[..|frames| - 1], id), frames[|frames| - 1];
      if last.FileFrame? && last.id == id then front + [last.message] else front
  }

  lemma {:induction false} MessagesForPrefix(frames: seq<Frame>, n: nat, id: nat)
    requires n <= |frames|
    ensures MessagesFor(frames[..n], id) <= MessagesFor(frames, id)
    decreases |frames|
  {
    if n < |frames| {
      var front := frames[..|frames| - 1];
      MessagesForPrefix(front, n, id);
      assert front[..n] == frames[..n];
    } else {
      assert frames[..n] == frames;
    }
  }

  /** No message among the first `q` frames has settled the transfer. */
  predicate Undecided(frames: seq<Frame>, q: nat, id: nat)
    requires q <= |frames|
  {
    FirstDeciding(MessagesFor(frames[..q], id)).None?
  }

  /** Every frame up to the one that settles the transfer can be read. */
  ghost predicate FitsUpToDecision(frames: seq<Frame>, id: nat) {
    forall q | 0 <= q < |frames| && Undecided(frames, q, id) :: Fits(frames[q])
  }

  lemma {:induction false} DecisionStays(got: seq<Message>, more: seq<Message>)
    requires got <= more && FirstDeciding(got).Some?
    ensures FirstDeciding(more) == FirstDeciding(got)
    decreases |more|
  {
    if |got| < |more| {
      DecisionStays(got, more[..|more| - 1]);
    } else {
      assert got == more;
    }
  }

  lemma NoDecisionBefore(got: seq<Message>, more: seq<Message>)
    requires got <= more && FirstDeciding(more).None?
    ensures FirstDeciding(got).None?
  {
    if FirstDeciding(got).Some? {
      DecisionStays(got, more);
    }
  }

  lemma StillUndecided(frames: seq<Frame>, q: nat, n: nat, id: nat)
    requires q <= n <= |frames| && Undecided(frames, n, id)
    ensures Undecided(frames, q, id)
  {
    MessagesForPrefix(frames[..n], q, id);
    assert frames[..n][..q] == frames[..q];
    NoDecisionBefore(MessagesFor(frames[..q], id), MessagesFor(frames[..n], id));
  }

  /** The host gets the message that settles a transfer exactly if every frame up to it can be read. */
  lemma DecisionArrivesIff(frames: seq<Frame>, id: nat)
    requires FirstDeciding(MessagesFor(frames, id)).Some?
    ensures MessagesFor(Arriving(frames), id) <= MessagesFor(frames, id)
    ensures FirstDeciding(MessagesFor(Arriving(frames), id)) ==
            if FitsUpToDecision(frames, id) then FirstDeciding(MessagesFor(frames, id)) else None
  {
    var n := |Arriving(frames)|;
    assert Arriving(frames) == frames[..n];
    MessagesForPrefix(frames, n, id);
    assert frames[..|frames|] == frames;
    if Undecided(frames, n, id) {
      assert n < |frames| && !Fits(frames[n]);
    } else {
      DecisionStays(MessagesFor(frames[..n], id), MessagesFor(frames, id));
      forall q | 0 <= q < |frames| && Undecided(frames, q, id) ensures Fits(frames[q]) {
        if n <= q {
          StillUndecided(frames, n, q, id);
        }
      }
    }
  }

  // ---------------------------------------------------------------------------
  // Which downloads succeed
  // ---------------------------------------------------------------------------

  lemma SameVerdict(content: seq<byte>, answer: seq<Message>, got: seq<Message>)
    requires InContent(answer, content) && got <= answer
    ensures InContent(got, content)
    ensures Verdict(got, content) ==
            if FirstDeciding(got).Some? then Verdict(answer, content) else []
  {
    if FirstDeciding(got).Some? {
      DecisionStays(got, answer);
    }
  }

  /**
   With no failed read and no timeout, a download yields the whole file exactly when the guest's reads give the
   file and no frame on the channel, up to the message that settles the transfer, is too large.
   */
  lemma WholeFileIff(size: nat, content: seq<byte>, answer: seq<Message>, frames: seq<Frame>, id: nat)
    requires IsUndisturbedAnswer(size, content, answer) && MessagesFor(frames, id) == answer
    ensures var got := MessagesFor(Arriving(frames), id);
            && InContent(got, content)
            && (Verdict(got, content) == [Received(content)] <==>
                ReadsWhole(size, content, answer) && FitsUpToDecision(frames, id))
  {
    AnswerIsWholeIff(size, content, answer);
    var n := |Arriving(frames)|;
    assert Arriving(frames) == frames[..n];
    MessagesForPrefix(frames, n, id);
    SameVerdict(content, answer, MessagesFor(Arriving(frames), id));
    if FirstDeciding(answer).Some? {
      DecisionArrivesIff(frames, id);
    } else {
      NoDecisionBefore(MessagesFor(Arriving(frames), id), answer);
    }
  }

  /** So it is over every run in which the host has handled all that arrived before the requester gave up. */
  lemma RequesterGetsFileIff(states: seq<State>, run: seq<Step>, id: nat, size: nat, content: seq<byte>,
                             answer: seq<Message>, frames: seq<Frame>)
    requires IsRun(states, run) && IsAnswer(Regular(size), content, answer)
    requires IsUndisturbedAnswer(size, content, answer) && MessagesFor(frames, id) == answer
    requires var events := EventsOf(run, id);
             events != [] && events[0].Register? && Messages(BeforeTimeout(events)) == Messages(events) == MessagesFor(Arriving(frames), id)
    ensures ViewOf(states[|run|], id).answers == [Received(content)] <==>
            ReadsWhole(size, content, answer) && FitsUpToDecision(frames, id)
  {
    WholeFileIff(size, content, answer, frames, id);
    MessagesForPrefix(frames, |Arriving(frames)|, id);
    assert Arriving(frames) == frames[..|Arriving(frames)|];
    DownloadIsExact(states, run, id, Regular(size), content, answer);
  }

  /** A file that does not change arrives exactly if it is within the limit and those frames can be read. */
  lemma UnchangedFileArrivesIff(content: seq<byte>, answer: seq<Message>, frames: seq<Frame>, id: nat)
    requires IsUndisturbedAnswer(|content|, content, answer) && MessagesFor(frames, id) == answer
    ensures var got := MessagesFor(Arriving(frames), id);
            && InContent(got, content)
            && (Verdict(got, content) == [Received(content)] <==>
                |content| <= 104_857_600 && FitsUpToDecision(frames, id))
  {
    WholeFileIff(|content|, content, answer, frames, id);
  }

  /**
   One frame that is too large ends every transfer that is not settled by then: whatever of the channel the host
   has handled, its requester has no answer.
   */
  lemma OversizedFrameEndsTransfers(states: seq<State>, run: seq<Step>, id: nat, meta: Meta, content: seq<byte>,
                                    answer: seq<Message>, frames: seq<Frame>, q: nat)
    requires IsRun(states, run) && IsAnswer(meta, content, answer)
    requires q < |frames| && !Fits(frames[q]) && Undecided(frames, q, id)
    requires MessagesFor(frames, id) <= answer
    requires var events := EventsOf(run, id);
             events != [] && events[0].Register? && Messages(events) <= MessagesFor(Arriving(frames), id)
    ensures ViewOf(states[|run|], id).answers == []
  {
    var events, n := EventsOf(run, id), |Arriving(frames)|;
    assert Arriving(frames) == frames[..n] && n <= q;
    StillUndecided(frames, n, q, id);
    MessagesForPrefix(frames, n, id);
    DownloadIsExact(states, run, id, meta, content, answer);
    MessagesOfPrefix(events, |BeforeTimeout(events)|);
    assert events[..|BeforeTimeout(events)|] == BeforeTimeout(events);
    NoDecisionBefore(Messages(BeforeTimeout(events)), MessagesFor(frames[..n], id));
  }

  // ---------------------------------------------------------------------------
  // Which messages are too large
  // ---------------------------------------------------------------------------

  /** A file announced as small and grown past the frame size since: its one message cannot be read. */
  lemma GrownFileBlocksChannel(size: nat, content: seq<byte>, id: nat, text: nat)
    requires size <= FILE_CHUNK_SIZE && |content| >= MAX_FRAME_SIZE
    ensures var frames := [FileFrame(id, FileContent(content), text)];
            && IsUndisturbedAnswer(size, content, MessagesFor(frames, id)) && ReadsWhole(size, content, MessagesFor(frames, id))
            && !Fits(frames[0]) && Arriving(frames) == []
  {
    var frames := [FileFrame(id, FileContent(content), text)];
    FrameSizeIsNear(id, FileContent(content), text);
    OneMessage(frames, id);
    ArrivingIs(frames, 0);
  }

  lemma OneMessage(frames: seq<Frame>, id: nat)
    requires |frames| == 1 && frames[0].FileFrame? && frames[0].id == id
    ensures MessagesFor(frames, id) == [frames[0].message]
  {
    assert frames[..0] == [];
    assert [] + [frames[0].message] == [frames[0].message];
  }

  /** An unchanged file of one message whose octets from 128 up bring it past the frame size never arrives. */
  lemma HighOctetsBlockChannel(content: seq<byte>, id: nat, text: nat)
    requires |content| <= FILE_CHUNK_SIZE && |content| + High(content) >= MAX_FRAME_SIZE
    ensures var frames := [FileFrame(id, FileContent(content), text)];
            && IsUndisturbedAnswer(|content|, content, MessagesFor(frames, id)) && !Fits(frames[0]) && Arriving(frames) == []
  {
    var frames := [FileFrame(id, FileContent(content), text)];
    FrameSizeIsNear(id, FileContent(content), text);
    OneMessage(frames, id);
    ArrivingIs(frames, 0);
  }

  lemma {:induction false} AllHigh(data: seq<byte>)
    requires forall i | 0 <= i < |data| :: data[i] >= 128
    ensures High(data) == |data|
    decreases |data|
  {
    if data != [] {
      AllHigh(data[..|data| - 1]);
    }
  }

  /** Such a file: a chunk's worth of one high octet, unchanged while it is read. */
  lemma BinaryFileNeverArrives(octet: byte, id: nat, text: nat) returns (content: seq<byte>)
    requires octet >= 128
    ensures |content| == FILE_CHUNK_SIZE && forall i | 0 <= i < |content| :: content[i] == octet
    ensures var frames := [FileFrame(id, FileContent(content), text)];
            IsUndisturbedAnswer(|content|, content, MessagesFor(frames, id)) && Arriving(frames) == []
  {
    content := seq(FILE_CHUNK_SIZE, i => octet);
    AllHigh(content);
    HighOctetsBlockChannel(content, id, text);
  }

  /** A message of a file without such octets always fits, with any path or error text the file system allows. */
  lemma LowOctetsFit(id: nat, m: Message, text: nat)
    requires High(OctetsOf(m)) == 0 && |OctetsOf(m)| <= FILE_CHUNK_SIZE && text <= 4096
    ensures Fits(FileFrame(id, m, text))
  {
    FrameSizeIsNear(id, m, text);
  }
}
