/**
 Terminal data of many shell sessions over one stream: framing, parsing under short reads, batching,
 stable sorting and grouping into one push per session.
 */
module TerminalMux {
  import opened Basics
  import opened Transport

  datatype Frame = Frame(session: nat, data: seq<byte>)

  /** TERMINAL_FRAME_HEADER_SIZE */
  const HEADER_SIZE: nat := 8

  // ---------------------------------------------------------------------------
  // Wire format: [4-byte big-endian 4 + n][4-byte big-endian session][n bytes]
  // ---------------------------------------------------------------------------

  /** The cast to u32 followed by to_be_bytes. */
  function Be32(n: nat): (b: seq<byte>)
    ensures |b| == 4
  {
    [n / 0x100_0000 % 256, n / 0x1_0000 % 256, n / 0x100 % 256, n % 256]
  }

  function FromBe32(b: seq<byte>): (n: nat)
    requires |b| == 4
    ensures n < U32_LIMIT
  {
    b[0] as int * 0x100_0000 + b[1] as int * 0x1_0000 + b[2] as int * 0x100 + b[3] as int
  }

  /** The digits of a number in base 256. */
  lemma FourDigits(n: nat)
    ensures var a, b, c := n / 0x100, n / 0x1_0000, n / 0x100_0000;
            n == 256 * a + n % 256 && a == 256 * b + a % 256 && b == 256 * c + b % 256 && c == 256 * (c / 256) + c % 256
  {
  }

  lemma Be32RoundTrip(n: nat)
    ensures FromBe32(Be32(n)) == n % U32_LIMIT
  {
    FourDigits(n);
    RestOfMultiple(n, n / 0x100_0000 / 256, FromBe32(Be32(n)));
  }

  lemma RestOfMultiple(n: nat, k: nat, rest: nat)
    requires n == U32_LIMIT * k + rest && rest < U32_LIMIT
    ensures n % U32_LIMIT == rest
  {
  }

  function EncodeFrame(f: Frame): seq<byte> {
    Be32(4 + |f.data|) + Be32(f.session) + f.data
  }

  /**
   The layout, octet by octet: the length of session and data as a 32-bit number, the session as another, both with
   the largest octet first, and the data.
   */
  lemma FrameLayout(f: Frame)
    ensures var s := EncodeFrame(f);
            && |s| == 8 + |f.data| && s[8..] == f.data && (forall i | 0 <= i < 8 :: 0 <= s[i] < 256)
            && s[0] as int * 16_777_216 + s[1] as int * 65_536 + s[2] as int * 256 + s[3] as int == (4 + |f.data|) % 4_294_967_296
            && s[4] as int * 16_777_216 + s[5] as int * 65_536 + s[6] as int * 256 + s[7] as int == f.session % 4_294_967_296
  {
    Be32RoundTrip(4 + |f.data|);
    Be32RoundTrip(f.session);
    assert EncodeFrame(f)[..4] == Be32(4 + |f.data|) && EncodeFrame(f)[4..8] == Be32(f.session);
  }

  function EncodeAll(frames: seq<Frame>): seq<byte> {
    if frames == [] then [] else EncodeFrame(frames[0]) + EncodeAll(frames[1..])
  }

  /** The frames a reader finds in a stream: empty frames are skipped; a bad length or a cut frame ends it. */
  function Parse(s: seq<byte>): seq<Frame>
    decreases |s|
  {
    if |s| < HEADER_SIZE then []
    else
      var len, session := FromBe32(s[..4]), FromBe32(s[4..8]);
      if len < 4 then []
      else if len == 4 then Parse(s[8..])
      else if |s| < 4 + len then []
      else [Frame(session, s[8..4 + len])] + Parse(s[4 + len..])
  }

  datatype ReadResult = Ended | Skipped | Got(frame: Frame)

  /** One header and its payload. */
  method ReadFrame(source: Source) returns (r: ReadResult)
    requires source.Valid()
    modifies source`pos, source`schedule
    ensures source.Valid()
    ensures Faultless(old(source.schedule)) ==> Faultless(source.schedule)
    ensures r.Ended? && Faultless(old(source.schedule)) ==> Parse(old(source.Rest())) == []
    ensures !r.Ended? ==> |source.Rest()| < |old(source.Rest())|
    ensures r.Skipped? ==> Parse(old(source.Rest())) == Parse(source.Rest())
    ensures r.Got? ==> Parse(old(source.Rest())) == [r.frame] + Parse(source.Rest())
  {
    ghost var start := source.Rest();
    var header := ReadHeader(source);
    if header.None? {
      return Ended;
    }
    var len, session := header.value.0, header.value.1;
    if len < 4 {
      ParseCases(start);
      return Ended;
    }
    if len == 4 {
      ParseCases(start);
      return Skipped;
    }
    ghost var body := source.Rest();
    var data := ReadExact(source, len - 4);
    if data.None? {
      if |body| < len - 4 {
        ParseCases(start);
      }
      return Ended;
    }
    ParseTakes(start, data.value, source.Rest());
    r := Got(Frame(session, data.value));
  }

  /** A header and its whole payload are one frame. */
  lemma ParseTakes(s: seq<byte>, data: seq<byte>, rest: seq<byte>)
    requires |s| >= HEADER_SIZE && FromBe32(s[..4]) == |data| + 4 > 4 && s[HEADER_SIZE..] == data + rest
    ensures Parse(s) == [Frame(FromBe32(s[4..8]), data)] + Parse(rest)
  {
    ParseCases(s);
    TakeAfterHeader(s, |data| + 4, data, rest);
  }

  method ReadHeader(source: Source) returns (r: Option<(nat, nat)>)
    requires source.Valid()
    modifies source`pos, source`schedule
    ensures source.Valid()
    ensures Faultless(old(source.schedule)) ==> Faultless(source.schedule)
    ensures r.None? && Faultless(old(source.schedule)) ==> |old(source.Rest())| < HEADER_SIZE
    ensures r.Some? ==>
              var start := old(source.Rest());
              && |start| >= HEADER_SIZE && source.Rest() == start[HEADER_SIZE..]
              && r.value == (FromBe32(start[..4]), FromBe32(start[4..8]))
  {
    ghost var start := source.Rest();
    var header := ReadExact(source, HEADER_SIZE);
    if header.None? {
      return None;
    }
    TakeHeader(start, header.value, source.Rest());
    r := Some((FromBe32(header.value[..4]), FromBe32(header.value[4..8])));
  }

  lemma ParseCases(s: seq<byte>)
    ensures |s| < HEADER_SIZE ==> Parse(s) == []
    ensures |s| >= HEADER_SIZE ==>
              var len := FromBe32(s[..4]);
              && (len < 4 || (len > 4 && |s| < 4 + len) ==> Parse(s) == [])
              && (len == 4 ==> Parse(s) == Parse(s[8..]))
              && (len > 4 && |s| >= 4 + len ==> Parse(s) == [Frame(FromBe32(s[4..8]), s[8..4 + len])] + Parse(s[4 + len..]))
  {
  }

  lemma TakeHeader(s: seq<byte>, header: seq<byte>, rest: seq<byte>)
    requires s == header + rest && |header| == HEADER_SIZE
    ensures s[..4] == header[..4] && s[4..8] == header[4..8] && s[8..] == rest
  {
  }

  lemma TakeAfterHeader(s: seq<byte>, len: nat, data: seq<byte>, rest: seq<byte>)
    requires |s| >= 8 && len >= 4 && |data| == len - 4 && s[8..] == data + rest
    ensures |s| >= 4 + len && s[8..4 + len] == data && s[4 + len..] == rest
  {
    assert s == s[..8] + (data + rest);
  }

  /** The blocking reader thread: header, payload, header, payload, over any schedule of short reads. */
  method ReadFrames(source: Source) returns (frames: seq<Frame>)
    requires source.Valid()
    modifies source`pos, source`schedule
    ensures frames <= Parse(old(source.Rest()))
    ensures Faultless(old(source.schedule)) ==> frames == Parse(old(source.Rest()))
  {
    frames := [];
    ghost var all := Parse(source.Rest());
    while true
      invariant source.Valid()
      invariant all == frames + Parse(source.Rest())
      invariant Faultless(old(source.schedule)) ==> Faultless(source.schedule)
      decreases |source.Rest()|
    {
      var r := ReadFrame(source);
      match r
      case Ended =>
        return;
      case Skipped =>
      case Got(frame) =>
        AppendAssoc(frames, [frame], Parse(source.Rest()));
        frames := frames + [frame];
    }
  }

  predicate Fits(f: Frame) {
    f.session < U32_LIMIT && 4 + |f.data| < U32_LIMIT
  }

  lemma HeaderSlices(len: seq<byte>, session: seq<byte>, data: seq<byte>, rest: seq<byte>)
    requires |len| == 4 && |session| == 4
    ensures var s := (len + session + data) + rest;
            |s| == 8 + |data| + |rest| && s[..4] == len && s[4..8] == session && s[8..] == data + rest
  {
    assert (len + session + data) + rest == len + (session + (data + rest));
  }

  /** Reading the header back. */
  lemma HeaderReadsBack(f: Frame, rest: seq<byte>)
    requires f.session < U32_LIMIT
    ensures var s := EncodeFrame(f) + rest;
            && |s| == 8 + |f.data| + |rest|
            && FromBe32(s[..4]) == (4 + |f.data|) % U32_LIMIT && FromBe32(s[4..8]) == f.session
            && s[8..] == f.data + rest
  {
    HeaderSlices(Be32(4 + |f.data|), Be32(f.session), f.data, rest);
    Be32RoundTrip(4 + |f.data|);
    Be32RoundTrip(f.session);
  }

  function NonEmpty(frames: seq<Frame>): seq<Frame> {
    if frames == [] then []
    else (if frames[0].data == [] then [] else [frames[0]]) + NonEmpty(frames[1..])
  }

  lemma ParseOne(f: Frame, rest: seq<byte>)
    requires Fits(f)
    ensures Parse(EncodeFrame(f) + rest) == (if f.data == [] then [] else [f]) + Parse(rest)
  {
    var s := EncodeFrame(f) + rest;
    HeaderReadsBack(f, rest);
    assert (4 + |f.data|) % U32_LIMIT == 4 + |f.data|;
    if f.data == [] {
      assert s[8..] == rest;
    } else {
      assert s[8..8 + |f.data|] == f.data && s[8 + |f.data|..] == rest;
    }
  }

  /** Parsing undoes framing, whatever follows. */
  lemma {:induction false} ParseUndoesEncode(frames: seq<Frame>, rest: seq<byte>)
    requires forall f | f in frames :: Fits(f)
    ensures Parse(EncodeAll(frames) + rest) == NonEmpty(frames) + Parse(rest)
    decreases |frames|
  {
    if frames == [] {
      assert [] + rest == rest && [] + Parse(rest) == Parse(rest);
    } else {
      var f, more := frames[0], frames[1..];
      AppendAssoc(EncodeFrame(f), EncodeAll(more), rest);
      ParseOne(f, EncodeAll(more) + rest);
      ParseUndoesEncode(more, rest);
      AppendAssoc(if f.data == [] then [] else [f], NonEmpty(more), Parse(rest));
    }
  }

  /** A frame is read back as itself exactly when its length field does not wrap around 32 bits. */
  lemma FrameReadsBackIff(f: Frame, rest: seq<byte>)
    requires f.session < U32_LIMIT && f.data != []
    ensures var parsed := Parse(EncodeFrame(f) + rest);
            (parsed != [] && parsed[0] == f) <==> 4 + |f.data| < U32_LIMIT
  {
    if 4 + |f.data| < U32_LIMIT {
      ParseOne(f, rest);
    } else {
      ParsedFramesFit(EncodeFrame(f) + rest);
    }
  }

  /** No reader ever produces an empty frame or one too long for its length field. */
  lemma {:induction false} ParsedFramesFit(s: seq<byte>)
    ensures forall f | f in Parse(s) :: Fits(f) && f.data != []
    decreases |s|
  {
    if |s| >= HEADER_SIZE {
      var len := FromBe32(s[..4]);
      if len == 4 {
        ParsedFramesFit(s[8..]);
      } else if 4 < len && 4 + len <= |s| {
        ParsedFramesFit(s[4 + len..]);
      }
    }
  }

  lemma ParseOfLonger(s: seq<byte>, more: seq<byte>, len: nat)
    requires |s| >= HEADER_SIZE && len == FromBe32(s[..4])
    ensures len == 4 ==> Parse(s + more) == Parse(s[8..] + more)
    ensures 4 < len && 4 + len <= |s| ==>
              Parse(s + more) == [Frame(FromBe32(s[4..8]), s[8..4 + len])] + Parse(s[4 + len..] + more)
  {
    SlicesOfLonger(s, more, 0, 4);
    SlicesOfLonger(s, more, 4, 8);
    if 4 < len && 4 + len <= |s| {
      SlicesOfLonger(s, more, 8, 4 + len);
    }
  }

  lemma SamePrefix<T>(first: T, a: seq<T>, b: seq<T>)
    requires a <= b
    ensures [first] + a <= [first] + b
  {
  }

  lemma SameFirstFrame(s: seq<byte>, more: seq<byte>, len: nat)
    requires |s| >= HEADER_SIZE && 4 < len == FromBe32(s[..4]) && 4 + len <= |s|
    requires Parse(s[4 + len..]) <= Parse(s[4 + len..] + more)
    ensures Parse(s) <= Parse(s + more)
  {
    ParseCases(s);
    ParseOfLonger(s, more, len);
    SamePrefix(Frame(FromBe32(s[4..8]), s[8..4 + len]), Parse(s[4 + len..]), Parse(s[4 + len..] + more));
  }

  /** A stream that ends early yields only frames of the full stream, from the front. */
  lemma {:induction false} MoreInputOnlyAddsFrames(s: seq<byte>, more: seq<byte>)
    ensures Parse(s) <= Parse(s + more)
    decreases |s|
  {
    if |s| >= HEADER_SIZE {
      var len := FromBe32(s[..4]);
      if len == 4 {
        MoreInputOnlyAddsFrames(s[8..], more);
        ParseOfLonger(s, more, len);
      } else if 4 < len && 4 + len <= |s| {
        MoreInputOnlyAddsFrames(s[4 + len..], more);
        SameFirstFrame(s, more, len);
      }
    }
  }

  // ---------------------------------------------------------------------------
  // One session's bytes
  // ---------------------------------------------------------------------------

  /** The payloads of one session, joined in order. */
  function DataFor(frames: seq<Frame>, session: nat): seq<byte> {
    if frames == [] then []
    else (if frames[0].session == session then frames[0].data else []) + DataFor(frames[1..], session)
  }

  lemma {:induction false} DataForAppend(a: seq<Frame>, b: seq<Frame>, session: nat)
    ensures DataFor(a + b, session) == DataFor(a, session) + DataFor(b, session)
    decreases |a|
  {
    if a == [] {
      assert a + b == b;
    } else {
      assert (a + b)[0] == a[0] && (a + b)[1..] == a[1..] + b;
      DataForAppend(a[1..], b, session);
    }
  }

  lemma DataForSnoc(a: seq<Frame>, f: Frame, session: nat)
    ensures DataFor(a + [f], session) == DataFor(a, session) + (if f.session == session then f.data else [])
  {
    DataForAppend(a, [f], session);
    assert [f][1..] == [];
    assert DataFor([f], session) == (if f.session == session then f.data else []) + [];
  }

  lemma {:induction false} EmptyFramesCarryNothing(frames: seq<Frame>, session: nat)
    ensures DataFor(NonEmpty(frames), session) == DataFor(frames, session)
    decreases |frames|
  {
    if frames != [] {
      EmptyFramesCarryNothing(frames[1..], session);
      if frames[0].data != [] {
        assert ([frames[0]] + NonEmpty(frames[1..]))[1..] == NonEmpty(frames[1..]);
      } else {
        assert [] + NonEmpty(frames[1..]) == NonEmpty(frames[1..]);
      }
    }
  }

  // ---------------------------------------------------------------------------
  // Stable sort by session
  // ---------------------------------------------------------------------------

  ghost predicate SortedBySession(frames: seq<Frame>) {
    forall i, j | 0 <= i < j < |frames| :: frames[i].session <= frames[j].session
  }

  function OfSession(frames: seq<Frame>, session: nat): seq<Frame> {
    if frames == [] then []
    else (if frames[0].session == session then [frames[0]] else []) + OfSession(frames[1..], session)
  }

  /** `sorted` is `frames` in session order, with each session's frames in their old order. */
  ghost predicate IsStableSort(frames: seq<Frame>, sorted: seq<Frame>) {
    SortedBySession(sorted) && forall s: nat :: OfSession(sorted, s) == OfSession(frames, s)
  }

  /** Insert after every frame of the same or a smaller session; the insertion point of a stable sort. */
  function Insert(sorted: seq<Frame>, f: Frame): seq<Frame>
    decreases |sorted|
  {
    if sorted == [] || sorted[|sorted| - 1].session <= f.session then sorted + [f]
    else Insert(sorted[..|sorted| - 1], f) + [sorted[|sorted| - 1]]
  }

  lemma TailOfAppend<T>(a: seq<T>, b: seq<T>)
    requires a != []
    ensures a + b != [] && (a + b)[0] == a[0] && (a + b)[1..] == a[1..] + b
  {
  }

  lemma {:induction false} OfSessionAppend(a: seq<Frame>, b: seq<Frame>, session: nat)
    ensures OfSession(a + b, session) == OfSession(a, session) + OfSession(b, session)
    decreases |a|
  {
    if a == [] {
      assert a + b == b;
    } else {
      TailOfAppend(a, b);
      OfSessionAppend(a[1..], b, session);
      AppendAssoc(if a[0].session == session then [a[0]] else [], OfSession(a[1..], session), OfSession(b, session));
    }
  }

  lemma OfSessionOne(f: Frame, session: nat)
    ensures OfSession([f], session) == if f.session == session then [f] else []
  {
    assert [f][1..] == [];
  }

  lemma {:induction false} InsertKeepsSessions(sorted: seq<Frame>, f: Frame, session: nat)
    requires SortedBySession(sorted)
    ensures OfSession(Insert(sorted, f), session) == OfSession(sorted, session) + OfSession([f], session)
    decreases |sorted|
  {
    if sorted == [] || sorted[|sorted| - 1].session <= f.session {
      OfSessionAppend(sorted, [f], session);
    } else {
      var front, last := sorted[..|sorted| - 1], sorted[|sorted| - 1];
      InsertKeepsSessions(front, f, session);
      OfSessionAppend(Insert(front, f), [last], session);
      OfSessionAppend(front, [last], session);
      assert sorted == front + [last];
      OfSessionOne(f, session);
      OfSessionOne(last, session);
      SwapEmpty(OfSession(front, session), OfSession([f], session), OfSession([last], session));
    }
  }

  lemma SwapEmpty<T>(a: seq<T>, x: seq<T>, y: seq<T>)
    requires x == [] || y == []
    ensures (a + x) + y == (a + y) + x
  {
  }

  lemma {:induction false} InsertMembers(sorted: seq<Frame>, f: Frame)
    ensures |Insert(sorted, f)| == |sorted| + 1
    ensures forall x | x in Insert(sorted, f) :: x == f || x in sorted
    decreases |sorted|
  {
    if sorted != [] && sorted[|sorted| - 1].session > f.session {
      InsertMembers(sorted[..|sorted| - 1], f);
    }
  }

  lemma {:induction false} InsertKeepsSorted(sorted: seq<Frame>, f: Frame)
    requires SortedBySession(sorted)
    ensures SortedBySession(Insert(sorted, f))
    decreases |sorted|
  {
    if sorted != [] && sorted[|sorted| - 1].session > f.session {
      var front, last := sorted[..|sorted| - 1], sorted[|sorted| - 1];
      InsertKeepsSorted(front, f);
      InsertMembers(front, f);
      var r := Insert(front, f) + [last];
      forall i, j | 0 <= i < j < |r| ensures r[i].session <= r[j].session {
        if j == |r| - 1 {
          assert r[i] in Insert(front, f);
        }
      }
    }
  }

  lemma InsertKeepsStable(frames: seq<Frame>, sorted: seq<Frame>, f: Frame)
    requires IsStableSort(frames, sorted)
    ensures IsStableSort(frames + [f], Insert(sorted, f))
  {
    InsertKeepsSorted(sorted, f);
    forall s: nat ensures OfSession(Insert(sorted, f), s) == OfSession(frames + [f], s) {
      InsertKeepsSessions(sorted, f, s);
      OfSessionAppend(frames, [f], s);
    }
  }

  ghost predicate NoneEmpty(frames: seq<Frame>) {
    forall i | 0 <= i < |frames| :: frames[i].data != []
  }

  lemma {:induction false} MembersOfSession(frames: seq<Frame>, f: Frame)
    ensures f in OfSession(frames, f.session) <==> f in frames
    decreases |frames|
  {
    if frames != [] {
      MembersOfSession(frames[1..], f);
      assert f in frames <==> f == frames[0] || f in frames[1..];
    }
  }

  lemma SortedNoneEmpty(frames: seq<Frame>, sorted: seq<Frame>)
    requires IsStableSort(frames, sorted) && NoneEmpty(frames)
    ensures NoneEmpty(sorted)
  {
    forall i | 0 <= i < |sorted| ensures sorted[i].data != [] {
      var f := sorted[i];
      assert OfSession(sorted, f.session) == OfSession(frames, f.session);
      MembersOfSession(sorted, f);
      MembersOfSession(frames, f);
      assert f in frames;
    }
  }

  lemma {:induction false} BatchNoneEmpty(batches: seq<seq<Frame>>, i: nat)
    requires i < |batches| && NoneEmpty(Concat(batches))
    ensures NoneEmpty(batches[i])
    decreases |batches|
  {
    var all := Concat(batches);
    assert all == batches[0] + Concat(batches[1..]);
    assert all[..|batches[0]|] == batches[0] && all[|batches[0]|..] == Concat(batches[1..]);
    if i > 0 {
      BatchNoneEmpty(batches[1..], i - 1);
    }
  }

  /** Vec::sort_by_key on the session id. */
  method SortBySession(pending: seq<Frame>) returns (sorted: seq<Frame>)
    ensures IsStableSort(pending, sorted)
  {
    sorted := [];
    for i := 0 to |pending|
      invariant IsStableSort(pending[..i], sorted)
    {
      InsertKeepsStable(pending[..i], sorted, pending[i]);
      assert pending[..i + 1] == pending[..i] + [pending[i]];
      sorted := Insert(sorted, pending[i]);
    }
    assert pending[..|pending|] == pending;
  }

  lemma {:induction false} DataOfSession(frames: seq<Frame>, session: nat)
    ensures DataFor(OfSession(frames, session), session) == DataFor(frames, session)
    decreases |frames|
  {
    if frames != [] {
      DataOfSession(frames[1..], session);
      var first := if frames[0].session == session then [frames[0]] else [];
      DataForAppend(first, OfSession(frames[1..], session), session);
      if frames[0].session == session {
        assert [frames[0]][1..] == [];
        assert DataFor([frames[0]], session) == frames[0].data + [];
      }
    }
  }

  // ---------------------------------------------------------------------------
  // One batch: group the sorted frames and push once per session
  // ---------------------------------------------------------------------------

  ghost predicate StrictlyIncreasing(pushes: seq<Frame>) {
    forall i, j | 0 <= i < j < |pushes| :: pushes[i].session < pushes[j].session
  }

  /** The index loop over the sorted batch; `pushes` is what reaches the queues, in order. */
  method PushGroups(sorted: seq<Frame>) returns (pushes: seq<Frame>)
    requires SortedBySession(sorted)
    ensures forall s: nat :: DataFor(pushes, s) == DataFor(sorted, s)
    ensures StrictlyIncreasing(pushes)
    ensures NoneEmpty(sorted) ==> NoneEmpty(pushes)
  {
    pushes := [];
    var i := 0;
    while i < |sorted|
      invariant 0 <= i <= |sorted|
      invariant forall s: nat :: DataFor(pushes, s) == DataFor(sorted[..i], s)
      invariant StrictlyIncreasing(pushes) && (NoneEmpty(sorted) ==> NoneEmpty(pushes))
      invariant i < |sorted| ==> forall k | 0 <= k < |pushes| :: pushes[k].session < sorted[i].session
    {
      var session := sorted[i].session;
      ghost var first := i;
      var combined;
      combined, i := TakeGroup(sorted, i);
      GroupExtends(sorted, first, i, session, combined, pushes);
      pushes := pushes + [Frame(session, combined)];
    }
    assert sorted[..i] == sorted;
  }

  lemma GroupSnoc(sorted: seq<Frame>, first: nat, i: nat, session: nat)
    requires first <= i < |sorted| && sorted[i].session == session
    ensures DataFor(sorted[first..i + 1], session) == DataFor(sorted[first..i], session) + sorted[i].data
  {
    assert sorted[first..i + 1] == sorted[first..i] + [sorted[i]];
    DataForSnoc(sorted[first..i], sorted[i], session);
  }

  /** The inner loop: the chunks of one session that stand together. */
  method TakeGroup(sorted: seq<Frame>, first: nat) returns (combined: seq<byte>, i: nat)
    requires first < |sorted|
    ensures first < i <= |sorted|
    ensures forall k | first <= k < i :: sorted[k].session == sorted[first].session
    ensures i < |sorted| ==> sorted[i].session != sorted[first].session
    ensures combined == DataFor(sorted[first..i], sorted[first].session)
    ensures |combined| >= |sorted[first].data|
  {
    var session := sorted[first].session;
    combined, i := [], first;
    while i < |sorted| && sorted[i].session == session
      invariant first <= i <= |sorted| && (i == first ==> i < |sorted|)
      invariant forall k | first <= k < i :: sorted[k].session == session
      invariant combined == DataFor(sorted[first..i], session)
      invariant i > first ==> |combined| >= |sorted[first].data|
      decreases |sorted| - i
    {
      GroupSnoc(sorted, first, i, session);
      combined := combined + sorted[i].data;
      i := i + 1;
    }
  }

  lemma {:induction false} OtherSessionsHaveNoData(group: seq<Frame>, session: nat, other: nat)
    requires forall k | 0 <= k < |group| :: group[k].session == session
    requires other != session
    ensures DataFor(group, other) == []
    decreases |group|
  {
    if group != [] {
      OtherSessionsHaveNoData(group[1..], session, other);
    }
  }

  lemma GroupExtends(sorted: seq<Frame>, first: nat, i: nat, session: nat, combined: seq<byte>, pushes: seq<Frame>)
    requires first <= i <= |sorted|
    requires forall k | first <= k < i :: sorted[k].session == session
    requires combined == DataFor(sorted[first..i], session)
    requires forall s: nat :: DataFor(pushes, s) == DataFor(sorted[..first], s)
    ensures forall s: nat :: DataFor(pushes + [Frame(session, combined)], s) == DataFor(sorted[..i], s)
  {
    assert sorted[..i] == sorted[..first] + sorted[first..i];
    forall s: nat ensures DataFor(pushes + [Frame(session, combined)], s) == DataFor(sorted[..i], s) {
      DataForSnoc(pushes, Frame(session, combined), s);
      DataForAppend(sorted[..first], sorted[first..i], s);
      if s != session {
        OtherSessionsHaveNoData(sorted[first..i], session, s);
      }
    }
  }

  /** Sort and group one batch of frames. */
  method FlushBatch(pending: seq<Frame>) returns (pushes: seq<Frame>)
    ensures forall s: nat :: DataFor(pushes, s) == DataFor(pending, s)
    ensures StrictlyIncreasing(pushes)
    ensures NoneEmpty(pending) ==> NoneEmpty(pushes)
  {
    var sorted := SortBySession(pending);
    forall s: nat ensures DataFor(sorted, s) == DataFor(pending, s) {
      assert OfSession(sorted, s) == OfSession(pending, s);
      DataOfSession(sorted, s);
      DataOfSession(pending, s);
    }
    if NoneEmpty(pending) {
      SortedNoneEmpty(pending, sorted);
    }
    pushes := PushGroups(sorted);
  }

  /** The consumer loop over the batches that the coalescing window happens to form. */
  method DeliverBatches(batches: seq<seq<Frame>>) returns (pushes: seq<Frame>)
    ensures forall s: nat :: DataFor(pushes, s) == DataFor(Concat(batches), s)
    ensures NoneEmpty(Concat(batches)) ==> NoneEmpty(pushes)
  {
    pushes := [];
    for i := 0 to |batches|
      invariant forall s: nat :: DataFor(pushes, s) == DataFor(Concat(batches[..i]), s)
      invariant NoneEmpty(Concat(batches)) ==> NoneEmpty(pushes)
    {
      if NoneEmpty(Concat(batches)) {
        BatchNoneEmpty(batches, i);
      }
      var batch := FlushBatch(batches[i]);
      forall s: nat ensures DataFor(pushes + batch, s) == DataFor(Concat(batches[..i + 1]), s) {
        DataForAppend(pushes, batch, s);
        ConcatSnoc(batches[..i], batches[i]);
        assert batches[..i + 1] == batches[..i] + [batches[i]];
        DataForAppend(Concat(batches[..i]), batches[i], s);
      }
      pushes := pushes + batch;
    }
    assert batches[..|batches|] == batches;
  }

  /**
   End to end: frames written by the guest, carried as one byte stream under any schedule of short reads,
   batched in any way and pushed to the queues, give every session exactly its bytes in order, in no empty chunk.
   */
  method CarryTerminalData(frames: seq<Frame>, schedule: seq<Reply>, cuts: seq<nat>) returns (pushes: seq<Frame>)
    requires forall f | f in frames :: Fits(f)
    requires Faultless(schedule)
    ensures forall s: nat :: DataFor(pushes, s) == DataFor(frames, s)
    ensures NoneEmpty(pushes)
  {
    var source := new Source(EncodeAll(frames), schedule);
    var received := ReadFrames(source);
    ParseUndoesEncode(frames, []);
    assert EncodeAll(frames) + [] == EncodeAll(frames) && NonEmpty(frames) + Parse([]) == NonEmpty(frames);
    ParsedFramesFit(EncodeAll(frames));
    assert NoneEmpty(received);
    var batches := Split(received, cuts);
    pushes := DeliverBatches(batches);
    forall s: nat ensures DataFor(pushes, s) == DataFor(frames, s) {
      EmptyFramesCarryNothing(frames, s);
    }
  }

  /** Batches of the given sizes, then the rest: every way the window can divide a sequence arises so. */
  function Split<T>(items: seq<T>, sizes: seq<nat>): (batches: seq<seq<T>>)
    ensures Concat(batches) == items
    decreases |sizes|
  {
    if sizes == [] then assert [items][1..] == []; [items]
    else
      var n := Min(sizes[0], |items|);
      var rest := Split(items[n..], sizes[1..]);
      assert ([items[..n]] + rest)[1..] == rest;
      [items[..n]] + rest
  }
}
