/**
 Cutting a delimited marker out of a stream that arrives in chunks, for any delimiters and any parser
 of what stands between them.
 */
module Streaming {
  import opened Basics
  import opened Search

  datatype MarkerShape<!R> = MarkerShape(prefix: seq<byte>, terminator: seq<byte>, parse: seq<byte> -> Option<R>)

  type Marker<!R> = m: MarkerShape<R> | m.prefix != [] && m.terminator != []
    witness MarkerShape([0], [0], _ => None)

  // ---------------------------------------------------------------------------
  // One-shot search of a whole stream
  // ---------------------------------------------------------------------------

  /** What became of a stream: the bytes passed on, the bytes held back, and the marker cut out. */
  datatype Scan<R> = Scan(forward: seq<byte>, tail: seq<byte>, result: Option<R>)

  /** The marker at a known prefix position: where its payload ends, if it is complete and parses. */
  function MarkerEnd<R>(m: Marker<R>, stream: seq<byte>, start: nat): (r: Option<nat>)
    requires start + |m.prefix| <= |stream|
    ensures r.Some? ==> start + |m.prefix| <= r.value && r.value + |m.terminator| <= |stream|
    ensures r.Some? ==> m.parse(stream[start + |m.prefix|..r.value]).Some?
  {
    var body := stream[start + |m.prefix|..];
    var term := FindSubsequence(body, m.terminator);
    if term.Some? && m.parse(body[..term.value]).Some? then
      assert body[..term.value] == stream[start + |m.prefix|..start + |m.prefix| + term.value];
      Some(start + |m.prefix| + term.value)
    else None
  }

  /** The outcome when the first prefix stands at `start`. */
  function ScanFound<R>(m: Marker<R>, stream: seq<byte>, start: nat): Scan<R>
    requires start + |m.prefix| <= |stream|
  {
    var end := MarkerEnd(m, stream, start);
    if end.None? then Scan(stream[..start], stream[start..], None)
    else Scan(stream[..start], stream[end.value + |m.terminator|..], m.parse(stream[start + |m.prefix|..end.value]))
  }

  /** The search over a stream that is available as a whole. */
  function ScanWhole<R>(m: Marker<R>, stream: seq<byte>): Scan<R> {
    var start := FindSubsequence(stream, m.prefix);
    if start.None? then
      var cut := |stream| - Keep(stream, m.prefix);
      Scan(stream[..cut], stream[cut..], None)
    else ScanFound(m, stream, start.value)
  }

  /** The backwards loop over the proper prefixes of the marker: how many bytes to hold back. */
  method CountKept<R>(m: Marker<R>, tail: seq<byte>) returns (keep: nat)
    ensures keep == Keep(tail, m.prefix)
  {
    keep := 0;
    var i := |m.prefix| - 1;
    while 1 <= i
      invariant 0 <= i < |m.prefix| && keep == 0
      invariant forall j | i < j < |m.prefix| :: !EndsWithPrefix(tail, m.prefix, j)
    {
      if EndsWithPrefix(tail, m.prefix, i) {
        keep := i;
        break;
      }
      i := i - 1;
    }
    KeepIsLongest(tail, m.prefix, keep);
  }

  /** The terminator and the payload of the marker that starts at `start`. */
  method ReadMarker<R>(m: Marker<R>, tail: seq<byte>, start: nat) returns (result: Option<R>, afterSentinel: nat)
    requires start + |m.prefix| <= |tail|
    ensures result.Some? <==> MarkerEnd(m, tail, start).Some?
    ensures result.Some? ==> var end := MarkerEnd(m, tail, start).value;
                             result == m.parse(tail[start + |m.prefix|..end]) && afterSentinel == end + |m.terminator|
  {
    result, afterSentinel := None, 0;
    var afterPrefix := start + |m.prefix|;
    var termOffset := FindSubsequence(tail[afterPrefix..], m.terminator);
    if termOffset.Some? {
      var termPos := afterPrefix + termOffset.value;
      assert tail[afterPrefix..termPos] == tail[afterPrefix..][..termOffset.value];
      result := m.parse(tail[afterPrefix..termPos]);
      afterSentinel := termPos + |m.terminator|;
    }
  }

  // ---------------------------------------------------------------------------
  // Streaming refines the one-shot search
  // ---------------------------------------------------------------------------

  /** One read during an exec: after a marker was found, further bytes just follow. */
  function Feed<R>(m: Marker<R>, sofar: Scan<R>, chunk: seq<byte>): Scan<R> {
    if sofar.result.Some? then sofar.(tail := sofar.tail + chunk)
    else
      var step := ScanWhole(m, sofar.tail + chunk);
      Scan(sofar.forward + step.forward, step.tail, step.result)
  }

  function FeedAll<R>(m: Marker<R>, sofar: Scan<R>, chunks: seq<seq<byte>>): Scan<R>
    decreases |chunks|
  {
    if |chunks| == 0 then sofar else FeedAll(m, Feed(m, sofar, chunks[0]), chunks[1..])
  }

  lemma MarkerEndStays<R>(m: Marker<R>, s: seq<byte>, more: seq<byte>, start: nat)
    requires start + |m.prefix| <= |s|
    requires MarkerEnd(m, s, start).Some?
    ensures MarkerEnd(m, s + more, start) == MarkerEnd(m, s, start)
  {
    var after := start + |m.prefix|;
    var body := s[after..];
    var term := FindSubsequence(body, m.terminator).value;
    assert (s + more)[after..] == body + more;
    FoundStays(body, more, m.terminator);
    assert (body + more)[..term] == body[..term];
  }

  lemma MarkerEndAfterCut<R>(m: Marker<R>, s: seq<byte>, cut: nat, start: nat)
    requires cut <= start && start + |m.prefix| <= |s|
    ensures var cutEnd := MarkerEnd(m, s[cut..], start - cut);
            MarkerEnd(m, s, start) == if cutEnd.Some? then Some(cut + cutEnd.value) else None
  {
    assert s[cut..][start - cut + |m.prefix|..] == s[start + |m.prefix|..];
  }

  lemma SlicesAfterCut<T>(s: seq<T>, cut: nat, i: nat, j: nat)
    requires cut <= i <= j <= |s|
    ensures s[cut..][i - cut..j - cut] == s[i..j]
    ensures s[..cut] + s[cut..][..j - cut] == s[..j]
    ensures s[cut..][j - cut..] == s[j..]
  {
  }

  /** Scanning what was held back from `cut` on equals scanning everything: no prefix anywhere. */
  lemma ScanAfterCutNone<R>(m: Marker<R>, s: seq<byte>, cut: nat)
    requires cut <= |s|
    requires FindSubsequence(s, m.prefix).None?
    requires Keep(s[cut..], m.prefix) == Keep(s, m.prefix)
    ensures var rest := ScanWhole(m, s[cut..]);
            ScanWhole(m, s) == Scan(s[..cut] + rest.forward, rest.tail, rest.result)
  {
    FindAfterCut(s, m.prefix, cut);
    var k := Keep(s, m.prefix);
    SlicesAfterCut(s, cut, |s| - k, |s| - k);
  }

  lemma ScanFoundAfterCut<R>(m: Marker<R>, s: seq<byte>, cut: nat, start: nat)
    requires cut <= start && start + |m.prefix| <= |s|
    ensures var rest := ScanFound(m, s[cut..], start - cut);
            ScanFound(m, s, start) == Scan(s[..cut] + rest.forward, rest.tail, rest.result)
  {
    MarkerEndAfterCut(m, s, cut, start);
    var end := MarkerEnd(m, s, start);
    SlicesAfterCut(s, cut, start, start);
    if end.Some? {
      SlicesAfterCut(s, cut, start + |m.prefix|, end.value);
      SlicesAfterCut(s, cut, end.value + |m.terminator|, end.value + |m.terminator|);
    }
  }

  /** The same when the first prefix stands at `start`. */
  lemma ScanAfterCutSome<R>(m: Marker<R>, s: seq<byte>, cut: nat, start: nat)
    requires cut <= start && FindSubsequence(s, m.prefix) == Some(start)
    ensures var rest := ScanWhole(m, s[cut..]);
            ScanWhole(m, s) == Scan(s[..cut] + rest.forward, rest.tail, rest.result)
  {
    FindAfterCut(s, m.prefix, cut);
    ScanFoundAfterCut(m, s, cut, start);
  }

  /** One more chunk after a scan that saw no prefix. */
  lemma FeedExtendsPlain<R>(m: Marker<R>, s: seq<byte>, chunk: seq<byte>)
    requires FindSubsequence(s, m.prefix).None?
    ensures Feed(m, ScanWhole(m, s), chunk) == ScanWhole(m, s + chunk)
  {
    var cut := |s| - Keep(s, m.prefix);
    var t := s + chunk;
    forall i | 0 <= i < cut ensures !OccursAt(t, m.prefix, i) {
      NoneStartsBeforeKeep(s, chunk, m.prefix, i);
    }
    assert t[cut..] == s[cut..] + chunk && t[..cut] == s[..cut];
    var found := FindSubsequence(t, m.prefix);
    if found.None? {
      KeepAfterCut(s, chunk, m.prefix);
      ScanAfterCutNone(m, t, cut);
    } else {
      ScanAfterCutSome(m, t, cut, found.value);
    }
  }

  lemma OpenScanHoldsFromPrefix<R>(m: Marker<R>, s: seq<byte>)
    requires FindSubsequence(s, m.prefix).Some?
    requires ScanWhole(m, s).result.None?
    ensures var start := FindSubsequence(s, m.prefix).value;
            ScanWhole(m, s) == Scan(s[..start], s[start..], None)
  {
  }

  /** One more chunk after a scan that saw a prefix but no complete marker. */
  lemma FeedExtendsOpen<R>(m: Marker<R>, s: seq<byte>, chunk: seq<byte>)
    requires FindSubsequence(s, m.prefix).Some?
    requires ScanWhole(m, s).result.None?
    ensures Feed(m, ScanWhole(m, s), chunk) == ScanWhole(m, s + chunk)
  {
    var start := FindSubsequence(s, m.prefix).value;
    OpenScanHoldsFromPrefix(m, s);
    FoundStays(s, chunk, m.prefix);
    ScanAfterCutSome(m, s + chunk, start, start);
    SlicesOfLonger(s, chunk, start, start);
  }

  lemma ScanFoundStays<R>(m: Marker<R>, s: seq<byte>, chunk: seq<byte>, start: nat)
    requires start + |m.prefix| <= |s| && MarkerEnd(m, s, start).Some?
    ensures var r := ScanFound(m, s, start);
            ScanFound(m, s + chunk, start) == r.(tail := r.tail + chunk)
  {
    MarkerEndStays(m, s, chunk, start);
    var end := MarkerEnd(m, s, start).value;
    var after := end + |m.terminator|;
    SlicesOfLonger(s, chunk, start + |m.prefix|, end);
    SlicesOfLonger(s, chunk, start, start);
    SlicesOfLonger(s, chunk, after, after);
  }

  /** One more chunk after a complete marker. */
  lemma FeedExtendsFound<R>(m: Marker<R>, s: seq<byte>, chunk: seq<byte>)
    requires ScanWhole(m, s).result.Some?
    ensures Feed(m, ScanWhole(m, s), chunk) == ScanWhole(m, s + chunk)
  {
    FoundStays(s, chunk, m.prefix);
    ScanFoundStays(m, s, chunk, FindSubsequence(s, m.prefix).value);
  }

  /** Feeding one more chunk to a scan of `s` gives the scan of `s` and the chunk together. */
  lemma FeedExtendsScan<R>(m: Marker<R>, s: seq<byte>, chunk: seq<byte>)
    ensures Feed(m, ScanWhole(m, s), chunk) == ScanWhole(m, s + chunk)
  {
    if ScanWhole(m, s).result.Some? {
      FeedExtendsFound(m, s, chunk);
    } else if FindSubsequence(s, m.prefix).Some? {
      FeedExtendsOpen(m, s, chunk);
    } else {
      FeedExtendsPlain(m, s, chunk);
    }
  }

  lemma {:induction false} FeedAllExtendsScan<R>(m: Marker<R>, s: seq<byte>, chunks: seq<seq<byte>>)
    ensures FeedAll(m, ScanWhole(m, s), chunks) == ScanWhole(m, s + Concat(chunks))
    decreases |chunks|
  {
    if chunks == [] {
      assert s + [] == s;
    } else {
      FeedExtendsScan(m, s, chunks[0]);
      FeedAllExtendsScan(m, s + chunks[0], chunks[1..]);
      assert s + chunks[0] + Concat(chunks[1..]) == s + Concat(chunks);
    }
  }

  /**
   Chunk invariance: however a stream is split into reads, the forwarded bytes, the reported exit and
   the leftover are those of one search over the whole stream.
   */
  lemma ChunkInvariance<R>(m: Marker<R>, chunks: seq<seq<byte>>)
    ensures FeedAll(m, Scan([], [], None), chunks) == ScanWhole(m, Concat(chunks))
  {
    assert ScanWhole(m, []) == Scan([], [], None);
    FeedAllExtendsScan(m, [], chunks);
    assert [] + Concat(chunks) == Concat(chunks);
  }

  // ---------------------------------------------------------------------------
  // What a scan means
  // ---------------------------------------------------------------------------

  /** `text` is one marker, delimiters and all, whose payload parses to `result`. */
  ghost predicate IsMarkerText<R>(m: Marker<R>, text: seq<byte>, result: Option<R>) {
    var body := |m.prefix|;
    var end := |text| - |m.terminator|;
    && result.Some? && body <= end
    && text[..body] == m.prefix && text[end..] == m.terminator && m.parse(text[body..end]) == result
  }

  lemma CompleteMarkerText<R>(m: Marker<R>, stream: seq<byte>, start: nat)
    requires OccursAt(stream, m.prefix, start) && MarkerEnd(m, stream, start).Some?
    ensures var end := MarkerEnd(m, stream, start).value;
            IsMarkerText(m, stream[start..end + |m.terminator|], m.parse(stream[start + |m.prefix|..end]))
  {
    var body := start + |m.prefix|;
    var end := MarkerEnd(m, stream, start).value;
    var after := end + |m.terminator|;
    SliceOfSlice(stream, body, |stream|, end, after);
    SliceOfSlice(stream, start, after, start, body);
    SliceOfSlice(stream, start, after, body, end);
    SliceOfSlice(stream, start, after, end, after);
  }

  /** `r` passes on and holds back all of `stream` in order, except for one marker with the reported content. */
  ghost predicate Conserves<R>(m: Marker<R>, stream: seq<byte>, r: Scan<R>) {
    if r.result.None? then stream == r.forward + r.tail
    else
      var i, j := |r.forward|, |stream| - |r.tail|;
      && i <= j
      && stream[..i] == r.forward && stream[j..] == r.tail
      && IsMarkerText(m, stream[i..j], r.result)
  }

  lemma FoundScanConserves<R>(m: Marker<R>, stream: seq<byte>, start: nat)
    requires OccursAt(stream, m.prefix, start)
    ensures Conserves(m, stream, ScanFound(m, stream, start))
  {
    if MarkerEnd(m, stream, start).None? {
      OpenMarkerConserves(m, stream, start);
    } else {
      ScanFoundIs(m, stream, start, MarkerEnd(m, stream, start).value);
      CompleteMarkerText(m, stream, start);
      CutOutConserves(m, stream, start, MarkerEnd(m, stream, start).value);
    }
  }

  lemma OpenMarkerConserves<R>(m: Marker<R>, stream: seq<byte>, start: nat)
    requires OccursAt(stream, m.prefix, start) && MarkerEnd(m, stream, start).None?
    ensures Conserves(m, stream, ScanFound(m, stream, start))
  {
    assert stream == stream[..start] + stream[start..];
  }

  /** The outcome of a scan that cuts out the marker between `start` and the terminator at `end`. */
  function CutOut<R>(m: Marker<R>, stream: seq<byte>, start: nat, end: nat): Scan<R>
    requires start + |m.prefix| <= end && end + |m.terminator| <= |stream|
  {
    Scan(stream[..start], stream[end + |m.terminator|..], m.parse(stream[start + |m.prefix|..end]))
  }

  lemma ScanFoundIs<R>(m: Marker<R>, stream: seq<byte>, start: nat, end: nat)
    requires start + |m.prefix| <= |stream| && MarkerEnd(m, stream, start) == Some(end)
    ensures ScanFound(m, stream, start) == CutOut(m, stream, start, end)
  {
  }

  lemma CutOutConserves<R>(m: Marker<R>, stream: seq<byte>, start: nat, end: nat)
    requires start + |m.prefix| <= end && end + |m.terminator| <= |stream|
    requires IsMarkerText(m, stream[start..end + |m.terminator|], m.parse(stream[start + |m.prefix|..end]))
    ensures Conserves(m, stream, CutOut(m, stream, start, end))
  {
  }

  /** Nothing is lost or reordered, and what is cut out is exactly one marker with the reported content. */
  lemma ScanConserves<R>(m: Marker<R>, stream: seq<byte>)
    ensures Conserves(m, stream, ScanWhole(m, stream))
  {
    var found := FindSubsequence(stream, m.prefix);
    if found.Some? {
      FoundScanConserves(m, stream, found.value);
    }
  }

  lemma MarkerEndAt<R>(m: Marker<R>, front: seq<byte>, payload: seq<byte>, after: seq<byte>)
    requires |m.prefix| <= |front|
    requires m.parse(payload).Some?
    requires FindSubsequence(payload + (m.terminator + after), m.terminator) == Some(|payload|)
    ensures MarkerEnd(m, front + (payload + (m.terminator + after)), |front| - |m.prefix|) == Some(|front| + |payload|)
  {
    var body := payload + (m.terminator + after);
    assert (front + body)[|front|..] == body;
    assert body[..|payload|] == payload;
  }

  lemma ScanFoundAt<R>(m: Marker<R>, before: seq<byte>, payload: seq<byte>, after: seq<byte>)
    requires m.parse(payload).Some?
    requires FindSubsequence(payload + (m.terminator + after), m.terminator) == Some(|payload|)
    ensures ScanFound(m, (before + m.prefix) + (payload + (m.terminator + after)), |before|)
         == Scan(before, after, m.parse(payload))
  {
    var front := before + m.prefix;
    MarkerEndAt(m, front, payload, after);
    FourSlices(before, m.prefix, payload, m.terminator, after);
  }

  lemma FourSlices<T>(a: seq<T>, b: seq<T>, c: seq<T>, d: seq<T>, e: seq<T>)
    ensures var s, i := (a + b) + (c + (d + e)), |a| + |b|;
            s[..|a|] == a && s[i..i + |c|] == c && s[i + |c| + |d|..] == e
  {
    var tail := c + (d + e);
    assert ((a + b) + tail)[..|a|] == (a + b)[..|a|] == a;
    assert tail[..|c|] == c && tail[|c| + |d|..] == e;
  }

  /** A complete marker whose delimiters are the first in their place is cut out and reported. */
  lemma FirstMarkerIsCutOut<R>(m: Marker<R>, before: seq<byte>, payload: seq<byte>, after: seq<byte>)
    requires m.parse(payload).Some?
    requires FindSubsequence(before + (m.prefix + (payload + (m.terminator + after))), m.prefix) == Some(|before|)
    requires FindSubsequence(payload + (m.terminator + after), m.terminator) == Some(|payload|)
    ensures ScanWhole(m, before + (m.prefix + (payload + (m.terminator + after)))) == Scan(before, after, m.parse(payload))
  {
    var body := payload + (m.terminator + after);
    ScanFoundAt(m, before, payload, after);
    AppendAssoc(before, m.prefix, body);
  }

  lemma Reassociate<T>(a: seq<T>, b: seq<T>, c: seq<T>, d: seq<T>, e: seq<T>)
    ensures a + (b + c + d) + e == a + (b + (c + (d + e)))
  {
  }

  /** The same for output that holds no prefix and a payload that cannot hold a terminator. */
  lemma PlainMarkerIsCutOut<R>(m: Marker<R>, before: seq<byte>, payload: seq<byte>, after: seq<byte>)
    requires HeadIsUnique(m.prefix) && HeadIsUnique(m.terminator)
    requires m.parse(payload).Some? && m.terminator[0] !in payload
    requires FindSubsequence(before, m.prefix).None?
    ensures ScanWhole(m, before + (m.prefix + payload + m.terminator) + after) == Scan(before, after, m.parse(payload))
  {
    FirstAfterPlainText(before, m.prefix, payload + (m.terminator + after));
    NoneWithoutHead(payload, m.terminator);
    FirstAfterPlainText(payload, m.terminator, after);
    FirstMarkerIsCutOut(m, before, payload, after);
    Reassociate(before, m.prefix, payload, m.terminator, after);
  }

  /** Whatever arrives later, no marker can start among the first `n` bytes of `stream`. */
  ghost predicate SafeToForward<R>(m: Marker<R>, stream: seq<byte>, n: int) {
    forall more: seq<byte>, i | 0 <= i < n :: !OccursAt(stream + more, m.prefix, i)
  }

  /** An unfinished scan forwards every byte it safely can and holds back only what may begin a marker. */
  lemma ForwardIsLongestSafe<R>(m: Marker<R>, stream: seq<byte>, n: nat)
    requires ScanWhole(m, stream).result.None?
    ensures SafeToForward(m, stream, n) && n <= |stream| <==> n <= |ScanWhole(m, stream).forward|
  {
    var found := FindSubsequence(stream, m.prefix);
    var cut := |ScanWhole(m, stream).forward|;
    forall more: seq<byte>, i | 0 <= i < cut ensures !OccursAt(stream + more, m.prefix, i) {
      if found.None? {
        NoneStartsBeforeKeep(stream, more, m.prefix, i);
      } else {
        FoundStays(stream, more, m.prefix);
      }
    }
    if cut < |stream| {
      var more := if found.None? then m.prefix[|stream| - cut..] else [];
      if found.None? {
        KeepIsNeeded(stream, m.prefix);
      } else {
        assert stream + [] == stream;
      }
      assert OccursAt(stream + more, m.prefix, cut);
    }
  }
}
