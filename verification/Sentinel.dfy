/**
 The exec sentinel scanner of the guest agent.

 A command run through the default shell ends by printing ESC _ CLAWCAGE_EXIT:<id>:<code> ESC \.
 The scanner cuts that marker out of a byte stream that arrives in arbitrary chunks and holds back
 only bytes that may still turn out to belong to a marker.
 */
module Sentinel {
  import opened Basics
  import opened Search
  import opened Streaming
  import opened Decimal

  const ESC: byte := 27
  const BACKSLASH: byte := 92
  const COLON: byte := 58

  const I32_LIMIT: int := 0x8000_0000

  /** What a marker reports: the request id (u64) and the exit code (i32). */
  datatype Exit = Exit(id: nat, code: int)

  /** Split at the first occurrence of `sep`. */
  function SplitOnce(s: seq<byte>, sep: byte): (r: Option<(seq<byte>, seq<byte>)>)
    ensures r.Some? ==> s == r.value.0 + [sep] + r.value.1 && sep !in r.value.0
    ensures r.None? <==> sep !in s
  {
    if s == [] then None
    else if s[0] == sep then assert s == [] + [sep] + s[1..]; Some(([], s[1..]))
    else
      var rest := SplitOnce(s[1..], sep);
      if rest.None? then None
      else
        assert s == ([s[0]] + rest.value.0) + [sep] + rest.value.1;
        Some(([s[0]] + rest.value.0, rest.value.1))
  }

  /** Every octet of a text that both integer parsers accept is ASCII, so the UTF-8 test rejects nothing more. */
  function ParseSentinelPayload(payload: seq<byte>): (r: Option<Exit>)
    ensures r.Some? ==> r.value.id < U64_LIMIT && -I32_LIMIT <= r.value.code < I32_LIMIT
    ensures r.Some? ==> ESC !in payload && forall b | b in payload :: b < 128
  {
    var parts := SplitOnce(payload, COLON);
    if parts.None? then None
    else
      var id := ParseUnsigned(parts.value.0, U64_LIMIT);
      var code := ParseSigned(parts.value.1, I32_LIMIT);
      if id.Some? && code.Some? then Some(Exit(id.value, code.value)) else None
  }

  function PrintPayload(e: Exit): seq<byte>
    requires 0 <= e.id
  {
    Print(e.id) + [COLON] + PrintInt(e.code)
  }

  lemma {:induction false} SplitAtSeparator(a: seq<byte>, sep: byte, b: seq<byte>)
    requires sep !in a
    ensures SplitOnce(a + [sep] + b, sep) == Some((a, b))
  {
    var s := a + [sep] + b;
    if a == [] {
      assert s[1..] == b;
    } else {
      assert s[0] == a[0] && s[1..] == a[1..] + [sep] + b;
      SplitAtSeparator(a[1..], sep, b);
      assert [a[0]] + a[1..] == a;
    }
  }

  /** Parsing undoes printing for exactly the pairs that fit u64 and i32. */
  lemma ParsePrintPayload(e: Exit)
    requires 0 <= e.id
    ensures ParseSentinelPayload(PrintPayload(e)) ==
            if e.id < U64_LIMIT && -I32_LIMIT <= e.code < I32_LIMIT then Some(e) else None
  {
    SplitAtSeparator(Print(e.id), COLON, PrintInt(e.code));
    ParsePrintUnsigned(e.id, U64_LIMIT);
    ParsePrintSigned(e.code, I32_LIMIT);
  }

  /** ESC _ CLAWCAGE_EXIT: <payload> ESC \ */
  const EXIT_MARKER: Marker<Exit> :=
    MarkerShape([ESC] + Ascii("_CLAWCAGE_EXIT:"), [ESC, BACKSLASH], payload => ParseSentinelPayload(payload))

  /** The scanner's held-back bytes, rewritten in place by every call. */
  class Scanner {
    const m: Marker<Exit> := EXIT_MARKER
    var tail: seq<byte>

    constructor ()
      ensures tail == []
    {
      tail := [];
    }

    method ScanAndStrip(newData: seq<byte>) returns (forward: seq<byte>, result: Option<Exit>)
      modifies this
      ensures Scan(forward, tail, result) == ScanWhole(EXIT_MARKER, old(tail) + newData)
    {
      tail := tail + newData;
      var start := FindSubsequence(tail, m.prefix);
      if start.Some? {
        var afterSentinel;
        result, afterSentinel := ReadMarker(m, tail, start.value);
        forward := tail[..start.value];
        tail := tail[if result.Some? then afterSentinel else start.value..];
      } else {
        result := None;
        var keep := CountKept(m, tail);
        if |tail| > keep {
          var forwardEnd := |tail| - keep;
          forward := tail[..forwardEnd];
          tail := tail[forwardEnd..];
        } else {
          forward := [];
        }
      }
    }
  }

  // ---------------------------------------------------------------------------
  // Reading back a marker that was printed
  // ---------------------------------------------------------------------------

  /** The bytes a finished command leaves on the terminal. */
  function MarkerText(e: Exit): seq<byte>
    requires 0 <= e.id
  {
    EXIT_MARKER.prefix + PrintPayload(e) + EXIT_MARKER.terminator
  }

  lemma DelimitersStartUniquely()
    ensures HeadIsUnique(EXIT_MARKER.prefix) && HeadIsUnique(EXIT_MARKER.terminator)
    ensures EXIT_MARKER.prefix[0] == EXIT_MARKER.terminator[0] == ESC
  {
    var name := Ascii("_CLAWCAGE_EXIT:");
    forall i | 0 < i < |EXIT_MARKER.prefix| ensures EXIT_MARKER.prefix[i] != ESC {
      assert EXIT_MARKER.prefix[i] == name[i - 1];
    }
  }

  /** Any well-formed payload between the delimiters is found and reported, with nothing else cut out. */
  lemma PrintedMarkerIsCutOut(before: seq<byte>, payload: seq<byte>, after: seq<byte>)
    requires ParseSentinelPayload(payload).Some?
    requires FindSubsequence(before, EXIT_MARKER.prefix).None?
    ensures ScanWhole(EXIT_MARKER, before + (EXIT_MARKER.prefix + payload + EXIT_MARKER.terminator) + after)
         == Scan(before, after, ParseSentinelPayload(payload))
  {
    DelimitersStartUniquely();
    PlainMarkerIsCutOut(EXIT_MARKER, before, payload, after);
  }

  /**
   The exit of a command is reported, and its output passed on untouched, exactly when the output itself
   holds no marker prefix.
   */
  lemma ReportedExactlyWhenOutputHasNoPrefix(before: seq<byte>, e: Exit, after: seq<byte>)
    requires 0 <= e.id < U64_LIMIT && -I32_LIMIT <= e.code < I32_LIMIT
    ensures ScanWhole(EXIT_MARKER, before + MarkerText(e) + after) == Scan(before, after, Some(e))
            <==> FindSubsequence(before, EXIT_MARKER.prefix).None?
  {
    var m := EXIT_MARKER;
    ParsePrintPayload(e);
    if FindSubsequence(before, m.prefix).None? {
      PrintedMarkerIsCutOut(before, PrintPayload(e), after);
    } else {
      FoundStays(before, MarkerText(e) + after, m.prefix);
      assert before + MarkerText(e) + after == before + (MarkerText(e) + after);
      assert |ScanWhole(m, before + MarkerText(e) + after).forward| < |before|;
    }
  }
}
