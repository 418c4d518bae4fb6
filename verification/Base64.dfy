/**
 The hand-written base64 encoder and decoder for icons, against the bit-string reading of section 4 of
 RFC 4648. Both group sizes are even, so the bit string is written two bits at a time.
 */
module Base64 {
  import opened Basics

  // ---------------------------------------------------------------------------
  // Bit strings, as base-4 digits
  // ---------------------------------------------------------------------------

  /** The last `n` bit pairs of a number, most significant first. */
  function Digits(v: nat, n: nat): (s: seq<nat>)
    ensures |s| == n
    decreases v, n
  {
    if n == 0 then [] else Digits(v / 4, n - 1) + [v % 4]
  }

  /** 4 to the power `n` */
  function Unit(n: nat): (u: nat)
    ensures u > 0
  {
    if n == 0 then 1 else 4 * Unit(n - 1)
  }

  /** The number with the digits of `lo`, of which there are `m`, after those of `hi`. */
  function Joined(hi: nat, lo: nat, m: nat): (v: nat)
    decreases m
  {
    if m == 0 then hi else 4 * Joined(hi, lo / 4, m - 1) + lo % 4
  }

  lemma {:induction false} DigitsOfJoined(hi: nat, n: nat, lo: nat, m: nat)
    ensures Digits(Joined(hi, lo, m), n + m) == Digits(hi, n) + Digits(lo, m)
    decreases m
  {
    if m > 0 {
      var v := Joined(hi, lo / 4, m - 1);
      By4(v, lo % 4);
      DigitsOfJoined(hi, n, lo / 4, m - 1);
      assert Digits(4 * v + lo % 4, n + m) == Digits(v, n + m - 1) + [lo % 4];
      AppendAssoc(Digits(hi, n), Digits(lo / 4, m - 1), [lo % 4]);
    } else {
      assert Digits(hi, n) + [] == Digits(hi, n);
    }
  }

  lemma By4(q: nat, r: nat)
    requires r < 4
    ensures (4 * q + r) / 4 == q && (4 * q + r) % 4 == r
  {
  }

  /** Writing two numbers one after the other is shifting the first and adding the second. */
  lemma {:induction false} JoinedIsSum(hi: nat, lo: nat, m: nat)
    requires lo < Unit(m)
    ensures Joined(hi, lo, m) == hi * Unit(m) + lo
    decreases m
  {
    if m > 0 {
      JoinedIsSum(hi, lo / 4, m - 1);
      Distribute(hi, Unit(m - 1));
    }
  }

  lemma Distribute(a: nat, b: nat)
    ensures a * (4 * b) == 4 * (a * b)
  {
  }

  lemma {:induction false} DigitsDetermineNumber(a: nat, b: nat, n: nat)
    requires a < Unit(n) && b < Unit(n) && Digits(a, n) == Digits(b, n)
    ensures a == b
    decreases n
  {
    if n > 0 {
      var x, y := Digits(a / 4, n - 1), Digits(b / 4, n - 1);
      LastGroups(x, [a % 4], y, [b % 4]);
      assert [a % 4][0] == [b % 4][0];
      DigitsDetermineNumber(a / 4, b / 4, n - 1);
    }
  }

  lemma LastGroups<T>(a: seq<T>, x: seq<T>, b: seq<T>, y: seq<T>)
    requires a + x == b + y && |x| == |y|
    ensures a == b && x == y
  {
    assert |a| == |b|;
    assert a == (a + x)[..|a|] == b;
    assert x == (a + x)[|a|..] == y;
  }

  lemma Units()
    ensures Unit(0) == 1 && Unit(1) == 4 && Unit(2) == 16 && Unit(3) == 64 && Unit(4) == 256
    ensures Unit(5) == 1024 && Unit(6) == 4096
  {
  }

  lemma TwoNumbers(hi: nat, n: nat, lo: nat, m: nat, u: nat)
    requires u == Unit(m) && lo < u
    ensures hi * u + lo >= 0 && Digits(hi * u + lo, n + m) == Digits(hi, n) + Digits(lo, m)
  {
    JoinedIsSum(hi, lo, m);
    DigitsOfJoined(hi, n, lo, m);
  }

  /** The bit string of numbers of `n` bit pairs each. */
  function Bits(values: seq<nat>, n: nat): (s: seq<nat>)
    ensures |s| == n * |values|
  {
    if values == [] then [] else
      var last := |values| - 1;
      assert n * last + n == n * |values|;
      Bits(values[..last], n) + Digits(values[last], n)
  }

  lemma BitsSnoc(values: seq<nat>, n: nat, v: nat)
    ensures Bits(values + [v], n) == Bits(values, n) + Digits(v, n)
  {
    assert (values + [v])[..|values|] == values;
  }

  lemma {:induction false} BitsDetermineNumbers(x: seq<nat>, y: seq<nat>, n: nat)
    requires |x| == |y| && Bits(x, n) == Bits(y, n)
    requires forall i | 0 <= i < |x| :: x[i] < Unit(n) && y[i] < Unit(n)
    ensures x == y
    decreases |x|
  {
    if x != [] {
      var last := |x| - 1;
      LastGroups(Bits(x[..last], n), Digits(x[last], n), Bits(y[..last], n), Digits(y[last], n));
      DigitsDetermineNumber(x[last], y[last], n);
      BitsDetermineNumbers(x[..last], y[..last], n);
      assert x == x[..last] + [x[last]] && y == y[..last] + [y[last]];
    }
  }

  function OfBytes(bytes: seq<byte>): (s: seq<nat>)
    ensures |s| == 4 * |bytes|
  {
    Bits(bytes, 4)
  }

  function OfSextets(sextets: seq<nat>): (s: seq<nat>)
    ensures |s| == 3 * |sextets|
  {
    Bits(sextets, 3)
  }

  lemma OfBytesSnoc(bytes: seq<byte>, b: byte)
    ensures OfBytes(bytes + [b]) == OfBytes(bytes) + Digits(b, 4)
  {
    BitsSnoc(bytes, 4, b);
  }

  lemma OfSextetsSnoc(sextets: seq<nat>, v: nat)
    ensures OfSextets(sextets + [v]) == OfSextets(sextets) + Digits(v, 3)
  {
    BitsSnoc(sextets, 3, v);
  }

  // ---------------------------------------------------------------------------
  // The alphabet
  // ---------------------------------------------------------------------------

  const EQUALS: byte := 61
  const COMMA: byte := 44
  const COLON: byte := 58

  /** The table of 64 characters, by ranges: A to Z, a to z, 0 to 9, plus, slash. */
  function Symbol(v: nat): (b: byte)
    requires v < 64
  {
    if v < 26 then 65 + v else if v < 52 then 71 + v else if v < 62 then v - 4 else if v == 62 then 43 else 47
  }

  /** The ranges, by their characters. */
  lemma SymbolIs(v: nat)
    requires v < 64
    ensures v < 26 ==> Symbol(v) == 'A' as int + v
    ensures 26 <= v < 52 ==> Symbol(v) == 'a' as int + (v - 26)
    ensures 52 <= v < 62 ==> Symbol(v) == '0' as int + (v - 52)
    ensures v == 62 ==> Symbol(v) == '+' as int
    ensures v == 63 ==> Symbol(v) == '/' as int
  {
  }

  predicate Ignored(ch: byte) {
    ch == EQUALS || ch == 10 || ch == 13 || ch == 32
  }

  /** The first table position of a character, from `from` on. */
  function PositionFrom(ch: byte, from: nat): (r: Option<nat>)
    requires from <= 64
    ensures r.Some? ==> from <= r.value < 64 && Symbol(r.value) == ch
    ensures r.None? ==> forall v: nat | from <= v < 64 :: Symbol(v) != ch
    decreases 64 - from
  {
    if from == 64 then None else if Symbol(from) == ch then Some(from) else PositionFrom(ch, from + 1)
  }

  function Position(ch: byte): (r: Option<nat>)
    ensures r.Some? ==> r.value < 64 && Symbol(r.value) == ch
  {
    PositionFrom(ch, 0)
  }

  /** Every symbol stands in the table once and none is skipped by the decoder. */
  lemma SymbolsAreDistinct(v: nat)
    requires v < 64
    ensures Position(Symbol(v)) == Some(v) && !Ignored(Symbol(v)) && Symbol(v) != COMMA && Symbol(v) != COLON
  {
    var r := PositionFrom(Symbol(v), 0);
    assert r.Some?;
  }

  /** The values of the characters that are not skipped, or None at the first one outside the alphabet. */
  function Sextets(b64: seq<byte>): (r: Option<seq<nat>>)
    ensures r.Some? ==> |r.value| <= |b64| && forall i | 0 <= i < |r.value| :: r.value[i] < 64
  {
    if b64 == [] then Some([])
    else
      var front := Sextets(b64[..|b64| - 1]);
      var ch := b64[|b64| - 1];
      if front.None? || Ignored(ch) then front
      else if Position(ch).None? then None
      else Some(front.value + [Position(ch).value])
  }

  lemma OneMoreCharacter(b64: seq<byte>, i: nat)
    requires i < |b64| && Sextets(b64[..i]).Some?
    ensures Sextets(b64[..i + 1]) ==
            if Ignored(b64[i]) then Sextets(b64[..i])
            else if Position(b64[i]).None? then None
            else Some(Sextets(b64[..i]).value + [Position(b64[i]).value])
  {
    assert b64[..i + 1][..i] == b64[..i];
  }

  lemma {:induction false} BadCharacterStays(b64: seq<byte>, n: nat)
    requires n <= |b64| && Sextets(b64[..n]).None?
    ensures Sextets(b64).None?
    decreases |b64| - n
  {
    if n < |b64| {
      assert b64[..n + 1][..n] == b64[..n];
      BadCharacterStays(b64, n + 1);
    } else {
      assert b64[..n] == b64;
    }
  }

  // ---------------------------------------------------------------------------
  // The decoder
  // ---------------------------------------------------------------------------

  /** What a decoded text must be: the whole bytes at the front of the bit string of its characters. */
  ghost predicate IsDecoding(b64: seq<byte>, out: seq<byte>) {
    var sextets := Sextets(b64);
    && sextets.Some?
    && |out| == 3 * |sextets.value| / 4
    && OfBytes(out) == OfSextets(sextets.value)[..4 * |out|]
  }

  /** The decoder between two characters: fewer than eight bits in the buffer, and nothing lost. */
  ghost predicate DecoderState(out: seq<byte>, buf: nat, bits: nat, sextets: seq<nat>) {
    && (bits == 0 || bits == 2 || bits == 4 || bits == 6)
    && Holds(out, buf, bits / 2, sextets)
  }

  /** Output and the `pairs` bit pairs in the buffer are the bit string of the characters. */
  ghost predicate Holds(out: seq<byte>, buf: nat, pairs: nat, sextets: seq<nat>) {
    && buf < Unit(pairs)
    && OfBytes(out) + Digits(buf, pairs) == OfSextets(sextets)
  }

  lemma ShiftIn(out: seq<byte>, buf: nat, pairs: nat, sextets: seq<nat>, val: nat)
    requires Holds(out, buf, pairs, sextets) && val < 64
    ensures buf * 64 + val >= 0 && Holds(out, buf * 64 + val, pairs + 3, sextets + [val])
  {
    ThreeMore(pairs);
    Units();
    TwoNumbers(buf, pairs, val, 3, 64);
    OfSextetsSnoc(sextets, val);
    AppendAssoc(OfBytes(out), Digits(buf, pairs), Digits(val, 3));
  }

  /** What EmitByte asks for. */
  ghost predicate CanEmit(out: seq<byte>, buf: nat, bits: nat, sextets: seq<nat>) {
    (bits == 0 || bits == 2 || bits == 4) && Holds(out, buf, bits / 2 + 4, sextets)
  }

  lemma FillsByte(out: seq<byte>, buf: nat, bits: nat, sextets: seq<nat>, val: nat)
    requires DecoderState(out, buf, bits, sextets) && val < 64 && bits + 6 >= 8
    ensures CanEmit(out, buf * 64 + val, bits + 6 - 8, sextets + [val])
  {
    ShiftIn(out, buf, bits / 2, sextets, val);
    assert (bits + 6 - 8) / 2 + 4 == bits / 2 + 3;
  }

  lemma LeavesByte(out: seq<byte>, buf: nat, bits: nat, sextets: seq<nat>, val: nat)
    requires DecoderState(out, buf, bits, sextets) && val < 64 && bits + 6 < 8
    ensures DecoderState(out, buf * 64 + val, bits + 6, sextets + [val])
  {
    ShiftIn(out, buf, bits / 2, sextets, val);
  }

  lemma ThreeMore(n: nat)
    ensures Unit(n + 3) == 64 * Unit(n)
  {
    assert Unit(n + 1) == 4 * Unit(n);
    assert Unit(n + 2) == 4 * Unit(n + 1);
  }

  lemma TakeByte(out: seq<byte>, buf: nat, pairs: nat, sextets: seq<nat>)
    requires Holds(out, buf, pairs + 4, sextets) && pairs <= 2
    ensures buf / Unit(pairs) < 256
    ensures Holds(out + [buf / Unit(pairs)], buf % Unit(pairs), pairs, sextets)
  {
    Units();
    Quotient(buf, pairs);
    SplitTop(out, buf, buf / Unit(pairs), buf % Unit(pairs), pairs, sextets);
  }

  lemma Quotient(buf: nat, pairs: nat)
    requires pairs <= 2 && buf < Unit(pairs + 4)
    ensures buf / Unit(pairs) < 256 && buf % Unit(pairs) < Unit(pairs)
    ensures buf == buf / Unit(pairs) * Unit(pairs) + buf % Unit(pairs)
  {
    Units();
    if pairs == 0 { } else if pairs == 1 { } else { }
  }

  lemma SplitTop(out: seq<byte>, buf: nat, top: byte, rest: nat, pairs: nat, sextets: seq<nat>)
    requires Holds(out, buf, pairs + 4, sextets)
    requires buf == top * Unit(pairs) + rest && rest < Unit(pairs)
    ensures Holds(out + [top], rest, pairs, sextets)
  {
    TwoNumbers(top, 4, rest, pairs, Unit(pairs));
    OfBytesSnoc(out, top);
    AppendAssoc(OfBytes(out), Digits(top, 4), Digits(rest, pairs));
  }

  lemma EndOfData(b64: seq<byte>, out: seq<byte>, buf: nat, bits: nat, sextets: seq<nat>)
    requires Sextets(b64) == Some(sextets) && DecoderState(out, buf, bits, sextets)
    ensures IsDecoding(b64, out)
  {
    var all := OfBytes(out) + Digits(buf, bits / 2);
    assert all[..4 * |out|] == OfBytes(out);
  }

  /** The decoder before the `i`th character. */
  ghost predicate IsReading(b64: seq<byte>, i: nat, out: seq<byte>, buf: nat, bits: nat, sextets: seq<nat>)
    requires i <= |b64|
  {
    Sextets(b64[..i]) == Some(sextets) && DecoderState(out, buf, bits, sextets)
  }

  lemma NothingRead(b64: seq<byte>)
    ensures IsReading(b64, 0, [], 0, 0, [])
  {
    assert b64[..0] == [] && Sextets([]) == Some([]);
    assert OfBytes([]) + Digits(0, 0) == OfSextets([]);
  }

  lemma SkippedOne(b64: seq<byte>, i: nat, out: seq<byte>, buf: nat, bits: nat, sextets: seq<nat>)
    requires i < |b64| && Ignored(b64[i]) && IsReading(b64, i, out, buf, bits, sextets)
    ensures IsReading(b64, i + 1, out, buf, bits, sextets)
  {
    OneMoreCharacter(b64, i);
  }

  lemma AcceptedOne(b64: seq<byte>, i: nat, val: nat, out: seq<byte>, buf: nat, bits: nat, sextets: seq<nat>)
    requires i < |b64| && !Ignored(b64[i]) && Position(b64[i]) == Some(val)
    requires Sextets(b64[..i]) == Some(sextets) && DecoderState(out, buf, bits, sextets + [val])
    ensures IsReading(b64, i + 1, out, buf, bits, sextets + [val])
  {
    OneMoreCharacter(b64, i);
  }

  lemma BadCharacter(b64: seq<byte>, i: nat, out: seq<byte>, buf: nat, bits: nat, sextets: seq<nat>)
    requires i < |b64| && !Ignored(b64[i]) && Position(b64[i]).None? && IsReading(b64, i, out, buf, bits, sextets)
    ensures Sextets(b64).None?
  {
    OneMoreCharacter(b64, i);
    BadCharacterStays(b64, i + 1);
  }

  lemma AllRead(b64: seq<byte>, out: seq<byte>, buf: nat, bits: nat, sextets: seq<nat>)
    requires IsReading(b64, |b64|, out, buf, bits, sextets)
    ensures Sextets(b64).Some? && IsDecoding(b64, out)
  {
    assert b64[..|b64|] == b64;
    EndOfData(b64, out, buf, bits, sextets);
  }

  /** The decoder loop; the buffer never exceeds twelve bits, so the u32 cannot overflow. */
  method DecodeData(b64: seq<byte>) returns (r: Option<seq<byte>>)
    ensures r.Some? <==> Sextets(b64).Some?
    ensures r.Some? ==> IsDecoding(b64, r.value)
  {
    var out: seq<byte> := [];
    var buf: nat, bits: nat := 0, 0;
    ghost var sextets: seq<nat> := [];
    NothingRead(b64);
    for i := 0 to |b64|
      invariant IsReading(b64, i, out, buf, bits, sextets)
    {
      var ch := b64[i];
      if Ignored(ch) {
        SkippedOne(b64, i, out, buf, bits, sextets);
        continue;
      }
      var val := Position(ch);
      if val.None? {
        BadCharacter(b64, i, out, buf, bits, sextets);
        return None;
      }
      out, buf, bits := Accept(out, buf, bits, val.value, sextets);
      AcceptedOne(b64, i, val.value, out, buf, bits, sextets);
      sextets := sextets + [val.value];
    }
    AllRead(b64, out, buf, bits, sextets);
    r := Some(out);
  }

  /** One character of the alphabet. */
  method Accept(out: seq<byte>, buf: nat, bits: nat, val: nat, ghost sextets: seq<nat>)
    returns (out': seq<byte>, buf': nat, bits': nat)
    requires DecoderState(out, buf, bits, sextets) && val < 64
    ensures DecoderState(out', buf', bits', sextets + [val])
  {
    ghost var more := sextets + [val];
    var filled: nat := buf * 64 + val;
    if bits + 6 >= 8 {
      FillsByte(out, buf, bits, sextets, val);
      bits' := bits + 6 - 8;
      out', buf' := EmitByte(out, filled, bits', more);
    } else {
      LeavesByte(out, buf, bits, sextets, val);
      out', buf', bits' := out, filled, bits + 6;
    }
  }

  /** The byte above the lowest `bits` bits leaves the buffer. */
  method EmitByte(out: seq<byte>, buf: nat, bits: nat, ghost sextets: seq<nat>) returns (out': seq<byte>, buf': nat)
    requires CanEmit(out, buf, bits, sextets)
    ensures DecoderState(out', buf', bits, sextets)
  {
    TakeByte(out, buf, bits / 2, sextets);
    out' := out + [buf / Unit(bits / 2)];
    buf' := buf % Unit(bits / 2);
  }

  // ---------------------------------------------------------------------------
  // The encoder
  // ---------------------------------------------------------------------------

  /** The sextets of an encoding: the bits of the bytes, filled up with zeros to a whole sextet. */
  ghost predicate AreSextetsOf(bytes: seq<byte>, sextets: seq<nat>) {
    && 4 * |bytes| <= 3 * |sextets| < 4 * |bytes| + 3
    && (forall i | 0 <= i < |sextets| :: sextets[i] < 64)
    && OfSextets(sextets)[..4 * |bytes|] == OfBytes(bytes)
    && (forall i | 4 * |bytes| <= i < 3 * |sextets| :: OfSextets(sextets)[i] == 0)
  }

  /** The text is the sextets in the alphabet, followed by = up to a multiple of four. */
  ghost predicate Spells(b64: seq<byte>, sextets: seq<nat>) {
    && (forall i | 0 <= i < |sextets| :: sextets[i] < 64)
    && |sextets| <= |b64| < |sextets| + 4 && |b64| % 4 == 0
    && (forall i | 0 <= i < |sextets| :: b64[i] == Symbol(sextets[i]))
    && (forall i | |sextets| <= i < |b64| :: b64[i] == EQUALS)
  }

  /** Section 4 of RFC 4648. */
  ghost predicate IsEncoding(bytes: seq<byte>, b64: seq<byte>) {
    exists sextets :: AreSextetsOf(bytes, sextets) && Spells(b64, sextets)
  }

  lemma ThreeNumbers(a: nat, b: nat, c: nat, n: nat, unit: nat, ab: nat, abc: nat)
    requires unit == Unit(n) && b < unit && c < unit
    requires ab == a * unit + b && abc == ab * unit + c
    ensures Digits(abc, n + n + n) == Digits(a, n) + Digits(b, n) + Digits(c, n)
  {
    TwoNumbers(a, n, b, n, unit);
    TwoNumbers(ab, n + n, c, n, unit);
  }

  lemma SameNumber(a: byte, b: byte, c: byte)
    ensures a % 4 * 16 + b / 16 < 64 && b % 16 * 4 + c / 64 < 64
    ensures (a * 256 + b) * 256 + c == ((a / 4 * 64 + (a % 4 * 16 + b / 16)) * 64 + (b % 16 * 4 + c / 64)) * 64 + c % 64
  {
  }

  /** A zero byte has only zero bits, so has the end of a padded sextet. */
  lemma ZeroDigits()
    ensures Digits(0, 1) == [0] && Digits(0, 2) == [0, 0] && Digits(0, 3) == [0, 0, 0] && Digits(0, 4) == [0, 0, 0, 0]
  {
    assert Digits(0, 1) == [0];
    assert Digits(0, 2) == [0, 0];
    assert Digits(0, 3) == [0, 0, 0];
  }

  lemma BitsAppend3(done: seq<nat>, n: nat, a: nat, b: nat, c: nat)
    ensures Bits(done + [a, b, c], n) == Bits(done, n) + (Digits(a, n) + Digits(b, n) + Digits(c, n))
  {
    BitsSnoc(done, n, a);
    BitsSnoc(done + [a], n, b);
    BitsSnoc(done + [a, b], n, c);
    assert done + [a] + [b] == done + [a, b] && done + [a, b] + [c] == done + [a, b, c];
    Regroup3(Bits(done, n), Digits(a, n), Digits(b, n), Digits(c, n));
  }

  lemma Regroup3<T>(d: seq<T>, a: seq<T>, b: seq<T>, c: seq<T>)
    ensures d + a + b + c == d + (a + b + c)
  {
  }

  lemma PairsOfChunk(done: seq<byte>, sextets: seq<nat>, a: byte, b: byte, c: byte)
    requires OfSextets(sextets) == OfBytes(done)
    ensures OfSextets(sextets + [a / 4, a % 4 * 16 + b / 16, b % 16 * 4 + c / 64, c % 64]) ==
            OfBytes(done + [a, b, c])
  {
    SameNumber(a, b, c);
    SameBits(done, sextets, a, b, c, a / 4, a % 4 * 16 + b / 16, b % 16 * 4 + c / 64, c % 64);
  }

  /** 24 bits are the same number as three bytes and as four sextets. */
  lemma SameBits(done: seq<byte>, sextets: seq<nat>, a: byte, b: byte, c: byte, u: nat, v: nat, w: nat, x: nat)
    requires OfSextets(sextets) == OfBytes(done)
    requires v < 64 && w < 64 && x < 64
    requires (a * 256 + b) * 256 + c == ((u * 64 + v) * 64 + w) * 64 + x
    ensures OfSextets(sextets + [u, v, w, x]) == OfBytes(done + [a, b, c])
  {
    var total := (a * 256 + b) * 256 + c;
    Units();
    AsThreeBytes(done, 4, a, b, c, total, 12);
    AsFourSextets(sextets, 3, u, v, w, x, total, 12);
  }

  lemma AsThreeBytes(done: seq<nat>, n: nat, a: nat, b: nat, c: nat, total: nat, k: nat)
    requires k == n + n + n && Unit(n) == 256 && b < 256 && c < 256 && total == (a * 256 + b) * 256 + c
    ensures Bits(done + [a, b, c], n) == Bits(done, n) + Digits(total, k)
  {
    BitsAppend3(done, n, a, b, c);
    ThreeNumbers(a, b, c, n, 256, a * 256 + b, total);
  }

  lemma AsFourSextets(done: seq<nat>, m: nat, u: nat, v: nat, w: nat, x: nat, total: nat, k: nat)
    requires k == m + m + m + m && Unit(m) == 64 && v < 64 && w < 64 && x < 64
    requires total == ((u * 64 + v) * 64 + w) * 64 + x
    ensures Bits(done + [u, v, w, x], m) == Bits(done, m) + Digits(total, k)
  {
    var front := (u * 64 + v) * 64 + w;
    BitsAppend3(done, m, u, v, w);
    BitsSnoc(done + [u, v, w], m, x);
    assert done + [u, v, w] + [x] == done + [u, v, w, x];
    ThreeNumbers(u, v, w, m, 64, u * 64 + v, front);
    TwoNumbers(front, m + m + m, x, m, 64);
    AppendAssoc(Bits(done, m), Digits(front, m + m + m), Digits(x, m));
  }

  /** A last chunk of two bytes, as if a zero byte followed. */
  lemma PairsOfTwo(done: seq<byte>, sextets: seq<nat>, a: byte, b: byte)
    requires OfSextets(sextets) == OfBytes(done)
    ensures OfSextets(sextets + [a / 4, a % 4 * 16 + b / 16, b % 16 * 4]) == OfBytes(done + [a, b]) + [0]
  {
    SameNumber(a, b, 0);
    TwoOfThree(done, sextets, a, b, a / 4, a % 4 * 16 + b / 16, b % 16 * 4);
  }

  lemma TwoOfThree(done: seq<byte>, sextets: seq<nat>, a: byte, b: byte, u: nat, v: nat, w: nat)
    requires OfSextets(sextets) == OfBytes(done)
    requires u < 64 && v < 64 && w < 64
    requires (a * 256 + b) * 256 == ((u * 64 + v) * 64 + w) * 64
    ensures OfSextets(sextets + [u, v, w]) == OfBytes(done + [a, b]) + [0]
  {
    SameBits(done, sextets, a, b, 0, u, v, w, 0);
    LastIsZero(done + [a, b], sextets + [u, v, w]) by {
      assert sextets + [u, v, w] + [0] == sextets + [u, v, w, 0];
      assert done + [a, b] + [0] == done + [a, b, 0];
    }
  }

  lemma LastIsZero(bytes: seq<byte>, sextets: seq<nat>)
    requires OfSextets(sextets + [0]) == OfBytes(bytes + [0])
    ensures OfSextets(sextets) == OfBytes(bytes) + [0]
  {
    OfSextetsSnoc(sextets, 0);
    OfBytesSnoc(bytes, 0);
    ZeroDigits();
    DropZeros(OfSextets(sextets), OfBytes(bytes));
  }

  /** A last chunk of one byte, as if two zero bytes followed. */
  lemma PairsOfOne(done: seq<byte>, sextets: seq<nat>, a: byte)
    requires OfSextets(sextets) == OfBytes(done)
    ensures OfSextets(sextets + [a / 4, a % 4 * 16]) == OfBytes(done + [a]) + [0, 0]
  {
    SameNumber(a, 0, 0);
    OneOfThree(done, sextets, a, a / 4, a % 4 * 16);
  }

  lemma OneOfThree(done: seq<byte>, sextets: seq<nat>, a: byte, u: nat, v: nat)
    requires OfSextets(sextets) == OfBytes(done)
    requires u < 64 && v < 64
    requires a * 65536 == (u * 64 + v) * 4096
    ensures OfSextets(sextets + [u, v]) == OfBytes(done + [a]) + [0, 0]
  {
    TwoOfThree(done, sextets, a, 0, u, v, 0);
    LastTwoAreZero(done + [a], sextets + [u, v]) by {
      assert sextets + [u, v] + [0] == sextets + [u, v, 0];
      assert done + [a] + [0] == done + [a, 0];
    }
  }

  lemma LastTwoAreZero(bytes: seq<byte>, sextets: seq<nat>)
    requires OfSextets(sextets + [0]) == OfBytes(bytes + [0]) + [0]
    ensures OfSextets(sextets) == OfBytes(bytes) + [0, 0]
  {
    OfSextetsSnoc(sextets, 0);
    OfBytesSnoc(bytes, 0);
    ZeroDigits();
    DropLast3(OfSextets(sextets), OfBytes(bytes));
  }

  lemma DropZeros(x: seq<nat>, y: seq<nat>)
    requires x + [0, 0, 0] == y + [0, 0, 0, 0]
    ensures x == y + [0]
  {
    assert y + [0, 0, 0, 0] == (y + [0]) + [0, 0, 0];
    LastGroups(x, [0, 0, 0], y + [0], [0, 0, 0]);
  }

  lemma DropLast3(x: seq<nat>, y: seq<nat>)
    requires x + [0, 0, 0] == y + [0, 0, 0, 0] + [0]
    ensures x == y + [0, 0]
  {
    assert y + [0, 0, 0, 0] + [0] == (y + [0, 0]) + [0, 0, 0];
    LastGroups(x, [0, 0, 0], y + [0, 0], [0, 0, 0]);
  }

  /** The text so far stands for whole chunks of the bytes so far. */
  ghost predicate Encoded(done: seq<byte>, sextets: seq<nat>, b64: seq<byte>) {
    && |b64| == |sextets| && Spells(b64, sextets)
    && OfSextets(sextets) == OfBytes(done)
  }

  /** A chunk of three bytes becomes four characters. */
  function EncodeChunk(a: byte, b: byte, c: byte): seq<byte> {
    [Symbol(a / 4), Symbol(a % 4 * 16 + b / 16), Symbol(b % 16 * 4 + c / 64), Symbol(c % 64)]
  }

  /** A last chunk of two bytes becomes three characters, one of one byte two. */
  function EncodeLast(chunk: seq<byte>): seq<byte>
    requires 1 <= |chunk| <= 2
  {
    var a := chunk[0];
    if |chunk| == 2 then
      var b := chunk[1];
      [Symbol(a / 4), Symbol(a % 4 * 16 + b / 16), Symbol(b % 16 * 4), EQUALS]
    else
      [Symbol(a / 4), Symbol(a % 4 * 16), EQUALS, EQUALS]
  }

  lemma NextChunk(bytes: seq<byte>, i: nat, sextets: seq<nat>, b64: seq<byte>, text: seq<byte>) returns (all: seq<nat>)
    requires i + 3 <= |bytes| && Encoded(bytes[..i], sextets, b64)
    requires text == EncodeChunk(bytes[i], bytes[i + 1], bytes[i + 2])
    ensures Encoded(bytes[..i + 3], all, b64 + text)
  {
    var a, b, c := bytes[i], bytes[i + 1], bytes[i + 2];
    assert bytes[..i + 3] == bytes[..i] + [a, b, c];
    var more := [a / 4, a % 4 * 16 + b / 16, b % 16 * 4 + c / 64, c % 64];
    PairsOfChunk(bytes[..i], sextets, a, b, c);
    SpellsMore(sextets, b64, more, text);
    all := sextets + more;
  }

  lemma LastTwo(bytes: seq<byte>, i: nat, sextets: seq<nat>, b64: seq<byte>, text: seq<byte>)
    requires i + 2 == |bytes| && Encoded(bytes[..i], sextets, b64)
    requires text == EncodeLast(bytes[i..])
    ensures IsEncoding(bytes, b64 + text)
  {
    var a, b := bytes[i], bytes[i + 1];
    assert bytes == bytes[..i] + [a, b];
    var more := [a / 4, a % 4 * 16 + b / 16, b % 16 * 4];
    PairsOfTwo(bytes[..i], sextets, a, b);
    SpellsMore(sextets, b64, more, text);
    PaddedSextets(bytes, sextets + more, [0]);
  }

  lemma LastOne(bytes: seq<byte>, i: nat, sextets: seq<nat>, b64: seq<byte>, text: seq<byte>)
    requires i + 1 == |bytes| && Encoded(bytes[..i], sextets, b64)
    requires text == EncodeLast(bytes[i..])
    ensures IsEncoding(bytes, b64 + text)
  {
    var a := bytes[i];
    assert bytes == bytes[..i] + [a];
    var more := [a / 4, a % 4 * 16];
    PairsOfOne(bytes[..i], sextets, a);
    SpellsMore(sextets, b64, more, text);
    PaddedSextets(bytes, sextets + more, [0, 0]);
  }

  lemma LastChunk(bytes: seq<byte>, i: nat, sextets: seq<nat>, b64: seq<byte>, text: seq<byte>)
    requires i < |bytes| < i + 3 && Encoded(bytes[..i], sextets, b64)
    requires text == EncodeLast(bytes[i..])
    ensures IsEncoding(bytes, b64 + text)
  {
    if i + 2 == |bytes| {
      LastTwo(bytes, i, sextets, b64, text);
    } else {
      LastOne(bytes, i, sextets, b64, text);
    }
  }

  lemma SpellsMore(sextets: seq<nat>, b64: seq<byte>, more: seq<nat>, text: seq<byte>)
    requires Spells(b64, sextets) && |b64| == |sextets| && Spells(text, more)
    ensures Spells(b64 + text, sextets + more)
  {
    var q, r := |b64| / 4, |text| / 4;
    assert |b64 + text| == 4 * (q + r);
  }

  lemma PaddedSextets(bytes: seq<byte>, sextets: seq<nat>, zeros: seq<nat>)
    requires OfSextets(sextets) == OfBytes(bytes) + zeros && |zeros| < 3
    requires forall i | 0 <= i < |zeros| :: zeros[i] == 0
    requires forall i | 0 <= i < |sextets| :: sextets[i] < 64
    ensures AreSextetsOf(bytes, sextets)
  {
  }

  /** The encoder loop over chunks of three bytes. */
  method Encode(bytes: seq<byte>) returns (b64: seq<byte>)
    ensures IsEncoding(bytes, b64)
  {
    b64 := [];
    ghost var sextets: seq<nat> := [];
    var i := 0;
    while i + 3 <= |bytes|
      invariant 0 <= i <= |bytes|
      invariant Encoded(bytes[..i], sextets, b64)
    {
      var text := EncodeChunk(bytes[i], bytes[i + 1], bytes[i + 2]);
      sextets := NextChunk(bytes, i, sextets, b64, text);
      b64 := b64 + text;
      i := i + 3;
    }
    if i == |bytes| {
      assert bytes[..i] == bytes && OfBytes(bytes) + [] == OfBytes(bytes);
      PaddedSextets(bytes, sextets, []);
    } else {
      var text := EncodeLast(bytes[i..]);
      LastChunk(bytes, i, sextets, b64, text);
      b64 := b64 + text;
    }
  }

  // ---------------------------------------------------------------------------
  // Round trip
  // ---------------------------------------------------------------------------

  lemma {:induction false} SextetsOfSymbols(b64: seq<byte>, sextets: seq<nat>, n: nat)
    requires |sextets| <= n <= |b64|
    requires forall i | 0 <= i < |sextets| :: sextets[i] < 64 && b64[i] == Symbol(sextets[i])
    requires forall i | |sextets| <= i < n :: b64[i] == EQUALS
    ensures Sextets(b64[..n]) == Some(sextets)
    decreases n
  {
    if n > 0 {
      assert b64[..n][..n - 1] == b64[..n - 1];
      if n > |sextets| {
        SextetsOfSymbols(b64, sextets, n - 1);
      } else {
        SextetsOfSymbols(b64, sextets[..n - 1], n - 1);
        SymbolsAreDistinct(sextets[n - 1]);
        assert sextets == sextets[..n - 1] + [sextets[n - 1]];
      }
    }
  }

  lemma EncodingDecodes(bytes: seq<byte>, b64: seq<byte>)
    requires IsEncoding(bytes, b64)
    ensures Sextets(b64).Some? && AreSextetsOf(bytes, Sextets(b64).value) && Spells(b64, Sextets(b64).value)
  {
    var sextets :| AreSextetsOf(bytes, sextets) && Spells(b64, sextets);
    SextetsOfSymbols(b64, sextets, |b64|);
    assert b64[..|b64|] == b64;
  }

  /** Whatever the decoder may answer for an encoding is the encoded bytes. */
  lemma DecodingUndoesEncoding(bytes: seq<byte>, b64: seq<byte>, out: seq<byte>)
    requires IsEncoding(bytes, b64) && IsDecoding(b64, out)
    ensures out == bytes
  {
    EncodingDecodes(bytes, b64);
    assert |out| == |bytes|;
    Units();
    BitsDetermineNumbers(out, bytes, 4);
  }

  lemma SextetsAreUnique(bytes: seq<byte>, x: seq<nat>, y: seq<nat>)
    requires AreSextetsOf(bytes, x) && AreSextetsOf(bytes, y)
    ensures x == y
  {
    Units();
    var p, q := OfSextets(x), OfSextets(y);
    assert |p| == |q|;
    assert p == p[..4 * |bytes|] + p[4 * |bytes|..] && q == q[..4 * |bytes|] + q[4 * |bytes|..];
    assert p[4 * |bytes|..] == q[4 * |bytes|..];
    BitsDetermineNumbers(x, y, 3);
  }

  lemma SpellingIsUnique(sextets: seq<nat>, b64: seq<byte>, other: seq<byte>)
    requires Spells(b64, sextets) && Spells(other, sextets)
    ensures b64 == other
  {
    var q, r := |b64| / 4, |other| / 4;
    assert |b64| == 4 * q && |other| == 4 * r;
  }

  /** An encoding is determined by its bytes. */
  lemma EncodingIsUnique(bytes: seq<byte>, b64: seq<byte>, other: seq<byte>)
    requires IsEncoding(bytes, b64) && IsEncoding(bytes, other)
    ensures b64 == other
  {
    EncodingDecodes(bytes, b64);
    EncodingDecodes(bytes, other);
    SextetsAreUnique(bytes, Sextets(b64).value, Sextets(other).value);
    SpellingIsUnique(Sextets(b64).value, b64, other);
  }

  // ---------------------------------------------------------------------------
  // Data URLs
  // ---------------------------------------------------------------------------

  const DATA_SCHEME: seq<byte> := Ascii("data:")

  function AfterComma(s: seq<byte>): (r: Option<seq<byte>>)
    ensures r.None? <==> COMMA !in s
  {
    if s == [] then None else if s[0] == COMMA then Some(s[1..]) else AfterComma(s[1..])
  }

  /** What follows the first comma of a data URL; anything else is taken as it is. */
  function DataPart(input: seq<byte>): seq<byte> {
    if DATA_SCHEME <= input && AfterComma(input[5..]).Some? then AfterComma(input[5..]).value else input
  }

  /** Padding, line ends and blanks are skipped, and nothing else; 44 is the comma behind the header of a data URL. */
  lemma SkippedOctets(ch: byte, header: seq<byte>, data: seq<byte>)
    requires 44 !in header
    ensures Ignored(ch) <==> ch == 61 || ch == 10 || ch == 13 || ch == 32
    ensures DataPart(Ascii("data:") + (header + ([44] + data))) == data
    ensures DataPart(header) == header
  {
    AfterFirstComma(header, data);
    var input := Ascii("data:") + (header + ([44] + data));
    assert input[5..] == header + ([44] + data) && DATA_SCHEME <= input;
  }

  lemma {:induction false} AfterFirstComma(front: seq<byte>, rest: seq<byte>)
    requires COMMA !in front
    ensures AfterComma(front + ([COMMA] + rest)) == Some(rest)
    decreases |front|
  {
    if front == [] {
      assert front + ([COMMA] + rest) == [COMMA] + rest;
    } else {
      var s := front + ([COMMA] + rest);
      assert s[0] == front[0] && s[1..] == front[1..] + ([COMMA] + rest);
      AfterFirstComma(front[1..], rest);
    }
  }

  lemma EncodingHasNoColon(bytes: seq<byte>, b64: seq<byte>)
    requires IsEncoding(bytes, b64)
    ensures COLON !in b64
  {
    EncodingDecodes(bytes, b64);
    var sextets := Sextets(b64).value;
    forall i | 0 <= i < |b64| ensures b64[i] != COLON {
      if i < |sextets| {
        SymbolsAreDistinct(sextets[i]);
      }
    }
  }

  lemma PlainTextIsItsOwnData(b64: seq<byte>)
    requires COLON !in b64
    ensures DataPart(b64) == b64
  {
    assert DATA_SCHEME[4] == COLON;
  }

  lemma DataUrlHoldsItsData(header: seq<byte>, b64: seq<byte>)
    requires COMMA !in header
    ensures DataPart(DATA_SCHEME + (header + ([COMMA] + b64))) == b64
  {
    var input := DATA_SCHEME + (header + ([COMMA] + b64));
    assert input[5..] == header + ([COMMA] + b64);
    AfterFirstComma(header, b64);
  }

  /** base64_decode */
  method Decode(input: seq<byte>) returns (r: Option<seq<byte>>)
    ensures r.Some? <==> Sextets(DataPart(input)).Some?
    ensures r.Some? ==> IsDecoding(DataPart(input), r.value)
  {
    r := DecodeData(DataPart(input));
  }

  /** Round trip: for every byte sequence, with or without a data URL header in front. */
  method EncodeThenDecode(bytes: seq<byte>, header: Option<seq<byte>>) returns (r: Option<seq<byte>>)
    requires header.Some? ==> COMMA !in header.value
    ensures r == Some(bytes)
  {
    var b64 := Encode(bytes);
    var input := if header.None? then b64 else DATA_SCHEME + (header.value + ([COMMA] + b64));
    assert DataPart(input) == b64 by {
      if header.None? {
        EncodingHasNoColon(bytes, b64);
        PlainTextIsItsOwnData(b64);
      } else {
        DataUrlHoldsItsData(header.value, b64);
      }
    }
    r := Decode(input);
    EncodingDecodes(bytes, b64);
    DecodingUndoesEncoding(bytes, b64, r.value);
  }
}
