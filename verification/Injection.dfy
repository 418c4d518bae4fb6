/**
 The text the agent types into the default shell to run a command, read back by the rules of the POSIX
 Shell Command Language: backslash (section 2.2.1), single quotes (section 2.2.2), token recognition
 (section 2.3) and the format string of the printf utility.
 */
module Injection {
  import opened Basics
  import opened Decimal
  import opened Search
  import opened Streaming
  import opened Sentinel

  const QUOTE: byte := 39
  const SPACE: byte := 32
  const TAB: byte := 9
  const NEWLINE: byte := 10
  const SEMICOLON: byte := 59
  const DOLLAR: byte := 36
  const QUESTION: byte := 63
  const PERCENT: byte := 37
  const LOWER_D: byte := 100

  // ---------------------------------------------------------------------------
  // What the agent types
  // ---------------------------------------------------------------------------

  /** Every single quote becomes: close the quotes, an escaped quote, open the quotes. */
  function Escape(command: seq<byte>): seq<byte> {
    if command == [] then []
    else (if command[0] == QUOTE then [QUOTE, BACKSLASH, QUOTE, QUOTE] else [command[0]]) + Escape(command[1..])
  }

  /** \033_CLAWCAGE_EXIT:<id>:%d\033\\ */
  function MarkerFormat(id: nat): seq<byte> {
    Ascii("\\033_CLAWCAGE_EXIT:") + Print(id) + Ascii(":%d\\033\\\\")
  }

  function InjectionText(command: seq<byte>, id: nat): seq<byte> {
    Ascii("bash -c ") + ([QUOTE] + Escape(command) + [QUOTE])
    + Ascii(" ; printf ") + ([QUOTE] + MarkerFormat(id) + [QUOTE])
    + Ascii(" $?\n")
  }

  lemma RegroupText<T>(bash: seq<T>, q: seq<T>, command: seq<T>, printf: seq<T>, format: seq<T>, status: seq<T>)
    ensures bash + (q + command + q) + printf + (q + format + q) + status ==
            (bash + q) + command + (q + printf + q) + format + (q + status)
  {
  }

  lemma EscapeOfOne()
    ensures forall b: byte :: Escape([b]) == if b == 39 then [39, 92, 39, 39] else [b]
  {
    forall b: byte ensures Escape([b]) == if b == 39 then [39, 92, 39, 39] else [b] {
      assert [b][1..] == [] && Escape([]) == [];
    }
  }

  lemma QuoteAfterBash()
    ensures Ascii("bash -c ") + [QUOTE] == Ascii("bash -c '")
  {
  }

  lemma QuotesAroundPrintf()
    ensures [QUOTE] + Ascii(" ; printf ") + [QUOTE] == Ascii("' ; printf '")
  {
  }

  lemma QuoteBeforeStatus()
    ensures [QUOTE] + Ascii(" $?\n") == Ascii("' $?\n")
  {
  }

  /** The line as it is typed; a quote in the command is written as four octets, any other octet as itself. */
  lemma InjectionTextIs(command: seq<byte>, id: nat)
    ensures InjectionText(command, id) ==
            Ascii("bash -c '") + Escape(command) + Ascii("' ; printf '")
            + (Ascii("\\033_CLAWCAGE_EXIT:") + Print(id) + Ascii(":%d\\033\\\\")) + Ascii("' $?\n")
    ensures forall b: byte :: Escape([b]) == if b == 39 then [39, 92, 39, 39] else [b]
  {
    EscapeOfOne();
    QuoteAfterBash();
    QuotesAroundPrintf();
    QuoteBeforeStatus();
    RegroupText(Ascii("bash -c "), [QUOTE], Escape(command), Ascii(" ; printf "), MarkerFormat(id), Ascii(" $?\n"));
  }

  // ---------------------------------------------------------------------------
  // Token recognition
  // ---------------------------------------------------------------------------

  /** A piece of a word: a byte that stands for itself, or the exit status of the last command. */
  datatype Part = Lit(b: byte) | Status

  datatype Token =
    | Word(parts: seq<Part>)
    | Semi
    | Eol
    | Unterminated
    | Unsupported(b: byte)

  /** Bytes the shell treats specially outside quotes and that no injected text needs there. */
  const OTHER_SPECIAL: seq<byte> := Ascii("\"`|&<>()#*[~{}!")

  predicate Plain(b: byte) {
    && b != QUOTE && b != BACKSLASH && b != SPACE && b != TAB && b != NEWLINE && b != SEMICOLON && b != DOLLAR
    && b !in OTHER_SPECIAL
  }

  function Flush(word: Option<seq<Part>>): seq<Token> {
    if word.None? then [] else [Word(word.value)]
  }

  function Extend(word: Option<seq<Part>>, part: Part): Option<seq<Part>> {
    Some((if word.None? then [] else word.value) + [part])
  }

  function Lex(s: seq<byte>, quoted: bool, word: Option<seq<Part>>): seq<Token>
    decreases |s|
  {
    if s == [] then
      if quoted then [Unterminated] else Flush(word)
    else if quoted then
      if s[0] == QUOTE then Lex(s[1..], false, word) else Lex(s[1..], true, Extend(word, Lit(s[0])))
    else if s[0] == QUOTE then
      Lex(s[1..], true, Some(if word.None? then [] else word.value))
    else if s[0] == BACKSLASH then
      if |s| == 1 then Flush(Extend(word, Lit(BACKSLASH)))
      else if s[1] == NEWLINE then Lex(s[2..], false, word)
      else Lex(s[2..], false, Extend(word, Lit(s[1])))
    else if s[0] == SPACE || s[0] == TAB then Flush(word) + Lex(s[1..], false, None)
    else if s[0] == SEMICOLON then Flush(word) + [Semi] + Lex(s[1..], false, None)
    else if s[0] == NEWLINE then Flush(word) + [Eol] + Lex(s[1..], false, None)
    else if s[0] == DOLLAR then
      if |s| > 1 && s[1] == QUESTION then Lex(s[2..], false, Extend(word, Status)) else [Unsupported(DOLLAR)]
    else if s[0] in OTHER_SPECIAL then [Unsupported(s[0])]
    else Lex(s[1..], false, Extend(word, Lit(s[0])))
  }

  function Literal(s: seq<byte>): (parts: seq<Part>)
    ensures |parts| == |s|
  {
    seq(|s|, i requires 0 <= i < |s| => Lit(s[i]))
  }

  /** The parts collected so far, with `s` added. */
  function Grown(word: Option<seq<Part>>, s: seq<byte>): Option<seq<Part>> {
    if s == [] then word else Some((if word.None? then [] else word.value) + Literal(s))
  }

  lemma GrownByOne(word: Option<seq<Part>>, s: seq<byte>)
    requires s != []
    ensures Grown(Extend(word, Lit(s[0])), s[1..]) == Grown(word, s)
  {
    var sofar := if word.None? then [] else word.value;
    if |s| == 1 {
      assert sofar + Literal(s) == sofar + [Lit(s[0])];
    } else {
      assert sofar + Literal(s) == (sofar + [Lit(s[0])]) + Literal(s[1..]);
    }
  }

  lemma {:induction false} LexPlain(s: seq<byte>, rest: seq<byte>, word: Option<seq<Part>>)
    requires forall b | b in s :: Plain(b)
    ensures Lex(s + rest, false, word) == Lex(rest, false, Grown(word, s))
    decreases |s|
  {
    if s == [] {
      assert s + rest == rest;
    } else {
      assert (s + rest)[0] == s[0] && (s + rest)[1..] == s[1..] + rest;
      assert s[0] in s && Plain(s[0]);
      LexPlain(s[1..], rest, Extend(word, Lit(s[0])));
      GrownByOne(word, s);
    }
  }

  /** Inside single quotes every byte but the quote stands for itself. */
  lemma {:induction false} LexQuoted(s: seq<byte>, rest: seq<byte>, word: Option<seq<Part>>)
    requires QUOTE !in s
    ensures Lex(s + rest, true, word) == Lex(rest, true, Grown(word, s))
    decreases |s|
  {
    if s == [] {
      assert s + rest == rest;
    } else {
      assert (s + rest)[1..] == s[1..] + rest;
      LexQuoted(s[1..], rest, Extend(word, Lit(s[0])));
      GrownByOne(word, s);
    }
  }

  /** The four bytes written for a single quote read back as one quote, inside the quotes again. */
  lemma LexEscapedQuote(rest: seq<byte>, word: Option<seq<Part>>)
    ensures Lex([QUOTE, BACKSLASH, QUOTE, QUOTE] + rest, true, word) == Lex(rest, true, Extend(word, Lit(QUOTE)))
  {
    var s0 := [QUOTE, BACKSLASH, QUOTE, QUOTE] + rest;
    var s1 := [BACKSLASH, QUOTE, QUOTE] + rest;
    var s3 := [QUOTE] + rest;
    assert s0[1..] == s1;
    assert s1[2..] == s3;
    assert s3[1..] == rest;
    assert Lex(s0, true, word) == Lex(s1, false, word);
    assert Lex(s1, false, word) == Lex(s3, false, Extend(word, Lit(QUOTE)));
  }

  lemma {:induction false} LexEscaped(command: seq<byte>, rest: seq<byte>, word: Option<seq<Part>>)
    ensures Lex(Escape(command) + rest, true, word) == Lex(rest, true, Grown(word, command))
    decreases |command|
  {
    if command == [] {
      assert Escape(command) + rest == rest;
    } else {
      var tail := Escape(command[1..]) + rest;
      if command[0] == QUOTE {
        assert Escape(command) + rest == [QUOTE, BACKSLASH, QUOTE, QUOTE] + tail;
        LexEscapedQuote(tail, word);
      } else {
        assert Escape(command) + rest == [command[0]] + tail;
        assert ([command[0]] + tail)[1..] == tail;
      }
      LexEscaped(command[1..], rest, Extend(word, Lit(command[0])));
      GrownByOne(word, command);
    }
  }

  /** A plain word followed by a blank. */
  lemma LexPlainWord(s: seq<byte>, rest: seq<byte>)
    requires s != [] && forall b | b in s :: Plain(b)
    ensures Lex(s + ([SPACE] + rest), false, None) == [Word(Literal(s))] + Lex(rest, false, None)
  {
    LexPlain(s, [SPACE] + rest, None);
    assert [] + Literal(s) == Literal(s);
    assert ([SPACE] + rest)[1..] == rest;
  }

  /** A quoted word followed by a blank, once the quoted text is known to read back as `content`. */
  lemma LexQuotedWord(inner: seq<byte>, content: seq<byte>, rest: seq<byte>)
    requires Lex(inner + ([QUOTE, SPACE] + rest), true, Some([])) == Lex([QUOTE, SPACE] + rest, true, Grown(Some([]), content))
    ensures Lex([QUOTE] + (inner + ([QUOTE, SPACE] + rest)), false, None) == [Word(Literal(content))] + Lex(rest, false, None)
  {
    var body := inner + ([QUOTE, SPACE] + rest);
    assert ([QUOTE] + body)[1..] == body;
    var end := [QUOTE, SPACE] + rest;
    assert end[1..] == [SPACE] + rest;
    assert ([SPACE] + rest)[1..] == rest;
    assert Grown(Some([]), content) == Some(Literal(content)) by { assert [] + Literal(content) == Literal(content); }
    assert Lex(end, true, Some(Literal(content))) == Lex([SPACE] + rest, false, Some(Literal(content)));
  }

  lemma LexStatusLine()
    ensures Lex([DOLLAR, QUESTION, NEWLINE], false, None) == [Word([Status]), Eol]
  {
    var s := [DOLLAR, QUESTION, NEWLINE];
    assert s[2..] == [NEWLINE];
    assert [] + [Status] == [Status];
    assert [NEWLINE][1..] == [];
    assert Lex([], false, None) == [];
  }

  lemma LexSeparator(rest: seq<byte>)
    ensures Lex([SEMICOLON, SPACE] + rest, false, None) == [Semi] + Lex(rest, false, None)
  {
    var s := [SEMICOLON, SPACE] + rest;
    assert s[1..] == [SPACE] + rest;
    LexBlank(rest);
  }

  lemma LexBlank(rest: seq<byte>)
    ensures Lex([SPACE] + rest, false, None) == Lex(rest, false, None)
  {
    assert ([SPACE] + rest)[1..] == rest;
  }

  lemma MarkerFormatHasNoQuote(id: nat)
    ensures QUOTE !in MarkerFormat(id)
  {
  }

  lemma CommandWordsArePlain()
    ensures forall b | b in Ascii("bash") :: Plain(b)
    ensures forall b | b in Ascii("-c") :: Plain(b)
    ensures forall b | b in Ascii("printf") :: Plain(b)
  {
  }

  /** The words the shell makes of the injected line. */
  function InjectedTokens(command: seq<byte>, id: nat): seq<Token> {
    [Word(Literal(Ascii("bash"))), Word(Literal(Ascii("-c"))), Word(Literal(command)), Semi,
     Word(Literal(Ascii("printf"))), Word(Literal(MarkerFormat(id))), Word([Status]), Eol]
  }

  lemma Regroup<T>(bash: seq<T>, sp: seq<T>, flag: seq<T>, q: seq<T>, command: seq<T>, semi: seq<T>,
                   printf: seq<T>, format: seq<T>, status: seq<T>)
    ensures (bash + sp + flag + sp) + (q + command + q) + (sp + semi + sp + printf + sp) + (q + format + q) + (sp + status)
         == bash + (sp + (flag + (sp + (q + (command + ((q + sp) + ((semi + sp) + (printf + (sp + (q + (format + ((q + sp) + status))))))))))))
  {
    var fromFormat := q + (format + ((q + sp) + status));
    assert (q + format + q) + (sp + status) == fromFormat;
    var fromSemi := (semi + sp) + (printf + (sp + fromFormat));
    assert (sp + semi + sp + printf + sp) + fromFormat == sp + fromSemi;
    var fromCommand := q + (command + ((q + sp) + fromSemi));
    assert (q + command + q) + (sp + fromSemi) == fromCommand;
    assert (bash + sp + flag + sp) + fromCommand == bash + (sp + (flag + (sp + fromCommand)));
  }

  /** The injected line, regrouped at the points where the lexer changes state. */
  lemma InjectionRegrouped(command: seq<byte>, id: nat)
    ensures InjectionText(command, id) ==
            Ascii("bash") + ([SPACE] + (Ascii("-c") + ([SPACE] +
            ([QUOTE] + (Escape(command) + ([QUOTE, SPACE] + ([SEMICOLON, SPACE] +
            (Ascii("printf") + ([SPACE] + ([QUOTE] + (MarkerFormat(id) + ([QUOTE, SPACE] + [DOLLAR, QUESTION, NEWLINE]))))))))))))
  {
    assert Ascii("bash -c ") == Ascii("bash") + [SPACE] + Ascii("-c") + [SPACE];
    assert Ascii(" ; printf ") == [SPACE] + [SEMICOLON] + [SPACE] + Ascii("printf") + [SPACE];
    assert Ascii(" $?\n") == [SPACE] + [DOLLAR, QUESTION, NEWLINE];
    assert [QUOTE] + [SPACE] == [QUOTE, SPACE] && [SEMICOLON] + [SPACE] == [SEMICOLON, SPACE];
    Regroup(Ascii("bash"), [SPACE], Ascii("-c"), [QUOTE], Escape(command), [SEMICOLON], Ascii("printf"),
            MarkerFormat(id), [DOLLAR, QUESTION, NEWLINE]);
  }

  /**
   Whatever the command text holds, the shell reads the injected line as: run `bash -c` with exactly that
   text, then printf with the marker format and the exit status.
   */
  lemma InjectionReadsBack(command: seq<byte>, id: nat)
    ensures Lex(InjectionText(command, id), false, None) == InjectedTokens(command, id)
  {
    var status := [DOLLAR, QUESTION, NEWLINE];
    var format := MarkerFormat(id);
    var fromFormat := [QUOTE] + (format + ([QUOTE, SPACE] + status));
    var fromPrintf := Ascii("printf") + ([SPACE] + fromFormat);
    var fromSeparator := [SEMICOLON, SPACE] + fromPrintf;
    var fromCommand := [QUOTE] + (Escape(command) + ([QUOTE, SPACE] + fromSeparator));
    var fromFlag := Ascii("-c") + ([SPACE] + fromCommand);
    InjectionRegrouped(command, id);
    CommandWordsArePlain();
    LexPlainWord(Ascii("bash"), fromFlag);
    LexPlainWord(Ascii("-c"), fromCommand);
    LexEscaped(command, [QUOTE, SPACE] + fromSeparator, Some([]));
    LexQuotedWord(Escape(command), command, fromSeparator);
    LexSeparator(fromPrintf);
    LexPlainWord(Ascii("printf"), fromFormat);
    MarkerFormatHasNoQuote(id);
    LexQuoted(format, [QUOTE, SPACE] + status, Some([]));
    LexQuotedWord(format, format, status);
    LexStatusLine();
  }

  // ---------------------------------------------------------------------------
  // What printf prints
  // ---------------------------------------------------------------------------

  predicate IsOctal(b: byte) {
    ZERO <= b < ZERO + 8
  }

  function OctalDigits(s: seq<byte>, most: nat): (n: nat)
    ensures n <= |s| && n <= most
    ensures forall i | 0 <= i < n :: IsOctal(s[i])
  {
    if most == 0 || s == [] || !IsOctal(s[0]) then 0 else 1 + OctalDigits(s[1..], most - 1)
  }

  function OctalValue(s: seq<byte>): nat
    requires forall i | 0 <= i < |s| :: IsOctal(s[i])
  {
    if s == [] then 0
    else
      assert IsOctal(s[|s| - 1]);
      8 * OctalValue(s[..|s| - 1]) + (s[|s| - 1] - ZERO)
  }

  /**
   The output of printf for one integer argument: backslash-backslash, backslash with one to three octal
   digits, and percent-d; any other conversion or escape has no meaning here.
   */
  function Printf(format: seq<byte>, argument: int): Option<seq<byte>>
    decreases |format|
  {
    if format == [] then Some([])
    else if format[0] == BACKSLASH then
      if |format| > 1 && format[1] == BACKSLASH then Prepend([BACKSLASH], Printf(format[2..], argument))
      else
        var n := OctalDigits(format[1..], 3);
        if n == 0 then None
        else Prepend([OctalValue(format[1..][..n]) % 256], Printf(format[n + 1..], argument))
    else if format[0] == PERCENT then
      if |format| > 1 && format[1] == LOWER_D then Prepend(PrintInt(argument), Printf(format[2..], argument)) else None
    else Prepend([format[0]], Printf(format[1..], argument))
  }

  function Prepend(front: seq<byte>, rest: Option<seq<byte>>): Option<seq<byte>> {
    if rest.None? then None else Some(front + rest.value)
  }

  lemma PrependNothing(rest: Option<seq<byte>>)
    ensures Prepend([], rest) == rest
  {
    if rest.Some? {
      assert [] + rest.value == rest.value;
    }
  }

  lemma PrependTwice(a: seq<byte>, b: seq<byte>, rest: Option<seq<byte>>)
    ensures Prepend(a, Prepend(b, rest)) == Prepend(a + b, rest)
  {
    if rest.Some? {
      assert a + (b + rest.value) == a + b + rest.value;
    }
  }

  lemma {:induction false} PrintfPlain(s: seq<byte>, rest: seq<byte>, argument: int)
    requires BACKSLASH !in s && PERCENT !in s
    ensures Printf(s + rest, argument) == Prepend(s, Printf(rest, argument))
    decreases |s|
  {
    if s == [] {
      assert s + rest == rest;
      PrependNothing(Printf(rest, argument));
    } else {
      assert (s + rest)[0] == s[0] && (s + rest)[1..] == s[1..] + rest;
      PrintfPlain(s[1..], rest, argument);
      PrependTwice([s[0]], s[1..], Printf(rest, argument));
      assert [s[0]] + s[1..] == s;
    }
  }

  lemma OctalStep(s: seq<byte>, d: byte)
    requires IsOctal(d) && forall i | 0 <= i < |s| :: IsOctal(s[i])
    ensures OctalValue(s + [d]) == 8 * OctalValue(s) + (d - ZERO)
  {
    assert (s + [d])[..|s|] == s;
  }

  /** Three octal digits, as in \033. */
  lemma PrintfEscape(rest: seq<byte>, argument: int)
    ensures Printf([BACKSLASH, ZERO, ZERO + 3, ZERO + 3] + rest, argument) == Prepend([ESC], Printf(rest, argument))
  {
    var s := [BACKSLASH, ZERO, ZERO + 3, ZERO + 3] + rest;
    var digits := [ZERO, ZERO + 3, ZERO + 3];
    assert s[1..] == digits + rest;
    assert (digits + rest)[1..] == [ZERO + 3, ZERO + 3] + rest;
    assert ([ZERO + 3, ZERO + 3] + rest)[1..] == [ZERO + 3] + rest;
    assert OctalDigits([ZERO + 3] + rest, 1) == 1;
    assert OctalDigits([ZERO + 3, ZERO + 3] + rest, 2) == 2;
    assert OctalDigits(s[1..], 3) == 3;
    assert s[1..][..3] == digits;
    OctalStep([], ZERO);
    OctalStep([] + [ZERO], ZERO + 3);
    OctalStep([] + [ZERO] + [ZERO + 3], ZERO + 3);
    assert [] + [ZERO] + [ZERO + 3] + [ZERO + 3] == digits;
    assert s[4..] == rest;
  }

  const ESCAPE_ESC: seq<byte> := [BACKSLASH, ZERO, ZERO + 3, ZERO + 3]

  lemma FormatStart()
    ensures Ascii("\\033_CLAWCAGE_EXIT:") == ESCAPE_ESC + Ascii("_CLAWCAGE_EXIT:")
  {
  }

  lemma FormatEnd()
    ensures Ascii(":%d\\033\\\\") == [COLON] + ([PERCENT, LOWER_D] + (ESCAPE_ESC + [BACKSLASH, BACKSLASH]))
  {
  }

  lemma MarkerFormatRegrouped(id: nat)
    ensures MarkerFormat(id) ==
            ESCAPE_ESC + ((Ascii("_CLAWCAGE_EXIT:") + Print(id) + [COLON]) + ([PERCENT, LOWER_D] + (ESCAPE_ESC + [BACKSLASH, BACKSLASH])))
  {
    FormatStart();
    FormatEnd();
    RegroupFive(ESCAPE_ESC, Ascii("_CLAWCAGE_EXIT:"), Print(id), [COLON], [PERCENT, LOWER_D] + (ESCAPE_ESC + [BACKSLASH, BACKSLASH]));
  }

  lemma RegroupFive<T>(a: seq<T>, b: seq<T>, c: seq<T>, d: seq<T>, e: seq<T>)
    ensures (a + b) + c + (d + e) == a + ((b + c + d) + e)
  {
  }

  lemma PrintfBackslash(argument: int)
    ensures Printf([BACKSLASH, BACKSLASH], argument) == Some([BACKSLASH])
  {
    var end := [BACKSLASH, BACKSLASH];
    assert end[2..] == [];
    assert [BACKSLASH] + [] == [BACKSLASH];
    assert Printf([], argument) == Some([]);
  }

  lemma PrintfInteger(rest: seq<byte>, argument: int)
    ensures Printf([PERCENT, LOWER_D] + rest, argument) == Prepend(PrintInt(argument), Printf(rest, argument))
  {
    assert ([PERCENT, LOWER_D] + rest)[2..] == rest;
  }

  lemma PrintfParts(name: seq<byte>, argument: int)
    requires BACKSLASH !in name && PERCENT !in name
    ensures Printf(ESCAPE_ESC + (name + ([PERCENT, LOWER_D] + (ESCAPE_ESC + [BACKSLASH, BACKSLASH]))), argument)
         == Some([ESC] + (name + (PrintInt(argument) + ([ESC] + [BACKSLASH]))))
  {
    var end := [BACKSLASH, BACKSLASH];
    var afterName := [PERCENT, LOWER_D] + (ESCAPE_ESC + end);
    PrintfEscape(name + afterName, argument);
    PrintfPlain(name, afterName, argument);
    PrintfInteger(ESCAPE_ESC + end, argument);
    PrintfEscape(end, argument);
    PrintfBackslash(argument);
  }

  lemma RegroupMarker<T>(esc: T, back: T, name: seq<T>, number: seq<T>, colon: seq<T>, code: seq<T>)
    ensures ([esc] + name) + (number + colon + code) + [esc, back] ==
            [esc] + ((name + number + colon) + (code + ([esc] + [back])))
  {
  }

  lemma MarkerTextRegrouped(id: nat, status: int)
    ensures MarkerText(Exit(id, status)) ==
            [ESC] + ((Ascii("_CLAWCAGE_EXIT:") + Print(id) + [COLON]) + (PrintInt(status) + ([ESC] + [BACKSLASH])))
  {
    RegroupMarker(ESC, BACKSLASH, Ascii("_CLAWCAGE_EXIT:"), Print(id), [COLON], PrintInt(status));
  }

  /** printf with the injected format and an exit status prints exactly the marker the scanner looks for. */
  lemma PrintfPrintsMarker(id: nat, status: int)
    ensures Printf(MarkerFormat(id), status) == Some(MarkerText(Exit(id, status)))
  {
    MarkerFormatRegrouped(id);
    PrintfParts(Ascii("_CLAWCAGE_EXIT:") + Print(id) + [COLON], status);
    MarkerTextRegrouped(id, status);
  }

  // ---------------------------------------------------------------------------
  // From the request to the report
  // ---------------------------------------------------------------------------

  /** What the injected line makes the shell write: the command's own output, then the printed marker. */
  ghost predicate ShellWrites(command: seq<byte>, id: nat, output: seq<byte>, status: int, written: seq<byte>) {
    var tokens := Lex(InjectionText(command, id), false, None);
    && |tokens| == 8
    && tokens[2] == Word(Literal(command))
    && tokens[4] == Word(Literal(Ascii("printf")))
    && tokens[6] == Word([Status])
    && exists format :: tokens[5] == Word(Literal(format))
                        && Printf(format, status).Some? && written == output + Printf(format, status).value
  }

  lemma LiteralIsInjective(a: seq<byte>, b: seq<byte>)
    requires Literal(a) == Literal(b)
    ensures a == b
  {
    forall i | 0 <= i < |a| ensures a[i] == b[i] {
      assert Literal(a)[i] == Literal(b)[i];
    }
  }

  /** There is one thing that it can be, and it is the output followed by the marker. */
  lemma ShellWritesIff(command: seq<byte>, id: nat, output: seq<byte>, status: int, written: seq<byte>)
    ensures ShellWrites(command, id, output, status, written) <==> written == output + MarkerText(Exit(id, status))
  {
    InjectionReadsBack(command, id);
    PrintfPrintsMarker(id, status);
    var tokens := InjectedTokens(command, id);
    assert tokens[5] == Word(Literal(MarkerFormat(id)));
    if ShellWrites(command, id, output, status, written) {
      var format :| tokens[5] == Word(Literal(format))
                    && Printf(format, status).Some? && written == output + Printf(format, status).value;
      LiteralIsInjective(format, MarkerFormat(id));
    }
  }

  /**
   End to end: for every command text, request id, exit status and output that holds no marker prefix, and
   for every way the terminal bytes are split into reads, the scanner reports exactly that id and status
   and passes on exactly the output and what follows it.
   */
  lemma ExecIsReportedExactly(command: seq<byte>, id: nat, output: seq<byte>, status: int, written: seq<byte>,
                              after: seq<byte>, chunks: seq<seq<byte>>)
    requires id < U64_LIMIT && -I32_LIMIT <= status < I32_LIMIT
    requires ShellWrites(command, id, output, status, written)
    requires FindSubsequence(output, EXIT_MARKER.prefix).None?
    requires Concat(chunks) == written + after
    ensures FeedAll(EXIT_MARKER, Scan([], [], None), chunks) == Scan(output, after, Some(Exit(id, status)))
  {
    ShellWritesIff(command, id, output, status, written);
    ReportedExactlyWhenOutputHasNoPrefix(output, Exit(id, status), after);
    ChunkInvariance(EXIT_MARKER, chunks);
  }
}
