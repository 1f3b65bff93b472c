/** Boot scripts as texts: which lines are calls, character by character, and which calls a script
    that was written down makes. */
module ScriptText {
  import opened Bytes
  import opened Script

  /** The bytes of an ASCII text. */
  function Ascii(s: string): (b: seq<byte>)
    requires forall i :: 0 <= i < |s| ==> s[i] as int < 0x80
    ensures |b| == |s| && forall i :: 0 <= i < |s| ==> b[i] == s[i] as int
  {
    seq(|s|, i requires 0 <= i < |s| => s[i] as int)
  }

  /** A letter or a digit, and nothing else, is a command. */
  lemma CommandChars(c: byte)
    ensures
      Calls([c, 0x20]) == [Call([c], [])]
      <==> 'A' as int <= c <= 'Z' as int || 'a' as int <= c <= 'z' as int || '0' as int <= c <= '9' as int
  {
    if c == 0x0A {
      NewlineOnly([c, 0x20]);
    } else {
      SingleLine([c, 0x20]);
      if IsAlnum(c) { CharCalled(c); } else { CharNotCalled(c); }
    }
  }

  lemma NewlineOnly(text: seq<byte>)
    requires |text| == 2 && text[0] == 0x0A && text[1] == 0x20
    ensures Calls(text) == []
  {
    var a: seq<byte>, b: seq<byte> := [], [0x20];
    assert text == a + ([NEWLINE] + b);
    CallsConcat(a, b);
    SingleLine(b);
    NoCommand(b);
  }

  lemma CharCalled(c: byte)
    requires IsAlnum(c)
    ensures LineCalls([c, 0x20]) == [Call([c], [])]
  {
    var line, lead, call := [c, 0x20], [], Call([c], []);
    assert line == lead + call.command + [0x20] + call.arg;
    assert IsCallLine(line, lead, [0x20], call);
    ParseMeaning(line, call);
  }

  lemma CharNotCalled(c: byte)
    requires !IsAlnum(c) && c != NEWLINE
    ensures LineCalls([c, 0x20]) == []
  {
    var line := [c, 0x20];
    if IsSpace(c) {
      NoCommand(line);
    } else {
      BlanksEnd(line, 0, 0);
      WordEnds(line, 0, 0);
    }
  }

  /** A text of one line. */
  lemma SingleLine(text: seq<byte>)
    requires text != [] && NEWLINE !in text
    ensures Calls(text) == LineCalls(text)
  {
    LineIs(text, |text|);
    assert text[..|text|] == text && ByLine(LineCalls, []) == [];
  }

  lemma NoCommand(line: seq<byte>)
    requires AllBlank(line)
    ensures ParseLine(line) == None
  {
    BlanksEnd(line, 0, |line|);
  }

  /** Blanks and tabs, and nothing else, end a command. */
  lemma BlankChars(c: byte)
    ensures Calls([0x61, c, 0x62]) == [Call([0x61], [0x62])] <==> c == ' ' as int || c == '\t' as int
  {
    var line, call := [0x61, c, 0x62], Call([0x61], [0x62]);
    if c == ' ' as int || c == '\t' as int {
      SingleLine(line);
      assert line == [] + call.command + [c] + call.arg;
      assert IsCallLine(line, [], [c], call);
      ParseMeaning(line, call);
    } else if c == 0x0A {
      LineIs(line, 1);
      assert line[..1] == [0x61] && Behind(line) == [0x62];
      SingleLine([0x62]);
      assert ParseLine([0x61]) == None && ParseLine([0x62]) == None;
    } else {
      SingleLine(line);
      assert ParseLine(line) != Some(call);
    }
  }

  // ------------------------------------------------------------ printed scripts

  predicate IsCommandText(s: seq<byte>) {
    s != [] && forall i :: 0 <= i < |s| ==> 'A' as int <= s[i] <= 'Z' as int || 'a' as int <= s[i] <= 'z' as int
                                             || '0' as int <= s[i] <= '9' as int
  }

  /** A call that can be written on a line. */
  predicate CanPrint(c: Call) {
    && IsCommandText(c.command) && 0x0A !in c.arg
    && (c.arg != [] ==> c.arg[0] != ' ' as int && c.arg[0] != '\t' as int)
  }

  /** The call on a line. */
  function Line(c: Call): seq<byte> { c.command + [0x20] + c.arg }

  /** The calls, one to a line. */
  function Printed(calls: seq<Call>): seq<byte> {
    if calls == [] then [] else Printed(calls[..|calls| - 1]) + (Line(calls[|calls| - 1]) + [0x0A])
  }

  lemma PrintedLine(c: Call)
    requires CanPrint(c)
    ensures LineCalls(Line(c)) == [c] && Line(c) != [] && NEWLINE !in Line(c)
  {
    var line := Line(c);
    assert line == [] + c.command + [0x20] + c.arg;
    assert IsCallLine(line, [], [0x20], c);
    ParseMeaning(line, c);
  }

  lemma PrintedEnds(calls: seq<Call>)
    ensures Printed(calls) != [] ==> Printed(calls)[|Printed(calls)| - 1] == NEWLINE
  {
  }

  ghost predicate AllPrint(calls: seq<Call>) {
    forall u: int {:trigger Open(u)} :: Open(u) && forall i :: 0 <= i < |calls| ==> CanPrint(calls[i])
  }

  lemma FrontPrints(calls: seq<Call>)
    requires AllPrint(calls) && calls != []
    ensures AllPrint(calls[..|calls| - 1]) && CanPrint(calls[|calls| - 1])
  {
    assert Open(0);
  }

  /** The text has these calls; taken apart only where `Open` is mentioned. */
  ghost predicate Has(text: seq<byte>, calls: seq<Call>) {
    forall u: int {:trigger Open(u)} :: Open(u) && Calls(text) == calls
  }

  lemma {:induction false} PrintedHas(calls: seq<Call>)
    requires AllPrint(calls)
    ensures Has(Printed(calls), calls)
  {
    if calls == [] {
      NothingHas();
    } else {
      var n := |calls| - 1;
      FrontPrints(calls);
      PrintedHas(calls[..n]);
      PrintedEnds(calls[..n]);
      OneMore(Printed(calls[..n]), calls[..n], calls[n]);
      assert calls == calls[..n] + [calls[n]];
    }
  }

  lemma NothingHas()
    ensures Has([], [])
  {
    assert Calls([]) == [];
  }

  lemma OneMore(text: seq<byte>, calls: seq<Call>, last: Call)
    requires Has(text, calls) && CanPrint(last) && (text != [] ==> text[|text| - 1] == NEWLINE)
    ensures Has(text + (Line(last) + [0x0A]), calls + [last])
  {
    assert Open(0);
    PrintedLine(last);
    LineBehind(text, Line(last));
  }

  /** A script that was written down is parsed to the calls in it. */
  lemma PrintedParses(calls: seq<Call>)
    requires forall i :: 0 <= i < |calls| ==> CanPrint(calls[i])
    ensures Calls(Printed(calls)) == calls
  {
    PrintedHas(calls);
    assert Open(0);
  }

  /** A newline at the end changes nothing. */
  lemma EndedText(text: seq<byte>)
    ensures Calls(text + [NEWLINE]) == Calls(text)
  {
    var none: seq<byte> := [];
    assert [NEWLINE] + none == [NEWLINE];
    CallsConcat(text, none);
    assert Calls(none) == [] && Calls(text) + [] == Calls(text);
  }

  /** One more line of a text that ends with a newline. */
  lemma LineBehind(text: seq<byte>, line: seq<byte>)
    requires line != [] && NEWLINE !in line && (text != [] ==> text[|text| - 1] == NEWLINE)
    ensures Calls(text + (line + [NEWLINE])) == Calls(text) + LineCalls(line)
  {
    SingleLine(line);
    EndedText(line);
    var last := line + [NEWLINE];
    if text == [] {
      assert text + last == last;
      assert Calls(text) == [] && [] + LineCalls(line) == LineCalls(line);
    } else {
      var front := text[..|text| - 1];
      assert text == front + [NEWLINE] && text + last == front + ([NEWLINE] + last);
      EndedText(front);
      CallsConcat(front, last);
    }
  }

  /** The three commands that are known. */
  lemma KnownCommands(c: seq<byte>)
    ensures c in COMMANDS <==> c == Ascii("echo") || c == Ascii("info") || c == Ascii("multiboot")
  {
    assert COMMANDS[0] == Ascii("echo") && COMMANDS[1] == Ascii("info") && COMMANDS[2] == Ascii("multiboot");
  }
}
