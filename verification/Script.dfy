/** The boot script: commands, one to a line. */
module Script {
  import opened Bytes

  const NEWLINE: byte := 0x0A

  predicate IsSpace(c: byte) { c == 0x20 || c == 0x09 }

  predicate IsAlnum(c: byte) { 0x41 <= c <= 0x5A || 0x61 <= c <= 0x7A || 0x30 <= c <= 0x39 }

  /** The first position from i on that holds no blank. */
  function PastBlanks(s: seq<byte>, i: nat): (p: nat)
    requires i <= |s|
    ensures i <= p <= |s| && (p < |s| ==> !IsSpace(s[p])) && forall j :: i <= j < p ==> IsSpace(s[j])
    decreases |s| - i
  {
    if i < |s| && IsSpace(s[i]) then PastBlanks(s, i + 1) else i
  }

  /** The first position from i on that holds no letter or digit. */
  function PastWord(s: seq<byte>, i: nat): (p: nat)
    requires i <= |s|
    ensures i <= p <= |s| && (p < |s| ==> !IsAlnum(s[p])) && forall j :: i <= j < p ==> IsAlnum(s[j])
    decreases |s| - i
  {
    if i < |s| && IsAlnum(s[i]) then PastWord(s, i + 1) else i
  }

  /** The length of the first line. */
  function LineLength(s: seq<byte>): (n: nat)
    ensures n <= |s| && (n < |s| ==> s[n] == NEWLINE) && forall i :: 0 <= i < n ==> s[i] != NEWLINE
  {
    if s == [] || s[0] == NEWLINE then 0 else 1 + LineLength(s[1..])
  }

  datatype Call = Call(command: seq<byte>, arg: seq<byte>)

  /** A line is a word, a blank and an argument; any other line is skipped, also a word alone. */
  function ParseLine(line: seq<byte>): Option<Call> {
    var c := PastBlanks(line, 0);
    var e := PastWord(line, c);
    if e == c || e == |line| || !IsSpace(line[e]) then None
    else Some(Call(line[c..e], line[PastBlanks(line, e + 1)..]))
  }

  /** The call of a line, if it has one. */
  function LineCalls(line: seq<byte>): seq<Call> {
    match ParseLine(line)
    case None => []
    case Some(c) => [c]
  }

  /** A text without its first line. */
  function Behind(text: seq<byte>): (r: seq<byte>)
    ensures text != [] ==> |r| < |text|
  {
    var n := LineLength(text);
    if n < |text| then text[n + 1..] else []
  }

  /** What `parse` makes of the lines of a text, one after the other. */
  function ByLine(parse: seq<byte> -> seq<Call>, text: seq<byte>): seq<Call>
    decreases |text|
  {
    if text == [] then [] else parse(text[..LineLength(text)]) + ByLine(parse, Behind(text))
  }

  function Calls(text: seq<byte>): seq<Call> { ByLine(LineCalls, text) }

  predicate AllBlank(s: seq<byte>) { forall i :: 0 <= i < |s| ==> IsSpace(s[i]) }

  predicate IsWord(s: seq<byte>) { s != [] && forall i :: 0 <= i < |s| ==> IsAlnum(s[i]) }

  /** The grammar of a call: blanks, a word, blanks, and an argument that starts with no blank. */
  predicate IsCallLine(line: seq<byte>, lead: seq<byte>, gap: seq<byte>, c: Call) {
    && line == lead + c.command + gap + c.arg
    && AllBlank(lead) && IsWord(c.command) && AllBlank(gap) && gap != []
    && (c.arg != [] ==> !IsSpace(c.arg[0]))
  }

  /** A line parses to a call if and only if the grammar derives it. */
  lemma ParseMeaning(line: seq<byte>, call: Call)
    ensures ParseLine(line) == Some(call) <==> exists lead: seq<byte>, gap: seq<byte> :: IsCallLine(line, lead, gap, call)
  {
    if ParseLine(line) == Some(call) {
      ParsedInGrammar(line, call);
    }
    if lead: seq<byte>, gap: seq<byte> :| IsCallLine(line, lead, gap, call) {
      GrammarParsed(line, lead, gap, call);
    }
  }

  lemma ParsedInGrammar(line: seq<byte>, call: Call)
    requires ParseLine(line) == Some(call)
    ensures exists lead: seq<byte>, gap: seq<byte> :: IsCallLine(line, lead, gap, call)
  {
    var c := PastBlanks(line, 0);
    var e := PastWord(line, c);
    GrammarAt(line, c, e, PastBlanks(line, e + 1));
  }

  lemma GrammarAt(line: seq<byte>, c: nat, e: nat, g: nat)
    requires c < e < g <= |line| && (forall i :: 0 <= i < c ==> IsSpace(line[i]))
    requires (forall i :: c <= i < e ==> IsAlnum(line[i])) && (forall i :: e <= i < g ==> IsSpace(line[i]))
    requires g < |line| ==> !IsSpace(line[g])
    ensures IsCallLine(line, line[..c], line[e..g], Call(line[c..e], line[g..]))
  {
    assert line == line[..c] + line[c..e] + line[e..g] + line[g..];
  }

  /** Where the pieces of a call line lie. */
  lemma Pieces(line: seq<byte>, lead: seq<byte>, gap: seq<byte>, call: Call, c: nat, e: nat, g: nat)
    requires IsCallLine(line, lead, gap, call)
    requires c == |lead| && e == c + |call.command| && g == e + |gap|
    ensures c < e < g <= |line| && line[c..e] == call.command && line[g..] == call.arg
    ensures (forall i :: 0 <= i < c ==> IsSpace(line[i])) && (forall i :: c <= i < e ==> IsAlnum(line[i]))
    ensures (forall i :: e <= i < g ==> IsSpace(line[i])) && (g < |line| ==> !IsSpace(line[g]))
  {
    assert forall i :: 0 <= i < c ==> line[i] == lead[i];
    assert forall i :: c <= i < e ==> line[i] == call.command[i - c];
    assert forall i :: e <= i < g ==> line[i] == gap[i - e];
    assert forall i :: g <= i < |line| ==> line[i] == call.arg[i - g];
  }

  lemma GrammarParsed(line: seq<byte>, lead: seq<byte>, gap: seq<byte>, call: Call)
    requires IsCallLine(line, lead, gap, call)
    ensures ParseLine(line) == Some(call)
  {
    var c, e := |lead|, |lead| + |call.command|;
    Pieces(line, lead, gap, call, c, e, e + |gap|);
    BlanksEnd(line, 0, c);
    WordEnds(line, c, e);
    BlanksEnd(line, e + 1, e + |gap|);
  }

  lemma BlanksEnd(s: seq<byte>, i: nat, p: nat)
    requires i <= p <= |s| && (p < |s| ==> !IsSpace(s[p])) && forall j :: i <= j < p ==> IsSpace(s[j])
    ensures PastBlanks(s, i) == p
  {
  }

  lemma WordEnds(s: seq<byte>, i: nat, p: nat)
    requires i <= p <= |s| && (p < |s| ==> !IsAlnum(s[p])) && forall j :: i <= j < p ==> IsAlnum(s[j])
    ensures PastWord(s, i) == p
  {
  }

  /** Lines are parsed on their own. */
  lemma CallsConcat(a: seq<byte>, b: seq<byte>)
    ensures Calls(a + ([NEWLINE] + b)) == Calls(a) + Calls(b)
  {
    assert LineCalls([]) == [];
    ByLineConcat(LineCalls, a, [NEWLINE] + b);
    assert ([NEWLINE] + b)[1..] == b;
    FirstLineEmpty(LineCalls, [NEWLINE] + b);
  }

  lemma FirstLineEmpty(parse: seq<byte> -> seq<Call>, t: seq<byte>)
    requires parse([]) == [] && t != [] && t[0] == NEWLINE
    ensures ByLine(parse, t) == ByLine(parse, t[1..])
  {
    LineIs(t, 0);
    assert t[..0] == [];
  }

  lemma {:induction false} ByLineConcat(parse: seq<byte> -> seq<Call>, a: seq<byte>, t: seq<byte>)
    requires parse([]) == [] && t != [] && t[0] == NEWLINE
    ensures ByLine(parse, a + t) == ByLine(parse, a) + ByLine(parse, t)
    decreases |a|
  {
    if a == [] {
      assert a + t == t;
    } else {
      var n := LineLength(a);
      FirstLine(a, t);
      if n < |a| {
        ByLineConcat(parse, Behind(a), t);
        JoinCalls(parse(a[..n]), ByLine(parse, Behind(a)), ByLine(parse, t));
      } else {
        FirstLineEmpty(parse, t);
        JoinCalls(parse(a[..n]), [], ByLine(parse, t));
      }
    }
  }

  lemma JoinCalls(x: seq<Call>, y: seq<Call>, z: seq<Call>)
    ensures x + (y + z) == (x + y) + z && [] + z == z
  {
  }

  /** Appending behind a separator leaves the first line alone. */
  lemma FirstLine(a: seq<byte>, t: seq<byte>)
    requires a != [] && t != [] && t[0] == NEWLINE
    ensures
      var n := LineLength(a);
      && LineLength(a + t) == n && (a + t)[..n] == a[..n]
      && Behind(a + t) == if n < |a| then Behind(a) + t else t[1..]
  {
    var n, s := LineLength(a), a + t;
    assert s[n] == if n < |a| then a[n] else t[0];
    assert forall i :: 0 <= i < n ==> s[i] == a[i];
    LineIs(s, n);
    assert s[n + 1..] == if n < |a| then a[n + 1..] + t else t[1..];
  }

  datatype Status = Finished | Failed | Unknown

  /** `echo`, `info`, `multiboot` */
  const COMMANDS: seq<seq<byte>> := [
    [0x65, 0x63, 0x68, 0x6F], [0x69, 0x6E, 0x66, 0x6F], [0x6D, 0x75, 0x6C, 0x74, 0x69, 0x62, 0x6F, 0x6F, 0x74]]

  /** Calls are dispatched in order, up to the first that is unknown or fails.  Whether a call
      succeeds may depend on everything dispatched before it. */
  function Dispatch(calls: seq<Call>, succeeds: (seq<Call>, Call) -> bool, done: seq<Call>): (seq<Call>, Status) {
    if calls == [] then (done, Finished)
    else
      var c := calls[0];
      if c.command !in COMMANDS then (done, Unknown)
      else if succeeds(done, c) then Dispatch(calls[1..], succeeds, done + [c])
      else (done + [c], Failed)
  }

  /** What was dispatched is the beginning of the calls, and all of them unless the run stopped:
      at a known command that failed, or in front of an unknown one. */
  lemma {:induction false} DispatchedPrefix(calls: seq<Call>, succeeds: (seq<Call>, Call) -> bool, done: seq<Call>)
    ensures
      var (log, status) := Dispatch(calls, succeeds, done);
      && done <= log <= done + calls
      && (forall i :: |done| <= i < |log| ==> log[i].command in COMMANDS)
      && (forall i :: |done| <= i < |log| ==> (succeeds(log[..i], log[i]) <==> status != Failed || i < |log| - 1))
      && (status == Finished ==> log == done + calls)
      && (status == Unknown ==> |log| < |done + calls| && (done + calls)[|log|].command !in COMMANDS)
      && (status == Failed ==> |done| < |log|)
  {
    if calls != [] && calls[0].command in COMMANDS {
      var c := calls[0];
      assert done + calls == (done + [c]) + calls[1..];
      assert (done + [c])[..|done|] == done;
      if succeeds(done, c) {
        DispatchedPrefix(calls[1..], succeeds, done + [c]);
        var log := Dispatch(calls[1..], succeeds, done + [c]).0;
        assert log[|done|] == c && log[..|done|] == done;
      }
    }
  }

  // ------------------------------------------------------------ parsing in place

  lemma LineIs(s: seq<byte>, n: nat)
    requires n <= |s| && (n < |s| ==> s[n] == NEWLINE) && forall i :: 0 <= i < n ==> s[i] != NEWLINE
    ensures LineLength(s) == n
  {
  }

  /** The line from a to b, with a NUL behind it. */
  ghost predicate IsLine(buf: array<byte>, a: nat, b: nat)
    reads buf
  {
    a <= b < buf.Length && buf[b] == 0 && forall i :: a <= i < b ==> buf[i] != 0
  }

  /** From position i on the line at a is still `line`, with a NUL behind it. */
  ghost predicate Reads(buf: array<byte>, a: nat, line: seq<byte>, i: nat)
    reads buf
  {
    && a + |line| < buf.Length && i <= |line| && buf[a + |line|] == 0
    && forall j :: i <= j < |line| ==> buf[a + j] == line[j] != 0
  }

  method SkipBlanks(buf: array<byte>, p: nat, ghost a: nat, ghost line: seq<byte>) returns (q: nat)
    requires a <= p && Reads(buf, a, line, p - a)
    ensures q == a + PastBlanks(line, p - a)
  {
    q := p;
    while IsSpace(buf[q])
      invariant p <= q <= a + |line| && PastBlanks(line, p - a) == PastBlanks(line, q - a)
      decreases a + |line| - q
    {
      assert buf[q] == buf[a + (q - a)];
      q := q + 1;
    }
    assert q < a + |line| ==> buf[q] == line[q - a];
  }

  method SkipWord(buf: array<byte>, p: nat, ghost a: nat, ghost line: seq<byte>) returns (q: nat)
    requires a <= p && Reads(buf, a, line, p - a)
    ensures q == a + PastWord(line, p - a)
  {
    q := p;
    while IsAlnum(buf[q])
      invariant p <= q <= a + |line| && PastWord(line, p - a) == PastWord(line, q - a)
      decreases a + |line| - q
    {
      assert buf[q] == buf[a + (q - a)];
      q := q + 1;
    }
    assert q < a + |line| ==> buf[q] == line[q - a];
  }

  /** Splits a line: None if it holds no call, else where the command ends (there a NUL is
      written) and where command and argument start. */
  method SplitLine(buf: array<byte>, a: nat, ghost line: seq<byte>) returns (r: Option<(nat, nat, nat)>)
    requires Reads(buf, a, line, 0)
    modifies buf
    ensures r.None? ==> Parses(line, None) && buf[..] == old(buf[..])
    ensures r.Some? ==>
      var (cmd, end, arg) := r.value;
      && a <= cmd < end < arg <= a + |line| && buf[..] == old(buf[..])[end := 0]
      && Parses(line, Some(Call(line[cmd - a..end - a], line[arg - a..])))
  {
    ghost var was := buf[..];
    var place := FindCommand(buf, a, line);
    if place.None? {
      return None;
    }
    var (cmd, end) := place.value;
    buf[end] := 0;
    assert buf[..] == was[end := 0];
    var arg := SkipBlanks(buf, end + 1, a, line);
    ParseAs(line, cmd - a, end - a, arg - a);
    return Some((cmd, end, arg));
  }

  /** Where the command of a line starts and ends, if a blank follows it. */
  method FindCommand(buf: array<byte>, a: nat, ghost line: seq<byte>) returns (r: Option<(nat, nat)>)
    requires Reads(buf, a, line, 0)
    ensures r.None? ==> Parses(line, None)
    ensures r.Some? ==>
      var (cmd, end) := r.value;
      && cmd == a + PastBlanks(line, 0) && end == a + PastWord(line, cmd - a)
      && cmd < end < a + |line| && IsSpace(line[end - a])
  {
    var cmd := SkipBlanks(buf, a, a, line);
    assert cmd < a + |line| ==> buf[cmd] == line[cmd - a];
    if !IsAlnum(buf[cmd]) {
      ParseNone(line, cmd - a, cmd - a);
      return None;
    }
    var end := SkipWord(buf, cmd, a, line);
    assert end < a + |line| ==> buf[end] == line[end - a];
    if !IsSpace(buf[end]) {
      ParseNone(line, cmd - a, end - a);
      return None;
    }
    return Some((cmd, end));
  }

  /** `call` is what the line parses to; taken apart only where `Open` is mentioned. */
  ghost predicate Parses(line: seq<byte>, call: Option<Call>) {
    forall u: int {:trigger Open(u)} :: Open(u) && ParseLine(line) == call
  }

  lemma ParseAs(line: seq<byte>, c: nat, e: nat, g: nat)
    requires c == PastBlanks(line, 0) && e == PastWord(line, c) && c < e < |line| && IsSpace(line[e])
    requires g == PastBlanks(line, e + 1)
    ensures Parses(line, Some(Call(line[c..e], line[g..])))
  {
    assert ParseLine(line) == Some(Call(line[c..e], line[g..]));
  }

  lemma ParseNone(line: seq<byte>, c: nat, e: nat)
    requires c == PastBlanks(line, 0) && e == PastWord(line, c)
    requires c == e || e == |line| || !IsSpace(line[e])
    ensures Parses(line, None)
  {
    assert ParseLine(line) == None;
  }

  /** `StrEqual` of a command name and a word in the buffer. */
  method StrEqual(name: seq<byte>, buf: array<byte>, p: nat, ghost q: nat) returns (r: bool)
    requires IsLine(buf, p, q) && 0 !in name
    ensures r <==> name == buf[p..q]
  {
    var i := 0;
    ghost var w := buf[p..q];
    while true
      invariant 0 <= i <= |name| && i <= q - p && name[..i] == w[..i]
      decreases |name| - i
    {
      var x := if i < |name| then name[i] else 0;
      assert i < |name| ==> x in name;
      assert buf[p + i] == if i < |w| then w[i] else 0;
      if x != buf[p + i] {
        return false;
      }
      if x == 0 {
        assert name[..i] == name && w[..i] == w;
        return true;
      }
      i := i + 1;
    }
  }

  /** The loop over the command table. */
  method IsKnown(buf: array<byte>, p: nat, ghost q: nat) returns (found: bool)
    requires IsLine(buf, p, q)
    ensures found <==> buf[p..q] in COMMANDS
  {
    var i := 0;
    while i < |COMMANDS|
      invariant 0 <= i <= |COMMANDS| && buf[p..q] !in COMMANDS[..i]
    {
      var same := StrEqual(COMMANDS[i], buf, p, q);
      if same {
        return true;
      }
      i := i + 1;
    }
    return false;
  }

  /** Finds the end of the line and makes it a NUL; next is where the next line starts. */
  method IsolateLine(buf: array<byte>, p: nat, ghost n: nat) returns (end: nat, next: nat)
    requires IsLine(buf, p, n) && p < n
    modifies buf
    ensures end == p + LineLength(old(buf[p..n])) && next == (if end < n then end + 1 else n)
    ensures buf[..] == old(buf[..])[end := 0] && IsLine(buf, p, end) && IsLine(buf, next, n)
  {
    ghost var text := buf[p..n];
    end := p;
    while buf[end] != 0 && buf[end] != NEWLINE
      invariant p <= end <= n && forall i :: p <= i < end ==> buf[i] != NEWLINE
      decreases n - end
    {
      end := end + 1;
    }
    LineIs(text, end - p);
    next := end;
    ghost var was := buf[..];
    if buf[end] == NEWLINE {
      buf[end] := 0;
      next := end + 1;
    }
    assert buf[..] == was[end := 0];
  }

  /** The dispatch of a single call. */
  function DispatchOne(c: Call, succeeds: (seq<Call>, Call) -> bool, done: seq<Call>): (seq<Call>, Status) {
    if c.command !in COMMANDS then (done, Unknown)
    else (done + [c], if succeeds(done, c) then Finished else Failed)
  }

  /** What the call of a line, if it has one, does to a run. */
  ghost predicate CallDone(
      call: Option<Call>, succeeds: (seq<Call>, Call) -> bool, done: seq<Call>, log: seq<Call>, status: Status)
  {
    match call
    case None => log == done && status == Finished
    case Some(c) => (log, status) == DispatchOne(c, succeeds, done)
  }

  /** With the calls in `done` behind it the text runs to this outcome. */
  ghost predicate Runs(
      text: seq<byte>, succeeds: (seq<Call>, Call) -> bool, done: seq<Call>, outcome: (seq<Call>, Status))
  {
    forall u: int {:trigger Open(u)} :: Open(u) && Dispatch(Calls(text), succeeds, done) == outcome
  }

  lemma RunStep(
      text: seq<byte>, call: Option<Call>, succeeds: (seq<Call>, Call) -> bool, done: seq<Call>, log: seq<Call>,
      status: Status, outcome: (seq<Call>, Status))
    requires Runs(text, succeeds, done, outcome)
    requires text != [] && Parses(text[..LineLength(text)], call) && CallDone(call, succeeds, done, log, status)
    ensures if status == Finished then Runs(Behind(text), succeeds, log, outcome) else outcome == (log, status)
  {
    assert Open(0);
    var rest := Calls(Behind(text));
    match call
    case None => assert [] + rest == rest;
    case Some(c) => assert ([c] + rest)[1..] == rest;
  }

  lemma RunEnds(succeeds: (seq<Call>, Call) -> bool, done: seq<Call>, outcome: (seq<Call>, Status))
    requires Runs([], succeeds, done, outcome)
    ensures outcome == (done, Finished)
  {
    assert Open(0);
  }

  /** One line: what it dispatches, and whether the script goes on. */
  method RunLine(buf: array<byte>, a: nat, succeeds: (seq<Call>, Call) -> bool, done: seq<Call>, ghost line: seq<byte>)
    returns (log: seq<Call>, status: Status, ghost call: Option<Call>)
    requires Reads(buf, a, line, 0)
    modifies buf
    // nothing but a NUL inside the line is written
    ensures forall i :: 0 <= i < buf.Length ==> buf[i] == old(buf[i]) || (a <= i < a + |line| && buf[i] == 0)
    ensures Parses(line, call) && CallDone(call, succeeds, done, log, status)
  {
    ghost var was := buf[..];
    var r := SplitLine(buf, a, line);
    if r.None? {
      assert forall i :: 0 <= i < buf.Length ==> buf[i] == buf[..][i];
      return done, Finished, None;
    }
    var (cmd, end, arg) := r.value;
    call := Some(Call(line[cmd - a..end - a], line[arg - a..]));
    Unsplit(buf, a, line, cmd, end, arg, was);
    log, status := DispatchAt(buf, cmd, end, arg, a + |line|, succeeds, done);
    OneNul(buf, was, end);
  }

  lemma OneNul(buf: array<byte>, was: seq<byte>, end: nat)
    requires end < |was| == buf.Length && buf[..] == was[end := 0]
    ensures forall i :: 0 <= i < buf.Length ==> buf[i] == if i == end then 0 else was[i]
  {
    assert forall i :: 0 <= i < buf.Length ==> buf[i] == buf[..][i];
  }

  /** Looks the command up and calls it. */
  method DispatchAt(
      buf: array<byte>, cmd: nat, ghost end: nat, arg: nat, ghost stop: nat, succeeds: (seq<Call>, Call) -> bool, done: seq<Call>)
    returns (log: seq<Call>, status: Status)
    requires IsLine(buf, cmd, end) && IsLine(buf, arg, stop)
    ensures (log, status) == DispatchOne(Call(buf[cmd..end], buf[arg..stop]), succeeds, done)
  {
    var known := IsKnown(buf, cmd, end);
    if !known {
      return done, Unknown;
    }
    var command := TakeString(buf, cmd, end);
    var argument := TakeString(buf, arg, stop);
    log := done + [Call(command, argument)];
    status := if succeeds(done, Call(command, argument)) then Finished else Failed;
  }

  /** The two strings that a split line holds. */
  lemma Unsplit(buf: array<byte>, a: nat, line: seq<byte>, cmd: nat, end: nat, arg: nat, was: seq<byte>)
    requires a <= cmd < end < arg <= a + |line| < |was| == buf.Length && buf[..] == was[end := 0]
    requires was[a + |line|] == 0 && forall j :: 0 <= j < |line| ==> was[a + j] == line[j] != 0
    ensures IsLine(buf, cmd, end) && buf[cmd..end] == line[cmd - a..end - a]
    ensures IsLine(buf, arg, a + |line|) && buf[arg..a + |line|] == line[arg - a..]
  {
    forall i | a <= i < a + |line| && i != end ensures buf[i] == line[i - a] != 0 {
      assert buf[i] == buf[..][i] == was[a + (i - a)];
    }
    assert buf[end] == buf[..][end] && buf[a + |line|] == buf[..][a + |line|];
  }

  /** The C string at p. */
  method TakeString(buf: array<byte>, p: nat, ghost q: nat) returns (s: seq<byte>)
    requires IsLine(buf, p, q)
    ensures s == buf[p..q]
  {
    s := [];
    var i := p;
    while buf[i] != 0
      invariant p <= i <= q && s == buf[p..i]
      decreases q - i
    {
      s := s + [buf[i]];
      i := i + 1;
    }
  }

  /** One round of the loop.  Only inside the line, and at its newline, NULs are written. */
  method RunNext(
      buf: array<byte>, ptr: nat, succeeds: (seq<Call>, Call) -> bool, done: seq<Call>, ghost n: nat,
      ghost outcome: (seq<Call>, Status))
    returns (next: nat, log: seq<Call>, status: Status)
    requires IsLine(buf, ptr, n) && ptr < n && Runs(buf[ptr..n], succeeds, done, outcome)
    modifies buf
    ensures ptr < next <= n && IsLine(buf, next, n)
    ensures forall i :: 0 <= i < buf.Length ==> buf[i] == old(buf[i]) || (ptr <= i < next && buf[i] == 0)
    ensures if status == Finished then Runs(buf[next..n], succeeds, log, outcome) else outcome == (log, status)
  {
    ghost var rest, was := buf[ptr..n], buf[..];
    var end;
    end, next := IsolateLine(buf, ptr, n);
    OneNul(buf, was, end);
    assert Behind(rest) == buf[next..n];
    ghost var call;
    log, status, call := RunLine(buf, ptr, succeeds, done, rest[..LineLength(rest)]);
    RunStep(rest, call, succeeds, done, log, status, outcome);
    assert Behind(rest) == buf[next..n];
  }

  /** Dispatches exactly the calls of the text, parsed line by line, up to the first that is
      unknown or fails.  In the text only NULs are written, and nothing behind it. */
  method RunScript(buf: array<byte>, succeeds: (seq<Call>, Call) -> bool, ghost n: nat)
    returns (log: seq<Call>, status: Status)
    requires IsLine(buf, 0, n)
    modifies buf
    ensures (log, status) == Dispatch(Calls(old(buf[..n])), succeeds, [])
    ensures forall i :: 0 <= i < buf.Length ==> buf[i] == old(buf[i]) || (i < n && buf[i] == 0)
  {
    ghost var outcome := Dispatch(Calls(buf[..n]), succeeds, []);
    log, status := [], Finished;
    var ptr := 0;
    assert buf[0..n] == buf[..n];
    while buf[ptr] != 0
      invariant 0 <= ptr <= n && IsLine(buf, ptr, n) && status == Finished
      invariant Runs(buf[ptr..n], succeeds, log, outcome)
      invariant forall i :: 0 <= i < buf.Length ==> buf[i] == old(buf[i]) || (i < n && buf[i] == 0)
      decreases n - ptr
    {
      ptr, log, status := RunNext(buf, ptr, succeeds, log, n, outcome);
      if status != Finished {
        return;
      }
    }
    assert buf[n..n] == [];
    RunEnds(succeeds, log, outcome);
  }
}
