/**
 * The filter on the trainer's error output: it forwards complete lines as they arrive, and holds a
 * Python traceback back until it is clear whether the run went on after it.
 */
module TrainerStderr {
  import opened JsValues
  import opened Outcomes

  const NEWLINE: CodeUnit := 10
  const CARRIAGE: CodeUnit := 13

  // ----- texts

  predicate IsSpace(u: CodeUnit) {
    9 <= u <= 13 || u == 32 || u == 0xA0 || u == 0x1680 || 0x2000 <= u <= 0x200A
    || u == 0x2028 || u == 0x2029 || u == 0x202F || u == 0x205F || u == 0x3000 || u == 0xFEFF
  }

  function TrimEnd(s: JsString): JsString {
    if s != [] && IsSpace(s[|s| - 1]) then TrimEnd(s[..|s| - 1]) else s
  }

  predicate StartsWith(s: JsString, prefix: JsString) {
    |prefix| <= |s| && s[..|prefix|] == prefix
  }

  predicate StartsWithSpace(s: JsString) {
    s != [] && IsSpace(s[0])
  }

  predicate IsLineTerminator(u: CodeUnit) {
    u == NEWLINE || u == CARRIAGE || u == 0x2028 || u == 0x2029
  }

  const TRACEBACK_START: JsString := Text("Traceback (most recent call last):")
  const NO_MODULE: JsString := Text("No module named ")
  const NO_SPECIFICATION: JsString := Text("Error while finding module specification for ")

  predicate LaunchAt(s: JsString, i: nat) {
    && i <= |s| && NoTerminator(s[..i])
    && (StartsWith(s[i..], Text(": ") + NO_MODULE) || StartsWith(s[i..], Text(": ") + NO_SPECIFICATION))
  }

  /** Something, a colon and a space, and one of the two messages, on a line that is no report of the trainer. */
  predicate IsLaunchMessage(s: JsString) {
    && !StartsWith(s, Text("error:")) && !StartsWith(s, Text("warning:")) && !StartsWith(s, Text("note:"))
    && exists i :: 1 <= i <= |s| && LaunchAt(s, i)
  }

  predicate NoTerminator(s: JsString) {
    forall i :: 0 <= i < |s| ==> !IsLineTerminator(s[i])
  }

  predicate IsLaunchFailure(s: JsString) {
    IsLaunchMessage(s) || StartsWith(s, NO_SPECIFICATION)
  }

  predicate IsChained(s: JsString) {
    StartsWith(s, Text("During handling of the above exception"))
      || StartsWith(s, Text("The above exception was the direct cause"))
  }

  predicate StartsTraceback(s: JsString) {
    s == TRACEBACK_START || IsLaunchFailure(s)
  }

  // ----- where a line ends

  /** A newline, or a carriage return followed by something else; a final carriage return decides nothing yet. */
  predicate EndsLineAt(s: JsString, i: nat) {
    i < |s| && (s[i] == NEWLINE || (s[i] == CARRIAGE && i + 1 < |s| && s[i + 1] != NEWLINE))
  }

  function LineEndFrom(s: JsString, i: nat): (r: Option<nat>)
    requires i <= |s|
    ensures r.Some? ==>
            i <= r.value < |s| && EndsLineAt(s, r.value) && forall j: nat :: i <= j < r.value ==> !EndsLineAt(s, j)
    ensures r.None? ==> forall j: nat :: i <= j < |s| ==> !EndsLineAt(s, j)
    decreases |s| - i
  {
    if i == |s| then None else if EndsLineAt(s, i) then Some(i) else LineEndFrom(s, i + 1)
  }

  /** The end of the first complete line, if there is one. */
  function LineEnd(s: JsString): Option<nat> {
    LineEndFrom(s, 0)
  }

  lemma {:induction false} LineEndIs(s: JsString, e: nat)
    requires EndsLineAt(s, e) && forall j: nat :: j < e ==> !EndsLineAt(s, j)
    ensures LineEnd(s) == Some(e)
  {
  }

  /** More text never moves the end of a line that is already complete. */
  lemma {:induction false} LineEndIsStable(s: JsString, more: JsString)
    requires LineEnd(s).Some?
    ensures LineEnd(s + more) == LineEnd(s)
  {
    var e := LineEnd(s).value;
    forall j: nat | j < e
      ensures !EndsLineAt(s + more, j)
    {
      assert !EndsLineAt(s, j);
    }
    LineEndIs(s + more, e);
  }

  // ----- the filter as a function of its state

  /** What is pending, held and remembered, and the texts forwarded so far. */
  datatype State = State(
    pending: JsString,
    held: Option<seq<JsString>>,
    complete: bool,
    released: Option<JsString>,
    forwarded: seq<JsString>)

  const INITIAL := State([], None, false, None, [])

  function Joined(lines: seq<JsString>): JsString {
    if lines == [] then [] else Joined(lines[..|lines| - 1]) + lines[|lines| - 1]
  }

  function Released(s: State): State {
    match s.held
    case None => s
    case Some(held) => s.(held := None, released := Some(Joined(held)), forwarded := s.forwarded + held)
  }

  /** Whether a trimmed line belongs to the held traceback. */
  predicate Continues(complete: bool, text: JsString) {
    text == TRACEBACK_START || !complete || text == [] || StartsWithSpace(text) || IsChained(text)
  }

  /** Whether the exception line of the held traceback has arrived, once the line is part of it. */
  predicate Completed(complete: bool, text: JsString) {
    if text == TRACEBACK_START then false else complete || (text != [] && !StartsWithSpace(text))
  }

  function Opened(s: State, line: JsString): State {
    var text := TrimEnd(line);
    if StartsTraceback(text) then s.(held := Some([line]), complete := text != TRACEBACK_START)
    else s.(released := if StartsWith(text, Text("error:")) then None else s.released,
      forwarded := s.forwarded + [line])
  }

  function Line(s: State, line: JsString): State {
    var text := TrimEnd(line);
    if s.held.Some? && Continues(s.complete, text)
    then s.(held := Some(s.held.value + [line]), complete := Completed(s.complete, text))
    else Opened(Released(s), line)
  }

  /** Takes every complete line off the pending text. */
  function Drained(s: State): State
    decreases |s.pending|
  {
    match LineEnd(s.pending)
    case None => s
    case Some(e) => Drained(Line(s, s.pending[..e + 1]).(pending := s.pending[e + 1..]))
  }

  lemma {:induction false} DrainOnce(s: State, e: nat)
    requires LineEnd(s.pending) == Some(e)
    ensures Drained(s) == Drained(Line(s, s.pending[..e + 1]).(pending := s.pending[e + 1..]))
  {
  }

  function Pushed(s: State, text: JsString): State {
    Drained(s.(pending := s.pending + text))
  }

  function Ended(s: State): State {
    if s.pending == [] then s else Line(s, s.pending + [NEWLINE]).(pending := [])
  }

  function PushedAll(s: State, chunks: seq<JsString>): State {
    if chunks == [] then s else Pushed(PushedAll(s, chunks[..|chunks| - 1]), chunks[|chunks| - 1])
  }

  // ----- chunks do not matter

  lemma {:induction false} LineIgnoresPending(s: State, line: JsString, pending: JsString)
    ensures Line(s.(pending := pending), line) == Line(s, line).(pending := pending)
  {
  }

  /** Taking a line off does not depend on what comes after it. */
  lemma {:induction false} TakingWithMore(s: State, more: JsString, e: nat)
    requires LineEnd(s.pending) == Some(e)
    ensures var next := Line(s, s.pending[..e + 1]).(pending := s.pending[e + 1..]);
            var longer := s.(pending := s.pending + more);
            && LineEnd(longer.pending) == Some(e)
            && Line(longer, longer.pending[..e + 1]).(pending := longer.pending[e + 1..]) ==
               next.(pending := next.pending + more)
  {
    var longer := s.pending + more;
    LineEndIsStable(s.pending, more);
    LineIgnoresPending(s, s.pending[..e + 1], longer);
    assert longer[..e + 1] == s.pending[..e + 1] && longer[e + 1..] == s.pending[e + 1..] + more;
  }

  lemma {:induction false} DrainingInTwo(s: State, more: JsString)
    ensures Pushed(Drained(s), more) == Drained(s.(pending := s.pending + more))
    decreases |s.pending|
  {
    if LineEnd(s.pending).Some? {
      var e := LineEnd(s.pending).value;
      var next := Line(s, s.pending[..e + 1]).(pending := s.pending[e + 1..]);
      DrainOnce(s, e);
      DrainingInTwo(next, more);
      TakingWithMore(s, more, e);
      DrainOnce(s.(pending := s.pending + more), e);
    }
  }

  /** Pushing two texts one after the other is pushing them at once. */
  lemma {:induction false} TwoPushesAreOne(s: State, a: JsString, b: JsString)
    ensures Pushed(Pushed(s, a), b) == Pushed(s, a + b)
  {
    DrainingInTwo(s.(pending := s.pending + a), b);
    assert s.pending + a + b == s.pending + (a + b);
  }

  /** However a text is cut into chunks, the state after it is the same. */
  lemma {:induction false} ChunksDoNotMatter(s: State, chunks: seq<JsString>)
    requires LineEnd(s.pending).None?
    ensures PushedAll(s, chunks) == Pushed(s, Joined(chunks))
  {
    if chunks == [] {
      assert s.pending + [] == s.pending;
      assert s.(pending := s.pending) == s;
    } else {
      var earlier := chunks[..|chunks| - 1];
      ChunksDoNotMatter(s, earlier);
      TwoPushesAreOne(s, Joined(earlier), chunks[|chunks| - 1]);
    }
  }

  /** So two ways to cut the same text give the same state, forwarded lines included. */
  lemma {:induction false} SameTextSameState(a: seq<JsString>, b: seq<JsString>)
    requires Joined(a) == Joined(b)
    ensures PushedAll(INITIAL, a) == PushedAll(INITIAL, b)
  {
    ChunksDoNotMatter(INITIAL, a);
    ChunksDoNotMatter(INITIAL, b);
  }

  // ----- nothing is lost or reordered

  function HeldText(s: State): JsString {
    if s.held.Some? then Joined(s.held.value) else []
  }

  /** Everything that has come in: forwarded, then held, then pending. */
  function Everything(s: State): JsString {
    Joined(s.forwarded) + HeldText(s) + s.pending
  }

  lemma {:induction false} JoinedConcatenation(a: seq<JsString>, b: seq<JsString>)
    ensures Joined(a + b) == Joined(a) + Joined(b)
    decreases |b|
  {
    if b == [] {
      assert a + b == a;
    } else {
      assert (a + b)[..|a + b| - 1] == a + b[..|b| - 1];
      JoinedConcatenation(a, b[..|b| - 1]);
    }
  }

  lemma {:induction false} JoinedOneMore(a: seq<JsString>, line: JsString)
    ensures Joined(a + [line]) == Joined(a) + line
  {
    assert (a + [line])[..|a|] == a;
  }

  lemma {:induction false} OneMoreLine(before: seq<JsString>, lines: seq<JsString>, i: nat)
    requires i < |lines|
    ensures before + lines[..i] + [lines[i]] == before + lines[..i + 1]
  {
  }

  /** Forwarded and held text, without what is pending. */
  function Taken(s: State): JsString {
    Joined(s.forwarded) + HeldText(s)
  }

  lemma {:induction false} ReleaseLosesNothing(s: State)
    ensures Taken(Released(s)) == Taken(s) && Released(s).pending == s.pending && Released(s).held.None?
  {
    if s.held.Some? {
      JoinedConcatenation(s.forwarded, s.held.value);
    }
  }

  lemma {:induction false} OpeningLosesNothing(s: State, line: JsString)
    requires s.held.None?
    ensures Taken(Opened(s, line)) == Taken(s) + line && Opened(s, line).pending == s.pending
  {
    JoinedOne(line);
    JoinedOneMore(s.forwarded, line);
  }

  lemma {:induction false} JoinedOne(line: JsString)
    ensures Joined([line]) == line
  {
    JoinedOneMore([], line);
    assert [] + [line] == [line];
  }

  lemma {:induction false} ContinuingLosesNothing(s: State, line: JsString)
    requires s.held.Some? && Continues(s.complete, TrimEnd(line))
    ensures Taken(Line(s, line)) == Taken(s) + line && Line(s, line).pending == s.pending
  {
    JoinedOneMore(s.held.value, line);
  }

  lemma {:induction false} LineLosesNothing(s: State, line: JsString)
    ensures Taken(Line(s, line)) == Taken(s) + line && Line(s, line).pending == s.pending
  {
    if s.held.Some? && Continues(s.complete, TrimEnd(line)) {
      ContinuingLosesNothing(s, line);
    } else {
      ReleaseLosesNothing(s);
      OpeningLosesNothing(Released(s), line);
    }
  }

  lemma {:induction false} TakingLosesNothing(s: State, e: nat)
    requires LineEnd(s.pending) == Some(e)
    ensures Everything(Line(s, s.pending[..e + 1]).(pending := s.pending[e + 1..])) == Everything(s)
  {
    LineLosesNothing(s, s.pending[..e + 1]);
    Regrouped(Taken(s), s.pending, e + 1);
  }

  lemma {:induction false} DrainingLosesNothing(s: State)
    ensures Everything(Drained(s)) == Everything(s)
    decreases |s.pending|
  {
    if LineEnd(s.pending).Some? {
      var e := LineEnd(s.pending).value;
      DrainOnce(s, e);
      TakingLosesNothing(s, e);
      DrainingLosesNothing(Line(s, s.pending[..e + 1]).(pending := s.pending[e + 1..]));
    }
  }

  lemma {:induction false} Regrouped(before: JsString, pending: JsString, n: nat)
    requires n <= |pending|
    ensures before + pending[..n] + pending[n..] == before + pending
  {
  }

  /** A push appends its text to everything and nothing else. */
  lemma {:induction false} PushLosesNothing(s: State, text: JsString)
    ensures Everything(Pushed(s, text)) == Everything(s) + text
  {
    DrainingLosesNothing(s.(pending := s.pending + text));
  }

  /** After any chunks, forwarded, held and pending text together are exactly what was pushed, in order. */
  lemma {:induction false} NothingIsLost(chunks: seq<JsString>)
    ensures Everything(PushedAll(INITIAL, chunks)) == Joined(chunks)
  {
    if chunks != [] {
      NothingIsLost(chunks[..|chunks| - 1]);
      PushLosesNothing(PushedAll(INITIAL, chunks[..|chunks| - 1]), chunks[|chunks| - 1]);
    }
  }

  /** The end of the output adds at most one newline, and only after an unfinished line. */
  lemma {:induction false} EndAddsAtMostANewline(s: State)
    ensures Everything(Ended(s)) == Everything(s) + (if s.pending == [] then [] else [NEWLINE])
    ensures Ended(s).pending == []
  {
    if s.pending != [] {
      LineLosesNothing(s, s.pending + [NEWLINE]);
    }
  }

  // ----- what is forwarded and held is the lines of the text

  /** The complete lines of a text, each with its end. */
  function Lines(text: JsString): seq<JsString>
    decreases |text|
  {
    match LineEnd(text)
    case None => []
    case Some(e) => [text[..e + 1]] + Lines(text[e + 1..])
  }

  /** What follows the last complete line. */
  function Unfinished(text: JsString): JsString
    decreases |text|
  {
    match LineEnd(text)
    case None => text
    case Some(e) => Unfinished(text[e + 1..])
  }

  function HeldLines(s: State): seq<JsString> {
    if s.held.Some? then s.held.value else []
  }

  /** Handling a line appends it to the lines forwarded and held. */
  lemma {:induction false} LineIsKept(s: State, line: JsString)
    ensures var t := Line(s, line); t.forwarded + HeldLines(t) == s.forwarded + HeldLines(s) + [line]
  {
  }

  lemma {:induction false} MoreLines(before: seq<JsString>, line: JsString, after: seq<JsString>)
    ensures before + [line] + after == before + ([line] + after)
  {
  }

  lemma {:induction false} DrainingKeepsLines(s: State)
    ensures var t := Drained(s);
            && t.forwarded + HeldLines(t) == s.forwarded + HeldLines(s) + Lines(s.pending)
            && t.pending == Unfinished(s.pending)
    decreases |s.pending|
  {
    if LineEnd(s.pending).Some? {
      var e := LineEnd(s.pending).value;
      var line, rest := s.pending[..e + 1], s.pending[e + 1..];
      var next := Line(s, line).(pending := rest);
      DrainOnce(s, e);
      LineIsKept(s, line);
      DrainingKeepsLines(next);
      MoreLines(s.forwarded + HeldLines(s), line, Lines(rest));
    }
  }

  /** A text held back: its first line starts a traceback, and each later line continued it. */
  ghost predicate IsTraceback(lines: seq<JsString>, complete: bool) {
    && lines != []
    && var text := TrimEnd(lines[|lines| - 1]);
       if |lines| == 1 then StartsTraceback(text) && complete == (text != TRACEBACK_START)
       else
         exists before ::
           IsTraceback(lines[..|lines| - 1], before) && Continues(before, text) && complete == Completed(before, text)
  }

  ghost predicate HeldIsTraceback(s: State) {
    s.held.Some? ==> IsTraceback(s.held.value, s.complete)
  }

  lemma {:induction false} LineKeepsTraceback(s: State, line: JsString)
    requires HeldIsTraceback(s)
    ensures HeldIsTraceback(Line(s, line))
  {
    var text := TrimEnd(line);
    if s.held.Some? && Continues(s.complete, text) {
      var longer := s.held.value + [line];
      assert longer[..|longer| - 1] == s.held.value;
      assert IsTraceback(longer[..|longer| - 1], s.complete);
    }
  }

  lemma {:induction false} DrainingKeepsTraceback(s: State)
    requires HeldIsTraceback(s)
    ensures HeldIsTraceback(Drained(s))
    decreases |s.pending|
  {
    if LineEnd(s.pending).Some? {
      var e := LineEnd(s.pending).value;
      var line, rest := s.pending[..e + 1], s.pending[e + 1..];
      LineKeepsTraceback(s, line);
      DrainingKeepsTraceback(Line(s, line).(pending := rest));
    }
  }

  /**
   * After any chunks the lines forwarded and then held are the complete lines of the text, one by one
   * and in order, what is pending is the unfinished rest, and what is held is one traceback.
   */
  lemma {:induction false} LinesAreKept(chunks: seq<JsString>)
    ensures var s := PushedAll(INITIAL, chunks);
            && s.forwarded + HeldLines(s) == Lines(Joined(chunks))
            && s.pending == Unfinished(Joined(chunks))
            && HeldIsTraceback(s)
  {
    ChunksDoNotMatter(INITIAL, chunks);
    var start := INITIAL.(pending := [] + Joined(chunks));
    assert [] + Joined(chunks) == Joined(chunks);
    DrainingKeepsLines(start);
    DrainingKeepsTraceback(start);
  }

  // ----- what the tests on lines mean

  /** White space and line terminators of the language, one by one. */
  lemma {:induction false} SpacesAre(u: CodeUnit)
    ensures IsSpace(u) <==>
            u in {9, 10, 11, 12, 13, 32, 0xA0, 0x1680, 0x2000, 0x2001, 0x2002, 0x2003, 0x2004, 0x2005, 0x2006, 0x2007,
                  0x2008, 0x2009, 0x200A, 0x2028, 0x2029, 0x202F, 0x205F, 0x3000, 0xFEFF}
  {
  }

  /** Trimming takes off exactly the white space at the end. */
  lemma {:induction false} TrimmingIs(s: JsString)
    ensures TrimEnd(s) <= s && (TrimEnd(s) != [] ==> !IsSpace(TrimEnd(s)[|TrimEnd(s)| - 1]))
    ensures forall i :: |TrimEnd(s)| <= i < |s| ==> IsSpace(s[i])
  {
    if s != [] && IsSpace(s[|s| - 1]) {
      TrimmingIs(s[..|s| - 1]);
    }
  }

  ghost predicate Begins(s: JsString, prefix: JsString) {
    exists rest :: s == prefix + rest
  }

  lemma {:induction false} StartsWithIs(s: JsString, prefix: JsString)
    ensures StartsWith(s, prefix) <==> Begins(s, prefix)
  {
    if StartsWith(s, prefix) {
      assert s == prefix + s[|prefix|..];
    }
    if rest :| s == prefix + rest {
      assert s[..|prefix|] == prefix;
    }
  }

  lemma {:induction false} TerminatorsAre(u: CodeUnit)
    ensures IsLineTerminator(u) <==> u in {0x0A, 0x0D, 0x2028, 0x2029}
  {
  }

  /** Something on one line, then a colon, a space and one of the two messages. */
  ghost predicate TellsLaunch(s: JsString, program: JsString) {
    && program != [] && NoTerminator(program)
    && (Begins(s, program + (Text(": ") + Text("No module named ")))
        || Begins(s, program + (Text(": ") + Text("Error while finding module specification for "))))
  }

  ghost predicate IsDiagnostic(s: JsString) {
    Begins(s, Text("error:")) || Begins(s, Text("warning:")) || Begins(s, Text("note:"))
  }

  lemma {:induction false} TellingIs(s: JsString, i: nat, message: JsString)
    requires i <= |s|
    ensures StartsWith(s[i..], message) <==> Begins(s, s[..i] + message)
  {
    StartsWithIs(s[i..], message);
    if rest :| s[i..] == message + rest {
      assert s == s[..i] + message + rest;
    }
    if rest :| s == s[..i] + message + rest {
      assert s[i..] == message + rest;
    }
  }

  lemma {:induction false} LaunchAtMeans(s: JsString)
    ensures (exists i :: 1 <= i <= |s| && LaunchAt(s, i)) <==> exists program :: TellsLaunch(s, program)
  {
    if i :| 1 <= i <= |s| && LaunchAt(s, i) {
      TellingIs(s, i, Text(": ") + NO_MODULE);
      TellingIs(s, i, Text(": ") + NO_SPECIFICATION);
      assert TellsLaunch(s, s[..i]);
    }
    if program :| TellsLaunch(s, program) {
      assert |program| <= |s| && s[..|program|] == program;
      TellingIs(s, |program|, Text(": ") + NO_MODULE);
      TellingIs(s, |program|, Text(": ") + NO_SPECIFICATION);
      assert LaunchAt(s, |program|);
    }
  }

  lemma {:induction false} DiagnosticsAre(s: JsString)
    ensures IsDiagnostic(s) <==>
            StartsWith(s, Text("error:")) || StartsWith(s, Text("warning:")) || StartsWith(s, Text("note:"))
  {
    StartsWithIs(s, Text("error:"));
    StartsWithIs(s, Text("warning:"));
    StartsWithIs(s, Text("note:"));
  }

  lemma {:induction false} LaunchMessagesAre(s: JsString)
    ensures IsLaunchMessage(s) <==> !IsDiagnostic(s) && exists program :: TellsLaunch(s, program)
  {
    DiagnosticsAre(s);
    LaunchAtMeans(s);
  }

  /**
   * A line is a launch failure when it is something, a colon, a space and one of the two messages and no
   * report, warning or note, or when it begins with the second message.
   */
  lemma {:induction false} LaunchFailuresAre(s: JsString)
    ensures IsLaunchFailure(s) <==>
            || (!IsDiagnostic(s) && exists program :: TellsLaunch(s, program))
            || Begins(s, Text("Error while finding module specification for "))
  {
    LaunchMessagesAre(s);
    StartsWithIs(s, NO_SPECIFICATION);
  }

  /** A traceback is held from a line that is its header or a launch failure. */
  lemma {:induction false} TracebacksStart(s: JsString)
    ensures StartsTraceback(s) <==>
            || s == Text("Traceback (most recent call last):")
            || (!IsDiagnostic(s) && exists program :: TellsLaunch(s, program))
            || Begins(s, Text("Error while finding module specification for "))
  {
    LaunchFailuresAre(s);
  }

  /** A line ends with a newline, or with a carriage return that something other than a newline follows. */
  lemma {:induction false} LinesEndAt(s: JsString, i: nat)
    ensures EndsLineAt(s, i) <==>
            || (exists line, rest :: |line| == i && s == line + [10] + rest)
            || (exists line, next, rest :: |line| == i && next != 10 && s == line + [13, next] + rest)
  {
    if EndsLineAt(s, i) && s[i] == 10 {
      assert s == s[..i] + [10] + s[i + 1..];
    } else if EndsLineAt(s, i) {
      assert s == s[..i] + [13, s[i + 1]] + s[i + 2..];
    }
    if line, rest :| |line| == i && s == line + [10] + rest {
      assert s[i] == 10;
    }
    if line, next, rest :| |line| == i && next != 10 && s == line + [13, next] + rest {
      assert s[i] == 13 && s[i + 1] == next;
    }
  }

  /** The line at the position ends a traceback for the time being: a launch failure, or an exception line. */
  predicate EndsTraceback(lines: seq<JsString>, j: nat)
    requires j < |lines|
  {
    var text := TrimEnd(lines[j]);
    text != TRACEBACK_START && (j == 0 || (text != [] && !StartsWithSpace(text)))
  }

  /** Its exception has been told: a line that ends it, with no new traceback header after that. */
  ghost predicate IsTold(lines: seq<JsString>) {
    exists j: nat :: ToldAt(lines, j)
  }

  ghost predicate ToldAt(lines: seq<JsString>, j: nat) {
    j < |lines| && EndsTraceback(lines, j) && forall k :: j < k < |lines| ==> TrimEnd(lines[k]) != TRACEBACK_START
  }

  lemma {:induction false} CompleteMeansTold(lines: seq<JsString>, complete: bool)
    requires IsTraceback(lines, complete)
    ensures complete <==> IsTold(lines)
  {
    var last := |lines| - 1;
    var text := TrimEnd(lines[last]);
    if last == 0 {
      assert complete ==> ToldAt(lines, 0);
    } else {
      var before :| IsTraceback(lines[..last], before) && Continues(before, text)
        && complete == Completed(before, text);
      CompleteMeansTold(lines[..last], before);
      ToldGrows(lines);
    }
  }

  lemma {:induction false} ToldGrows(lines: seq<JsString>)
    requires |lines| > 1
    ensures var last := |lines| - 1;
            var text := TrimEnd(lines[last]);
            IsTold(lines) <==>
              text != TRACEBACK_START && (IsTold(lines[..last]) || (text != [] && !StartsWithSpace(text)))
  {
    var last := |lines| - 1;
    forall j: nat
      ensures ToldAt(lines, j) <==>
              && TrimEnd(lines[last]) != TRACEBACK_START
              && (ToldAt(lines[..last], j) || (j == last && EndsTraceback(lines, last)))
    {
      ToldAtGrows(lines, j);
    }
    assert EndsTraceback(lines, last) ==> ToldAt(lines, last);
  }

  lemma {:induction false} ToldAtGrows(lines: seq<JsString>, j: nat)
    requires |lines| > 1
    ensures var last := |lines| - 1;
            ToldAt(lines, j) <==>
              && TrimEnd(lines[last]) != TRACEBACK_START
              && (ToldAt(lines[..last], j) || (j == last && EndsTraceback(lines, last)))
  {
    var last := |lines| - 1;
    if j < last {
      assert lines[..last][j] == lines[j] && EndsTraceback(lines[..last], j) == EndsTraceback(lines, j);
      assert forall k :: j < k < last ==> lines[..last][k] == lines[k];
    }
  }

  /**
   * A line belongs to the traceback that is held exactly when it is a new header, or the exception has not
   * been told, or it is blank, indented, or one of the two sentences that chain exceptions.
   */
  lemma {:induction false} BelongingMeans(lines: seq<JsString>, complete: bool, line: JsString)
    requires IsTraceback(lines, complete)
    ensures var text := TrimEnd(line);
            Continues(complete, text) <==>
            || text == TRACEBACK_START || !IsTold(lines) || text == [] || IsSpace(text[0])
            || StartsWith(text, Text("During handling of the above exception"))
            || StartsWith(text, Text("The above exception was the direct cause"))
  {
    CompleteMeansTold(lines, complete);
  }

  // ----- the traceback that is remembered

  predicate IsReport(line: JsString) {
    StartsWith(TrimEnd(line), Text("error:"))
  }

  /**
   * The forwarded lines from `i` to `j` are a traceback with this text, and since then neither a
   * traceback nor a report came.
   */
  ghost predicate RemembersAt(forwarded: seq<JsString>, text: JsString, i: nat, j: nat) {
    && i <= j <= |forwarded| && text == Joined(forwarded[i..j])
    && (exists complete :: IsTraceback(forwarded[i..j], complete))
    && forall k :: j <= k < |forwarded| ==> !StartsTraceback(TrimEnd(forwarded[k])) && !IsReport(forwarded[k])
  }

  ghost predicate ReportedAfter(forwarded: seq<JsString>, i: nat) {
    exists k :: i < k < |forwarded| && IsReport(forwarded[k])
  }

  /** What is remembered is the last traceback forwarded, unless a report came after it. */
  ghost predicate Remembers(s: State) {
    match s.released
    case Some(text) => exists i: nat, j: nat :: RemembersAt(s.forwarded, text, i, j)
    case None =>
      forall i: nat :: i < |s.forwarded| && StartsTraceback(TrimEnd(s.forwarded[i])) ==> ReportedAfter(s.forwarded, i)
  }

  lemma {:induction false} ReleaseRemembers(s: State)
    requires HeldIsTraceback(s) && (s.held.None? ==> Remembers(s))
    ensures Remembers(Released(s)) && Released(s).held.None?
  {
    if s.held.Some? {
      var longer := s.forwarded + s.held.value;
      assert longer[|s.forwarded|..|longer|] == s.held.value;
      assert RemembersAt(longer, Joined(s.held.value), |s.forwarded|, |longer|);
    }
  }

  lemma {:induction false} OpeningRemembers(s: State, line: JsString)
    requires Remembers(s)
    ensures Remembers(Opened(s, line))
  {
    if !StartsTraceback(TrimEnd(line)) {
      var longer := s.forwarded + [line];
      if IsReport(line) {
        forall i: nat | i < |longer| && StartsTraceback(TrimEnd(longer[i]))
          ensures ReportedAfter(longer, i)
        {
          assert IsReport(longer[|s.forwarded|]);
        }
      } else if s.released.Some? {
        var i: nat, j: nat :| RemembersAt(s.forwarded, s.released.value, i, j);
        assert longer[i..j] == s.forwarded[i..j];
        assert RemembersAt(longer, s.released.value, i, j);
      } else {
        forall i: nat | i < |longer| && StartsTraceback(TrimEnd(longer[i]))
          ensures ReportedAfter(longer, i)
        {
          assert ReportedAfter(s.forwarded, i);
          var k :| i < k < |s.forwarded| && IsReport(s.forwarded[k]);
          assert IsReport(longer[k]);
        }
      }
    }
  }

  lemma {:induction false} LineRemembers(s: State, line: JsString)
    requires HeldIsTraceback(s) && Remembers(s)
    ensures Remembers(Line(s, line))
  {
    if !(s.held.Some? && Continues(s.complete, TrimEnd(line))) {
      ReleaseRemembers(s);
      OpeningRemembers(Released(s), line);
    }
  }

  lemma {:induction false} DrainingRemembers(s: State)
    requires HeldIsTraceback(s) && Remembers(s)
    ensures Remembers(Drained(s))
    decreases |s.pending|
  {
    if LineEnd(s.pending).Some? {
      var e := LineEnd(s.pending).value;
      var line, rest := s.pending[..e + 1], s.pending[e + 1..];
      LineKeepsTraceback(s, line);
      LineRemembers(s, line);
      DrainingRemembers(Line(s, line).(pending := rest));
    }
  }

  /**
   * After any chunks the traceback remembered is the last one forwarded, told from the forwarded lines:
   * there is none exactly when each was followed by a report.
   */
  lemma {:induction false} LastTracebackIsRemembered(chunks: seq<JsString>)
    ensures Remembers(PushedAll(INITIAL, chunks))
  {
    ChunksDoNotMatter(INITIAL, chunks);
    DrainingRemembers(INITIAL.(pending := [] + Joined(chunks)));
  }

  // ----- the class

  class Filter {
    var pending: JsString
    var held: Option<seq<JsString>>
    var complete: bool
    var released: Option<JsString>
    var forwarded: seq<JsString>

    ghost function Now(): State
      reads this
    {
      State(pending, held, complete, released, forwarded)
    }

    ghost predicate Valid()
      reads this
    {
      HeldIsTraceback(Now())
    }

    constructor ()
      ensures Valid() && Now() == INITIAL
    {
      pending, held, complete, released, forwarded := [], None, false, None, [];
    }

    method Traceback() returns (text: Option<JsString>)
      ensures text == if held.Some? then Some(HeldText(Now())) else None
    {
      if held.None? {
        return None;
      }
      text := Some(Joined(held.value));
    }

    /** The held traceback, which is then dropped, or the last one released with no handled error after it. */
    method FatalTraceback() returns (text: Option<JsString>)
      requires Valid()
      modifies this
      ensures Valid() && Now() == old(Now()).(held := None)
      ensures text == if old(held).Some? then Some(old(HeldText(Now()))) else old(released)
    {
      var heldText := Traceback();
      held := None;
      text := if heldText.Some? then heldText else released;
    }

    method Release()
      requires Valid()
      modifies this
      ensures Valid() && Now() == Released(old(Now()))
      ensures Everything(Now()) == old(Everything(Now()))
    {
      ReleaseLosesNothing(Now());
      if held.None? {
        return;
      }
      var lines := held.value;
      held := None;
      released := Some(Joined(lines));
      for i := 0 to |lines|
        invariant forwarded == old(forwarded) + lines[..i]
        invariant pending == old(pending) && held == None && complete == old(complete)
        invariant released == Some(Joined(lines))
      {
        OneMoreLine(old(forwarded), lines, i);
        forwarded := forwarded + [lines[i]];
      }
      assert lines[..|lines|] == lines;
    }

    method Push(text: JsString)
      requires Valid()
      modifies this
      ensures Valid() && Now() == Pushed(old(Now()), text)
      ensures Everything(Now()) == old(Everything(Now())) + text
    {
      PushLosesNothing(Now(), text);
      ghost var target := Pushed(Now(), text);
      pending := pending + text;
      var end := FindLineEnd();
      while end >= 0
        invariant Valid() && Drained(Now()) == target
        invariant end >= 0 ==> LineEnd(pending) == Some(end)
        invariant end < 0 ==> LineEnd(pending).None?
        decreases |pending|, end
      {
        ghost var before := Now();
        var rest := pending[end + 1..];
        TakeLine(pending[..end + 1]);
        pending := rest;
        DrainOnce(before, end);
        end := FindLineEnd();
      }
    }

    method End()
      requires Valid()
      modifies this
      ensures Valid() && Now() == Ended(old(Now()))
      ensures Everything(Now()) == old(Everything(Now())) + (if old(pending) == [] then [] else [NEWLINE])
    {
      EndAddsAtMostANewline(Now());
      if |pending| > 0 {
        TakeLine(pending + [NEWLINE]);
      }
      pending := [];
    }

    /** The first position of a unit in the pending text, or -1. */
    method IndexOf(u: CodeUnit) returns (index: int)
      ensures -1 <= index < |pending|
      ensures index >= 0 ==> pending[index] == u && u !in pending[..index]
      ensures index < 0 ==> u !in pending
    {
      index := 0;
      while index < |pending|
        invariant 0 <= index <= |pending| && u !in pending[..index]
      {
        if pending[index] == u {
          return;
        }
        index := index + 1;
      }
      index := -1;
    }

    /** The end of the first complete line of the pending text, or -1. */
    method FindLineEnd() returns (end: int)
      ensures if end >= 0 then LineEnd(pending) == Some(end) else end == -1 && LineEnd(pending).None?
    {
      var newline := IndexOf(NEWLINE);
      var carriage := IndexOf(CARRIAGE);
      assert newline >= 0 ==> forall i :: 0 <= i < newline ==> pending[i] != NEWLINE by {
        assert newline >= 0 ==> forall i :: 0 <= i < newline ==> pending[i] == pending[..newline][i];
      }
      assert carriage >= 0 ==> forall i :: 0 <= i < carriage ==> pending[i] != CARRIAGE by {
        assert carriage >= 0 ==> forall i :: 0 <= i < carriage ==> pending[i] == pending[..carriage][i];
      }
      if carriage < 0 {
        end := newline;
      } else if carriage == |pending| - 1 {
        end := newline;
      } else if pending[carriage + 1] == NEWLINE {
        end := if newline >= 0 && newline < carriage then newline else carriage + 1;
      } else {
        end := if newline >= 0 && newline < carriage then newline else carriage;
      }
      if end >= 0 {
        LineEndIs(pending, end);
      } else {
        assert forall i: nat :: i < |pending| ==> !EndsLineAt(pending, i);
      }
    }

    method TakeLine(line: JsString)
      requires Valid()
      modifies this
      ensures Valid() && Now() == Line(old(Now()), line)
    {
      LineKeepsTraceback(Now(), line);
      var text := TrimEnd(line);
      if held.Some? {
        var continues := CheckContinues(text);
        if continues {
          held := Some(held.value + [line]);
          return;
        }
        Release();
      }
      if text == TRACEBACK_START || IsLaunchFailure(text) {
        held := Some([line]);
        complete := text != TRACEBACK_START;
        return;
      }
      if StartsWith(text, Text("error:")) {
        released := None;
      }
      forwarded := forwarded + [line];
    }

    /** Whether the text belongs to the held traceback; notes whether its exception line has arrived. */
    method CheckContinues(text: JsString) returns (continues: bool)
      requires Valid() && held.Some?
      modifies `complete
      ensures continues == Continues(old(complete), text)
      ensures complete == if continues then Completed(old(complete), text) else old(complete)
    {
      if text == TRACEBACK_START {
        complete := false;
        return true;
      }
      if !complete {
        if |text| > 0 && !StartsWithSpace(text) {
          complete := true;
        }
        return true;
      }
      continues := |text| == 0 || StartsWithSpace(text) || IsChained(text);
    }
  }
}
