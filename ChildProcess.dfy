/** The command-line entry point (src/simple_child_langchain.py), meant to be
    driven by a parent process line by line: it checks its arguments, builds
    the index, prints "ready!", and then answers one stripped input line at a
    time until a line reads "exit". */
module ChildProcess {
  import opened Strings
  import opened Wrappers
  import opened Startup
  import opened Turns

  const Ready: string := "ready!"
  const Done: string := "Processing... done!"

  /** What the process does on its standard streams, in order: print a line,
      or read one. */
  datatype Event = Emit(line: string) | Consume(line: string)

  /** The answer printed for an input line: the index's reply to the
      stripped line with the language instruction in front. */
  function AnswerTo(lang: Lang, index: string -> string, line: string): string {
    index(CliLocalize(lang, Strip(line)))
  }

  /** The events of the query loop from the given input lines on: read a line;
      on "exit" leave the loop and print the closing line, otherwise print
      the answer and "ready!" and go on. */
  function Replies(lang: Lang, index: string -> string, lines: seq<string>): seq<Event>
    decreases |lines|
  {
    if lines == [] then []
    else if IsExit(lines[0]) then [Consume(lines[0]), Emit(Done)]
    else Turn(lang, index, lines[0]) + Replies(lang, index, lines[1..])
  }

  /** All events once the index is built: "ready!" first, then the loop. */
  function Protocol(lang: Lang, index: string -> string, lines: seq<string>): seq<Event> {
    [Emit(Ready)] + Replies(lang, index, lines)
  }

  /** The lines a trace prints, in order. */
  function Printed(trace: seq<Event>): seq<string>
    decreases |trace|
  {
    if trace == [] then []
    else (if trace[0].Emit? then [trace[0].line] else []) + Printed(trace[1..])
  }

  /** The input lines a trace reads, in order. */
  function Consumed(trace: seq<Event>): seq<string>
    decreases |trace|
  {
    if trace == [] then []
    else (if trace[0].Consume? then [trace[0].line] else []) + Consumed(trace[1..])
  }

  lemma {:induction false} PrintedAppend(a: seq<Event>, b: seq<Event>)
    ensures Printed(a + b) == Printed(a) + Printed(b)
    ensures Consumed(a + b) == Consumed(a) + Consumed(b)
    decreases |a|
  {
    if a == [] {
      assert a + b == b;
    } else {
      assert (a + b)[0] == a[0];
      assert (a + b)[1..] == a[1..] + b;
      PrintedAppend(a[1..], b);
      var p := if a[0].Emit? then [a[0].line] else [];
      var c := if a[0].Consume? then [a[0].line] else [];
      assert Printed(a + b) == p + Printed(a[1..] + b);
      assert Printed(a) == p + Printed(a[1..]);
      AppendAssoc(p, Printed(a[1..]), Printed(b));
      assert Consumed(a + b) == c + Consumed(a[1..] + b);
      assert Consumed(a) == c + Consumed(a[1..]);
      AppendAssoc(c, Consumed(a[1..]), Consumed(b));
    }
  }

  /** The position of the first exit line, or the number of lines if none is. */
  function FirstExit(lines: seq<string>): (k: nat)
    ensures k <= |lines|
    ensures forall j :: 0 <= j < k ==> !IsExit(lines[j])
    ensures k < |lines| ==> IsExit(lines[k])
    decreases |lines|
  {
    if lines == [] || IsExit(lines[0]) then 0 else 1 + FirstExit(lines[1..])
  }

  /** The events of one answered line. */
  function Turn(lang: Lang, index: string -> string, line: string): seq<Event> {
    [Consume(line), Emit(AnswerTo(lang, index, line)), Emit(Ready)]
  }

  lemma TurnTrace(lang: Lang, index: string -> string, line: string)
    ensures Printed(Turn(lang, index, line)) == [AnswerTo(lang, index, line), Ready]
    ensures Consumed(Turn(lang, index, line)) == [line]
  {
    var t := Turn(lang, index, line);
    assert t[1..][1..][1..] == [];
    assert Printed(t[1..][1..]) == [Ready] && Consumed(t[1..][1..]) == [];
    assert Printed(t[1..]) == [AnswerTo(lang, index, line), Ready] && Consumed(t[1..]) == [];
  }

  lemma ExitTrace(line: string)
    ensures Printed([Consume(line), Emit(Done)]) == [Done]
    ensures Consumed([Consume(line), Emit(Done)]) == [line]
  {
    var t := [Consume(line), Emit(Done)];
    assert t[1..][1..] == [];
    assert Printed(t[1..]) == [Done] && Consumed(t[1..]) == [];
  }

  /** The query loop, over the lines the parent writes: it returns what the
      process did and whether it reached the closing line. */
  method Serve(lang: Lang, index: string -> string, lines: seq<string>) returns (trace: seq<Event>, finished: bool)
    ensures trace == Protocol(lang, index, lines)
    ensures finished <==> FirstExit(lines) < |lines|
  {
    trace := [Emit(Ready)];
    finished := false;
    var i := 0;
    while i < |lines|
      invariant 0 <= i <= |lines|
      invariant forall j :: 0 <= j < i ==> !IsExit(lines[j])
      invariant trace + Replies(lang, index, lines[i..]) == Protocol(lang, index, lines)
    {
      var query := Strip(lines[i]);
      if Lower(query) == "exit" {
        assert Replies(lang, index, lines[i..]) == [Consume(lines[i]), Emit(Done)];
        trace := trace + [Consume(lines[i]), Emit(Done)];
        finished := true;
        FirstExitAt(lines, i);
        return;
      }
      var localized := CliLocalize(lang, query);
      var answer := index(localized);
      ghost var before := trace;
      trace := trace + [Consume(lines[i]), Emit(answer), Emit(Ready)];
      assert trace == before + Turn(lang, index, lines[i]);
      assert lines[i..][1..] == lines[i + 1..];
      assert Replies(lang, index, lines[i..]) == Turn(lang, index, lines[i]) + Replies(lang, index, lines[i + 1..]);
      AppendAssoc(before, Turn(lang, index, lines[i]), Replies(lang, index, lines[i + 1..]));
      i := i + 1;
    }
    assert lines[i..] == [];
    assert trace == trace + [];
    FirstExitAt(lines, i);
  }

  /** The first exit is where the lines before are no exit and this one is,
      or the end. */
  lemma {:induction false} FirstExitAt(lines: seq<string>, i: nat)
    requires i <= |lines|
    requires forall j :: 0 <= j < i ==> !IsExit(lines[j])
    requires i == |lines| || IsExit(lines[i])
    ensures FirstExit(lines) == i
    decreases i
  {
    if i > 0 {
      assert !IsExit(lines[0]);
      forall j | 0 <= j < i - 1 ensures !IsExit(lines[1..][j]) {
        assert lines[1..][j] == lines[j + 1];
      }
      FirstExitAt(lines[1..], i - 1);
    }
  }

  /** The loop reads exactly the lines up to and including the first exit,
      in order, and nothing after it. */
  lemma ReadsUpToExit(lang: Lang, index: string -> string, lines: seq<string>)
    ensures var k := FirstExit(lines);
            Consumed(Protocol(lang, index, lines)) == lines[..if k < |lines| then k + 1 else k]
  {
    PrintedAppend([Emit(Ready)], Replies(lang, index, lines));
    assert Consumed([Emit(Ready)]) == [];
    RepliesConsumed(lang, index, lines);
  }

  lemma {:induction false} RepliesConsumed(lang: Lang, index: string -> string, lines: seq<string>)
    ensures var k := FirstExit(lines);
            Consumed(Replies(lang, index, lines)) == lines[..if k < |lines| then k + 1 else k]
    decreases |lines|
  {
    if lines == [] {
    } else if IsExit(lines[0]) {
      ExitTrace(lines[0]);
    } else {
      var tail := Replies(lang, index, lines[1..]);
      assert Replies(lang, index, lines) == Turn(lang, index, lines[0]) + tail;
      PrintedAppend(Turn(lang, index, lines[0]), tail);
      TurnTrace(lang, index, lines[0]);
      RepliesConsumed(lang, index, lines[1..]);
      var k' := FirstExit(lines[1..]);
      assert FirstExit(lines) == k' + 1;
      ConsPrefix(lines, if k' < |lines[1..]| then k' + 1 else k');
    }
  }

  lemma ConsPrefix<T>(s: seq<T>, n: nat)
    requires n < |s|
    ensures [s[0]] + s[1..][..n] == s[..n + 1]
  {
  }

  /** What the loop prints for the given lines: per line the answer and
      "ready!", until a line is an exit request; then the closing line. */
  function Expected(lang: Lang, index: string -> string, lines: seq<string>): seq<string>
    decreases |lines|
  {
    if lines == [] then []
    else if IsExit(lines[0]) then [Done]
    else [AnswerTo(lang, index, lines[0]), Ready] + Expected(lang, index, lines[1..])
  }

  lemma {:induction false} PrintedReplies(lang: Lang, index: string -> string, lines: seq<string>)
    ensures Printed(Replies(lang, index, lines)) == Expected(lang, index, lines)
    decreases |lines|
  {
    if lines != [] {
      if IsExit(lines[0]) {
        ExitTrace(lines[0]);
      } else {
        PrintedAppend(Turn(lang, index, lines[0]), Replies(lang, index, lines[1..]));
        TurnTrace(lang, index, lines[0]);
        PrintedReplies(lang, index, lines[1..]);
      }
    }
  }

  /** Two lines per line before the first exit, and one more if an exit came. */
  lemma {:induction false} ExpectedLength(lang: Lang, index: string -> string, lines: seq<string>)
    ensures |Expected(lang, index, lines)| == 2 * FirstExit(lines) + (if FirstExit(lines) < |lines| then 1 else 0)
    decreases |lines|
  {
    if lines != [] && !IsExit(lines[0]) {
      ExpectedLength(lang, index, lines[1..]);
    }
  }

  /** The n-th line before the first exit has its answer at position 2n and
      "ready!" right after it. */
  lemma {:induction false} ExpectedAnswers(lang: Lang, index: string -> string, lines: seq<string>, n: nat)
    requires n < FirstExit(lines)
    ensures 2 * n + 1 < |Expected(lang, index, lines)|
    ensures Expected(lang, index, lines)[2 * n] == AnswerTo(lang, index, lines[n])
    ensures Expected(lang, index, lines)[2 * n + 1] == Ready
    decreases n
  {
    ExpectedLength(lang, index, lines);
    if n > 0 {
      var tail := lines[1..];
      ExpectedAnswers(lang, index, tail, n - 1);
      assert tail[n - 1] == lines[n];
    }
  }

  /** The closing line comes last when an exit came. */
  lemma {:induction false} ExpectedDone(lang: Lang, index: string -> string, lines: seq<string>)
    requires FirstExit(lines) < |lines|
    ensures 2 * FirstExit(lines) < |Expected(lang, index, lines)|
    ensures Expected(lang, index, lines)[2 * FirstExit(lines)] == Done
    decreases |lines|
  {
    ExpectedLength(lang, index, lines);
    if !IsExit(lines[0]) {
      ExpectedDone(lang, index, lines[1..]);
    }
  }

  /** What the parent reads: "ready!" and then the loop's lines. */
  lemma {:induction false} ProtocolPrinted(lang: Lang, index: string -> string, lines: seq<string>)
    ensures Printed(Protocol(lang, index, lines)) == [Ready] + Expected(lang, index, lines)
  {
    PrintedAppend([Emit(Ready)], Replies(lang, index, lines));
    assert Printed([Emit(Ready)][1..]) == [];
    PrintedReplies(lang, index, lines);
  }

  /** "ready!" is printed before the first line is read and right before
      every later read: the parent never writes a query the process has not
      asked for. */
  lemma ReadyBeforeEveryRead(lang: Lang, index: string -> string, lines: seq<string>)
    ensures var trace := Protocol(lang, index, lines);
            && trace[0] == Emit(Ready)
            && (forall i :: 0 < i < |trace| && trace[i].Consume? ==> trace[i - 1] == Emit(Ready))
  {
    var trace := Protocol(lang, index, lines);
    var r := Replies(lang, index, lines);
    ReadyBeforeRead(lang, index, lines);
    forall i | 0 < i < |trace| && trace[i].Consume? ensures trace[i - 1] == Emit(Ready) {
      assert trace[i] == r[i - 1];
      if i > 1 {
        assert trace[i - 1] == r[i - 2];
      }
    }
  }

  /** The n-th line before the first exit gets its answer as the printed line
      2n + 1 and "ready!" after it, so the answers come in the order of the
      queries; the closing line is printed last if an exit came. */
  lemma AnswersInOrder(lang: Lang, index: string -> string, lines: seq<string>, n: nat)
    requires n < FirstExit(lines)
    ensures var out := Printed(Protocol(lang, index, lines));
            && |out| == 2 * FirstExit(lines) + 1 + (if FirstExit(lines) < |lines| then 1 else 0)
            && out[2 * n + 1] == AnswerTo(lang, index, lines[n])
            && out[2 * n + 2] == Ready
  {
    ProtocolPrinted(lang, index, lines);
    ExpectedLength(lang, index, lines);
    ExpectedAnswers(lang, index, lines, n);
  }

  lemma ClosingLineLast(lang: Lang, index: string -> string, lines: seq<string>)
    requires FirstExit(lines) < |lines|
    ensures var out := Printed(Protocol(lang, index, lines));
            |out| == 2 * FirstExit(lines) + 2 && out[|out| - 1] == Done
  {
    ProtocolPrinted(lang, index, lines);
    ExpectedLength(lang, index, lines);
    ExpectedDone(lang, index, lines);
  }

  /** In the loop's events every read but the first follows a "ready!", and
      the first event is a read. */
  lemma {:induction false} ReadyBeforeRead(lang: Lang, index: string -> string, lines: seq<string>)
    ensures var r := Replies(lang, index, lines);
            && (r != [] ==> r[0].Consume?)
            && (forall j :: 0 < j < |r| && r[j].Consume? ==> r[j - 1] == Emit(Ready))
    decreases |lines|
  {
    if lines != [] && !IsExit(lines[0]) {
      ReadyBeforeRead(lang, index, lines[1..]);
      var r := Replies(lang, index, lines);
      var tail := Replies(lang, index, lines[1..]);
      forall j | 0 < j < |r| && r[j].Consume? ensures r[j - 1] == Emit(Ready) {
        if j > 3 {
          assert r[j] == tail[j - 3] && r[j - 1] == tail[j - 4];
        } else if j == 3 {
          assert r[2] == Emit(Ready);
        }
      }
    }
  }

  /** How the process ends: rejected arguments, a closing line after "exit",
      or still waiting for input when the given lines run out. */
  datatype Status = Exited(code: int) | Reading

  /** The whole run: the argument check, then the query loop over the index
      built from the selected files. */
  method Run(args: CliArgs, index: string -> string, lines: seq<string>) returns (stdout: seq<string>, status: Status)
    ensures Validate(args).Err? ==> stdout == ["invalid args"] && status == Exited(1)
    ensures Validate(args).Ok? ==> stdout == Printed(Protocol(args.lang, index, lines))
    ensures Validate(args).Ok? ==> (status == Exited(0) <==> FirstExit(lines) < |lines|)
    ensures Validate(args).Ok? ==> (status == Reading <==> FirstExit(lines) == |lines|)
  {
    var checked := Validate(args);
    if checked.Err? {
      stdout := [checked.error.message];
      status := Exited(checked.error.status);
      return;
    }
    var trace, finished := Serve(args.lang, index, lines);
    stdout := Printed(trace);
    status := if finished then Exited(0) else Reading;
  }
}
