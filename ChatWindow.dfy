/** The window entry point's chat screen (src/chat_with_llm.py:107-148): the
    chat box the answers are shown in, the chat log file, the input field,
    and the send handler that runs one turn per click. */
module ChatWindow {
  import opened Strings
  import opened Turns
  import opened Timestamps

  datatype Color = Green | Blue

  /** What the chat box holds: a coloured text of a font size, or a divider. */
  datatype Control = Label(text: string, color: Color, size: nat) | Divider

  /** Everything a click of the send button can change: the chat box, the log
      file's content, the input field's value and whether the window was closed. */
  datatype ChatState = ChatState(controls: seq<Control>, log: string, input: string, closed: bool)

  /** The message the screen opens with, shown in the chat box and written to
      the log; dirText and extText are the printed forms of the fragment list
      and of the extension tuple. */
  function Banner(lang: string, cloneUrl: string, branch: string, dirText: string, extText: string): (r: string)
    ensures r != [] && r[|r| - 1] == '\n'
  {
    if lang == "ja" then
      cloneUrl + "の" + branch + "ブランチで、" + dirText + "にある拡張子が" + extText + "のファイルを学習済みです\n"
    else
      extText + " files in " + dirText + " on the " + branch + " branch from " + cloneUrl + "\n"
  }

  /** One click of the send button, with the retrieval-backed answer given by
      index: an exit request closes the window, an empty field does nothing,
      anything else is a turn. */
  function Send(s: ChatState, lang: string, index: string -> string, timestamp: string): (r: ChatState)
    ensures r.closed <==> s.closed || IsExit(s.input)
    ensures |s.log| <= |r.log| && r.log[..|s.log|] == s.log
    ensures |s.controls| <= |r.controls| && r.controls[..|s.controls|] == s.controls
  {
    if IsExit(s.input) then s.(closed := true)
    else if s.input == "" then s
    else
      var query := Sanitize(s.input);
      var answer := Sanitize(index(Localize(lang, query)));
      ChatState(s.controls + [Label("Q: " + query, Green, 16), Label("A: " + answer, Blue, 16), Divider],
                s.log + LogLine(timestamp, query, answer), "", s.closed)
  }

  /** The answer shown and logged for what the field holds. */
  function TurnAnswer(lang: string, index: string -> string, input: string): string {
    Sanitize(index(Localize(lang, Sanitize(input))))
  }

  /** "exit" in any letter case, with white space around it, only closes the
      window: nothing is shown, logged or cleared. */
  lemma SendOnExit(s: ChatState, lang: string, index: string -> string, timestamp: string)
    requires IsExit(s.input)
    ensures var r := Send(s, lang, index, timestamp);
            r.controls == s.controls && r.log == s.log && r.input == s.input && r.closed
  {
  }

  /** An empty field changes nothing at all. */
  lemma SendOnEmpty(s: ChatState, lang: string, index: string -> string, timestamp: string)
    requires s.input == ""
    ensures Send(s, lang, index, timestamp) == s
  {
    assert Strip("") == "";
  }

  /** A turn keeps what the chat box and the log held, adds the question, the
      answer and a divider to the chat box, adds exactly one line to the log
      and empties the field. */
  lemma SendCompletesTurn(s: ChatState, lang: string, index: string -> string, timestamp: string)
    requires !IsExit(s.input) && s.input != ""
    requires '\n' !in timestamp
    ensures var r := Send(s, lang, index, timestamp);
            var query := Sanitize(s.input);
            var answer := TurnAnswer(lang, index, s.input);
            && r.controls[..|s.controls|] == s.controls
            && r.controls[|s.controls|..] == [Label("Q: " + query, Green, 16), Label("A: " + answer, Blue, 16), Divider]
            && r.log == s.log + LogLine(timestamp, query, answer)
            && Count(r.log, '\n') == Count(s.log, '\n') + 1
            && r.input == "" && r.closed == s.closed
  {
    var query := Sanitize(s.input);
    var answer := TurnAnswer(lang, index, s.input);
    LogLineIsOneLine(timestamp, query, answer);
    CountAppend(s.log, LogLine(timestamp, query, answer), '\n');
  }

  /** The operator types text into the field and clicks send, turn after turn;
      each turn is the typed text and the clock reading of the click. */
  function Session(s: ChatState, lang: string, index: string -> string, turns: seq<(string, string)>): ChatState
    decreases |turns|
  {
    if turns == [] then s
    else Session(Send(s.(input := turns[0].0), lang, index, turns[0].1), lang, index, turns[1..])
  }

  /** The log lines of a run of turns, in the order the turns came. */
  function Lines(lang: string, index: string -> string, turns: seq<(string, string)>): string
    decreases |turns|
  {
    if turns == [] then ""
    else LogLine(turns[0].1, Sanitize(turns[0].0), TurnAnswer(lang, index, turns[0].0))
         + Lines(lang, index, turns[1..])
  }

  /** Turns that are neither exit requests nor empty, with their timestamps. */
  predicate OrdinaryTurns(turns: seq<(string, string)>) {
    forall i :: 0 <= i < |turns| ==> !IsExit(turns[i].0) && turns[i].0 != "" && '\n' !in turns[i].1
  }

  /** After a run of ordinary turns the log is what it was followed by one
      line per turn in the order of the turns, the chat box grew by three
      controls per turn, and the field is empty. */
  lemma {:induction false} SessionTranscript(s: ChatState, lang: string, index: string -> string,
                                             turns: seq<(string, string)>)
    requires OrdinaryTurns(turns)
    ensures var r := Session(s, lang, index, turns);
            && r.log == s.log + Lines(lang, index, turns)
            && Count(r.log, '\n') == Count(s.log, '\n') + |turns|
            && |r.controls| == |s.controls| + 3 * |turns|
            && r.controls[..|s.controls|] == s.controls
            && (turns != [] ==> r.input == "")
            && r.closed == s.closed
    decreases |turns|
  {
    if turns != [] {
      var typed := s.(input := turns[0].0);
      var next := Send(typed, lang, index, turns[0].1);
      var rest := turns[1..];
      SendCompletesTurn(typed, lang, index, turns[0].1);
      OrdinaryTail(turns);
      SessionTranscript(next, lang, index, rest);
      var r := Session(next, lang, index, rest);
      assert r == Session(s, lang, index, turns);
      var first := LogLine(turns[0].1, Sanitize(turns[0].0), TurnAnswer(lang, index, turns[0].0));
      assert Lines(lang, index, turns) == first + Lines(lang, index, rest);
      assert next.log == s.log + first;
      AppendAssoc(s.log, first, Lines(lang, index, rest));
      PrefixOfPrefix(r.controls, next.controls, s.controls);
      if rest == [] {
        assert r == next;
      }
    }
  }

  lemma OrdinaryTail(turns: seq<(string, string)>)
    requires turns != [] && OrdinaryTurns(turns)
    ensures OrdinaryTurns(turns[1..])
  {
    forall i | 0 <= i < |turns[1..]|
      ensures !IsExit(turns[1..][i].0) && turns[1..][i].0 != "" && '\n' !in turns[1..][i].1
    {
      assert turns[1..][i] == turns[i + 1];
    }
  }

  /** The chat screen. The answering index is built once before the screen
      opens and never changes. */
  class Window {
    const lang: string
    const index: string -> string
    var controls: seq<Control>
    var log: string
    var input: string
    var closed: bool

    function State(): ChatState
      reads this
    {
      ChatState(controls, log, input, closed)
    }

    /** Opening the screen shows the banner and writes it to the fresh log. */
    constructor (lang: string, index: string -> string, cloneUrl: string, branch: string,
                 dirText: string, extText: string)
      ensures this.lang == lang && this.index == index
      ensures var banner := Banner(lang, cloneUrl, branch, dirText, extText);
              State() == ChatState([Label(banner, Blue, 18)], banner, "", false)
    {
      var banner := Banner(lang, cloneUrl, branch, dirText, extText);
      this.lang := lang;
      this.index := index;
      controls := [Label(banner, Blue, 18)];
      log := banner;
      input := "";
      closed := false;
    }

    /** The operator replaces the field's text. */
    method Type(text: string)
      modifies this
      ensures State() == old(State()).(input := text)
    {
      input := text;
    }

    /** The send handler, at the clock reading now. */
    method SendMessage(now: DateTime)
      requires Valid(now)
      modifies this
      ensures State() == Send(old(State()), lang, index, Format(now))
    {
      var query := input;
      var timestamp := Format(now);
      if IsExit(query) {
        closed := true;
        return;
      }
      if query != "" {
        var sanitizedQuery := Sanitize(query);
        controls := controls + [Label("Q: " + sanitizedQuery, Green, 16)];
        var localized := Localize(lang, sanitizedQuery);
        var answer := index(localized);
        var sanitizedAnswer := Sanitize(answer);
        controls := controls + [Label("A: " + sanitizedAnswer, Blue, 16)];
        controls := controls + [Divider];
        log := log + LogLine(timestamp, sanitizedQuery, sanitizedAnswer);
        input := "";
        assert controls == old(controls) + [Label("Q: " + sanitizedQuery, Green, 16),
                                            Label("A: " + sanitizedAnswer, Blue, 16), Divider];
      }
    }
  }

  /** Two turns typed into a fresh screen leave the banner and exactly two
      more log lines, the first turn's before the second's. */
  lemma TwoTurns(lang: string, index: string -> string, banner: string,
                 q1: string, t1: DateTime, q2: string, t2: DateTime)
    requires Valid(t1) && Valid(t2)
    requires !IsExit(q1) && q1 != "" && !IsExit(q2) && q2 != ""
    ensures var s := Session(ChatState([Label(banner, Blue, 18)], banner, "", false), lang, index,
                             [(q1, Format(t1)), (q2, Format(t2))]);
            && s.log == banner + LogLine(Format(t1), Sanitize(q1), TurnAnswer(lang, index, q1))
                               + LogLine(Format(t2), Sanitize(q2), TurnAnswer(lang, index, q2))
            && Count(s.log, '\n') == Count(banner, '\n') + 2
            && |s.controls| == 7
  {
    var turns := [(q1, Format(t1)), (q2, Format(t2))];
    var start := ChatState([Label(banner, Blue, 18)], banner, "", false);
    assert OrdinaryTurns(turns);
    SessionTranscript(start, lang, index, turns);
    var line1 := LogLine(Format(t1), Sanitize(q1), TurnAnswer(lang, index, q1));
    var line2 := LogLine(Format(t2), Sanitize(q2), TurnAnswer(lang, index, q2));
    assert turns[1..] == [(q2, Format(t2))];
    assert turns[1..][1..] == [];
    assert Lines(lang, index, turns[1..]) == line2 + "";
    assert Lines(lang, index, turns) == line1 + (line2 + "");
    assert line2 + "" == line2;
    AppendAssoc(banner, line1, line2);
  }
}
