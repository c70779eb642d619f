/** What both entry points do to one query: the exit test, the language
    instruction put in front of the question, the removal of newlines, and
    the line the window entry point writes to its chat log. */
module Turns {
  import opened Strings
  import opened Startup

  const JapaneseInstruction: string := "日本語で答えてください"
  const EnglishInstruction: string := "Please answer in English"

  /** `query.strip().lower() == "exit"`, the test both entry points use. */
  predicate IsExit(query: string) {
    Lower(Strip(query)) == "exit"
  }

  /** The exit test accepts exactly the sixteen spellings of "exit" in any
      mix of letter case, with any white space around them. */
  lemma ExitSpellings(query: string)
    ensures IsExit(query) <==>
              var w := Strip(query);
              |w| == 4 && w[0] in {'e', 'E'} && w[1] in {'x', 'X'} && w[2] in {'i', 'I'} && w[3] in {'t', 'T'}
  {
    var w := Strip(query);
    if |w| == 4 {
      LowerAt(w, 0);
      LowerAt(w, 1);
      LowerAt(w, 2);
      LowerAt(w, 3);
      var l := Lower(w);
      if IsExit(query) {
        assert l[0] == 'e' && l[1] == 'x' && l[2] == 'i' && l[3] == 't';
      }
    }
  }

  /** The instruction the window entry point puts in front of a question:
      Japanese for "ja", English for every other language setting. */
  function Instruction(lang: string): string {
    if lang == "ja" then JapaneseInstruction else EnglishInstruction
  }

  /** The window entry point's localized query. */
  function Localize(lang: string, query: string): (r: string)
    ensures StartsWith(r, Instruction(lang) + ": ")
    ensures r[|Instruction(lang)| + 2..] == query
  {
    var prefix := Instruction(lang) + ": ";
    assert (prefix + query)[..|prefix|] == prefix;
    prefix + query
  }

  /** The command line's localized query; argparse leaves only "ja" and "en". */
  function CliLocalize(lang: Lang, query: string): string {
    match lang
    case Ja => "日本語で答えてください: " + query
    case En => "Please answer in English: " + query
  }

  /** Both entry points put the same instruction in front of the same question. */
  lemma LocalizeAgrees(lang: Lang, query: string)
    ensures CliLocalize(lang, query) == Localize(if lang == Ja then "ja" else "en", query)
  {
  }

  /** Distinct questions stay distinct once localized, for a fixed language. */
  lemma LocalizeInjective(lang: string, q1: string, q2: string)
    requires Localize(lang, q1) == Localize(lang, q2)
    ensures q1 == q2
  {
  }

  /** `s.replace("\n", "")`, applied to the query and to the answer. */
  function Sanitize(s: string): (r: string)
    ensures '\n' !in r
    ensures '\n' !in s ==> r == s
  {
    if '\n' !in s then RemoveAbsent(s, '\n'); RemoveAll(s, '\n') else RemoveAll(s, '\n')
  }

  /** The chat-log line of one completed turn. */
  function LogLine(timestamp: string, query: string, answer: string): string {
    "Q:, " + timestamp + ", " + query + ", A:, " + answer + "\n"
  }

  /** With newline-free fields the log line holds one newline, its last character. */
  lemma LogLineIsOneLine(timestamp: string, query: string, answer: string)
    requires '\n' !in timestamp && '\n' !in query && '\n' !in answer
    ensures var line := LogLine(timestamp, query, answer);
            line != [] && line[|line| - 1] == '\n' && '\n' !in line[..|line| - 1]
            && Count(line, '\n') == 1
  {
    var body := "Q:, " + timestamp + ", " + query + ", A:, " + answer;
    var line := LogLine(timestamp, query, answer);
    assert line == body + "\n";
    assert line[..|line| - 1] == body;
    CountAppend("Q:, " + timestamp + ", " + query + ", A:, ", answer, '\n');
    CountAppend("Q:, " + timestamp + ", " + query, ", A:, ", '\n');
    CountAppend("Q:, " + timestamp + ", ", query, '\n');
    CountAppend("Q:, " + timestamp, ", ", '\n');
    CountAppend("Q:, ", timestamp, '\n');
    CountAppend(body, "\n", '\n');
  }
}
