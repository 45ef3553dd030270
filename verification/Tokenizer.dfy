/** The command-line tokenizer of the terminal interface
    (crates/mindone-cli/src/tui.rs, `split_command_line`). */
module Tokenizer {
  import opened Wrappers
  import opened Text

  datatype Quote = Single | Double

  datatype State = State(words: seq<string>, current: string, quote: Option<Quote>, tokenStarted: bool) {
    function Push(c: char): State {
      this.(current := current + [c])
    }
  }

  const INITIAL := State([], "", None, false)

  predicate Escapable(c: char) {
    IsWhitespace(c) || c == '\'' || c == '"'
  }

  /** The tokenizer's state after the rest of the input. */
  function Scan(st: State, s: string): State
    decreases |s|
  {
    if s == "" then st
    else
      var c, rest := s[0], s[1..];
      match st.quote
      case Some(Single) =>
        if c == '\'' then Scan(st.(quote := None), rest) else Scan(st.Push(c), rest)
      case Some(Double) =>
        if c == '"' then Scan(st.(quote := None), rest)
        else if c == '\\' && rest != "" && rest[0] == '"' then Scan(st.Push(rest[0]), rest[1..])
        else Scan(st.Push(c), rest)
      case None =>
        if c == '\'' then Scan(st.(quote := Some(Single), tokenStarted := true), rest)
        else if c == '"' then Scan(st.(quote := Some(Double), tokenStarted := true), rest)
        else if c == '\\' && rest != "" && Escapable(rest[0])
        then Scan(st.Push(rest[0]).(tokenStarted := true), rest[1..])
        else if IsWhitespace(c)
        then Scan(if st.tokenStarted then State(st.words + [st.current], "", None, false) else st, rest)
        else Scan(st.Push(c).(tokenStarted := true), rest)
  }

  function Finish(st: State): Result<seq<string>, Quote> {
    if st.quote.Some? then Err(st.quote.value)
    else Ok(if st.tokenStarted then st.words + [st.current] else st.words)
  }

  function Split(input: string): Result<seq<string>, Quote> {
    Finish(Scan(INITIAL, input))
  }

  method SplitCommandLine(input: string) returns (r: Result<seq<string>, Quote>)
    ensures r == Split(input)
  {
    var words: seq<string> := [];
    var current := "";
    var quote: Option<Quote> := None;
    var tokenStarted := false;
    var i := 0;
    assert input[0..] == input;
    while i < |input|
      invariant 0 <= i <= |input|
      invariant Scan(State(words, current, quote, tokenStarted), input[i..]) == Scan(INITIAL, input)
    {
      var character := input[i];
      ghost var here := input[i..];
      assert here[1..] == input[i + 1..];
      i := i + 1;
      assert i < |input| ==> here[1..][1..] == input[i + 1..];
      match quote
      case Some(Single) =>
        if character == '\'' {
          quote := None;
        } else {
          current := current + [character];
        }
      case Some(Double) =>
        if character == '"' {
          quote := None;
        } else if character == '\\' && i < |input| && input[i] == '"' {
          current := current + [input[i]];
          i := i + 1;
        } else {
          current := current + [character];
        }
      case None =>
        if character == '\'' {
          quote := Some(Single);
          tokenStarted := true;
        } else if character == '"' {
          quote := Some(Double);
          tokenStarted := true;
        } else if character == '\\' && i < |input| && Escapable(input[i]) {
          current := current + [input[i]];
          i := i + 1;
          tokenStarted := true;
        } else if IsWhitespace(character) {
          if tokenStarted {
            words := words + [current];
            current := "";
            tokenStarted := false;
          }
        } else {
          current := current + [character];
          tokenStarted := true;
        }
    }
    assert input[i..] == "";
    if quote.Some? {
      return Err(quote.value);
    }
    if tokenStarted {
      words := words + [current];
    }
    return Ok(words);
  }

  // ---- single steps ----

  lemma StepSingle(st: State, c: char, rest: string)
    requires st.quote == Some(Single)
    ensures Scan(st, [c] + rest) == if c == '\'' then Scan(st.(quote := None), rest) else Scan(st.Push(c), rest)
  {
    assert ([c] + rest)[1..] == rest;
  }

  lemma StepClose(st: State, rest: string)
    requires st.quote == Some(Double)
    ensures Scan(st, "\"" + rest) == Scan(st.(quote := None), rest)
  {
    assert ("\"" + rest)[1..] == rest;
  }

  lemma StepEscape(st: State, c: char, rest: string)
    requires st.quote == None && Escapable(c)
    ensures Scan(st, ['\\', c] + rest) == Scan(st.Push(c).(tokenStarted := true), rest)
  {
    assert (['\\', c] + rest)[1..] == [c] + rest && ([c] + rest)[1..] == rest;
  }

  lemma StepOutside(st: State, c: char, rest: string)
    requires st.quote == None && (c == '\\' ==> rest == "" || !Escapable(rest[0]))
    ensures Scan(st, [c] + rest) ==
            if c == '\'' then Scan(st.(quote := Some(Single), tokenStarted := true), rest)
            else if c == '"' then Scan(st.(quote := Some(Double), tokenStarted := true), rest)
            else if IsWhitespace(c)
            then Scan(if st.tokenStarted then State(st.words + [st.current], "", None, false) else st, rest)
            else Scan(st.Push(c).(tokenStarted := true), rest)
  {
    assert ([c] + rest)[1..] == rest;
  }

  /** Outside quotes a backslash stands for itself, except before white space or a quote, where it makes
      that character part of the word. */
  lemma BackslashMeans(c: char)
    ensures Split(['\\', c]) == Ok([if c as int in WHITE_SPACE || c == '\'' || c == '"' then [c] else ['\\', c]])
  {
    WhitespaceIs(c);
    assert !IsWhitespace('\\');
    var s := ['\\', c];
    assert s[1..] == [c] && [c][1..] == "";
    assert "" + [c] == [c] && "" + ['\\'] == ['\\'] && ['\\'] + [c] == s;
    if Escapable(c) {
      assert s == ['\\', c] + "";
      StepEscape(INITIAL, c, "");
      assert Scan(INITIAL, s) == State([], [c], None, true);
      assert [] + [[c]] == [[c]];
    } else {
      assert s == ['\\'] + [c] && [c] == [c] + "";
      StepOutside(INITIAL, '\\', [c]);
      assert Scan(INITIAL, s) == Scan(State([], ['\\'], None, true), [c]);
      StepOutside(State([], ['\\'], None, true), c, "");
      assert Scan(INITIAL, s) == State([], ['\\'] + [c], None, true);
      assert [] + [s] == [s];
    }
  }

  // ---- quoting ----

  /** A word with every single quote written as close, escaped quote, reopen. */
  function QuoteBody(w: string): string {
    if w == "" then ""
    else (if w[0] == '\'' then "'\\''" else [w[0]]) + QuoteBody(w[1..])
  }

  function QuoteWord(w: string): string {
    "'" + QuoteBody(w) + "'"
  }

  function QuoteWords(words: seq<string>): string {
    if words == [] then ""
    else if |words| == 1 then QuoteWord(words[0])
    else QuoteWord(words[0]) + " " + QuoteWords(words[1..])
  }

  lemma {:induction false} ScanQuoteBody(st: State, w: string, rest: string)
    requires st.quote == Some(Single) && st.tokenStarted
    ensures Scan(st, QuoteBody(w) + ("'" + rest)) == Scan(st.(quote := None, current := st.current + w), rest)
    decreases |w|
  {
    hide Scan;
    var tail := "'" + rest;
    if w == "" {
      assert QuoteBody(w) + tail == tail && st.current + w == st.current;
      StepSingle(st, '\'', rest);
    } else {
      var next := QuoteBody(w[1..]) + tail;
      var st' := st.Push(w[0]);
      ScanQuoteBody(st', w[1..], rest);
      assert st'.current + w[1..] == st.current + w;
      if w[0] == '\'' {
        assert QuoteBody(w) + tail == "'" + ("\\'" + ("'" + next));
        StepSingle(st, '\'', "\\'" + ("'" + next));
        StepEscape(st.(quote := None), '\'', "'" + next);
        StepOutside(st'.(quote := None), '\'', next);
      } else {
        assert QuoteBody(w) + tail == [w[0]] + next;
        StepSingle(st, w[0], next);
      }
    }
  }

  lemma ScanQuoteWord(words: seq<string>, w: string, rest: string)
    ensures Scan(State(words, "", None, false), QuoteWord(w) + rest) == Scan(State(words, w, None, true), rest)
  {
    var s := QuoteWord(w) + rest;
    assert s == "'" + (QuoteBody(w) + ("'" + rest));
    assert s[1..] == QuoteBody(w) + ("'" + rest);
    ScanQuoteBody(State(words, "", Some(Single), true), w, rest);
    assert "" + w == w;
  }

  lemma Associate(a: string, b: string, c: string)
    ensures (a + b) + c == a + (b + c)
  {
  }

  lemma QuoteWordsUnfold(words: seq<string>)
    requires |words| > 1
    ensures QuoteWords(words) == QuoteWord(words[0]) + ([' '] + QuoteWords(words[1..]))
  {
    hide QuoteWord;
    assert " " == [' '];
    Associate(QuoteWord(words[0]), [' '], QuoteWords(words[1..]));
  }

  lemma ScanLastWord(done: seq<string>, w: string)
    ensures Finish(Scan(State(done, "", None, false), QuoteWord(w))) == Ok(done + [w])
  {
    ScanQuoteWord(done, w, "");
    hide QuoteWord;
    assert QuoteWord(w) + "" == QuoteWord(w);
  }

  lemma {:induction false} ScanQuoteWords(done: seq<string>, words: seq<string>)
    ensures Finish(Scan(State(done, "", None, false), QuoteWords(words))) == Ok(done + words)
    decreases |words|
  {
    if words == [] {
      assert done + words == done;
    } else if |words| == 1 {
      ScanLastWord(done, words[0]);
      assert words == [words[0]];
    } else {
      hide Scan, QuoteWord, QuoteWords, Finish;
      var more := QuoteWords(words[1..]);
      QuoteWordsUnfold(words);
      ScanQuoteWord(done, words[0], [' '] + more);
      StepOutside(State(done, words[0], None, true), ' ', more);
      ScanQuoteWords(done + [words[0]], words[1..]);
      assert done + [words[0]] + words[1..] == done + words;
    }
  }

  /** Splitting undoes quoting for every list of words, whatever characters they hold. */
  lemma SplitUndoesQuoting(words: seq<string>)
    ensures Split(QuoteWords(words)) == Ok(words)
  {
    ScanQuoteWords([], words);
    assert [] + words == words;
  }

  // ---- the grammar the tokenizer accepts ----

  datatype Item =
    | Blank(c: char)
    | Plain(c: char)
    | Escaped(c: char)
    | SingleQuoted(text: string)
    | DoubleQuoted(text: string)

  /** A reading of a command line: items, ending normally or inside a quote that is never closed. */
  datatype Reading =
    | End
    | Open(quote: Quote, text: string)
    | Then(item: Item, rest: Reading)

  function EscapeQuotes(text: string): string {
    if text == "" then ""
    else (if text[0] == '"' then "\\\"" else [text[0]]) + EscapeQuotes(text[1..])
  }

  function RenderItem(item: Item): string {
    match item
    case Blank(c) => [c]
    case Plain(c) => [c]
    case Escaped(c) => ['\\', c]
    case SingleQuoted(text) => "'" + text + "'"
    case DoubleQuoted(text) => "\"" + EscapeQuotes(text) + "\""
  }

  function Render(r: Reading): string {
    match r
    case End => ""
    case Open(Single, text) => "'" + text
    case Open(Double, text) => "\"" + EscapeQuotes(text)
    case Then(item, rest) => RenderItem(item) + Render(rest)
  }

  predicate ItemOk(item: Item) {
    match item
    case Blank(c) => IsWhitespace(c)
    case Plain(c) => !IsWhitespace(c) && c != '\'' && c != '"'
    case Escaped(c) => Escapable(c)
    case SingleQuoted(text) => '\'' !in text
    case DoubleQuoted(text) => text != "" ==> text[|text| - 1] != '\\'
  }

  /** A plain backslash must not stand where it would escape the next character. */
  predicate WellFormed(r: Reading) {
    match r
    case End => true
    case Open(quote, text) => quote == Single ==> '\'' !in text
    case Then(item, rest) =>
      ItemOk(item) && WellFormed(rest)
      && (item == Plain('\\') ==> Render(rest) == "" || !Escapable(Render(rest)[0]))
  }

  function TextOf(item: Item): string {
    match item
    case Blank(_) => ""
    case Plain(c) => [c]
    case Escaped(c) => [c]
    case SingleQuoted(text) => text
    case DoubleQuoted(text) => text
  }

  /** The words a reading means, given the word being built, if any. */
  function WordsFrom(building: Option<string>, r: Reading): Result<seq<string>, Quote>
    decreases r
  {
    match r
    case End => Ok(if building.Some? then [building.value] else [])
    case Open(quote, _) => Err(quote)
    case Then(Blank(_), rest) =>
      (match WordsFrom(None, rest)
       case Err(quote) => Err(quote)
       case Ok(words) => Ok((if building.Some? then [building.value] else []) + words))
    case Then(item, rest) =>
      WordsFrom(Some((if building.Some? then building.value else "") + TextOf(item)), rest)
  }

  lemma {:induction false} ScanSingle(st: State, text: string, rest: string)
    requires st.quote == Some(Single) && '\'' !in text
    ensures Scan(st, text + rest) == Scan(st.(current := st.current + text), rest)
    decreases |text|
  {
    if text == "" {
      assert text + rest == rest && st.current + text == st.current;
    } else {
      ScanSingle(st.Push(text[0]), text[1..], rest);
      assert (text + rest)[1..] == text[1..] + rest;
      assert st.Push(text[0]).current + text[1..] == st.current + text;
    }
  }

  lemma StepDouble(st: State, c: char, rest: string)
    requires st.quote == Some(Double) && c != '"' && (c == '\\' ==> rest == "" || rest[0] != '"')
    ensures Scan(st, [c] + rest) == Scan(st.Push(c), rest)
  {
    assert ([c] + rest)[1..] == rest;
  }

  lemma StepDoubleEscape(st: State, rest: string)
    requires st.quote == Some(Double)
    ensures Scan(st, ['\\', '"'] + rest) == Scan(st.Push('"'), rest)
  {
    var s := ['\\', '"'] + rest;
    assert s[1..] == ['"'] + rest && s[1..][1..] == rest;
  }

  lemma EscapedStart(text: string)
    ensures (text == "" <==> EscapeQuotes(text) == "") && (text != "" ==> EscapeQuotes(text)[0] != '"')
  {
  }

  function EscapedChar(c: char): string {
    if c == '"' then ['\\', '"'] else [c]
  }

  lemma EscapeHead(text: string)
    requires text != ""
    ensures EscapeQuotes(text) == EscapedChar(text[0]) + EscapeQuotes(text[1..])
  {
  }

  lemma EscapeUnfolds(text: string, rest: string)
    requires text != ""
    ensures EscapeQuotes(text) + rest == EscapedChar(text[0]) + (EscapeQuotes(text[1..]) + rest)
    ensures text[1..] == "" ==> EscapeQuotes(text[1..]) + rest == rest
    ensures text[1..] != "" ==> EscapeQuotes(text[1..]) + rest != "" && (EscapeQuotes(text[1..]) + rest)[0] != '"'
  {
    EscapedStart(text[1..]);
    EscapeHead(text);
    hide EscapeQuotes, EscapedChar;
    Associate(EscapedChar(text[0]), EscapeQuotes(text[1..]), rest);
  }

  /** Inside double quotes, one escaped character of a text stands for that character. */
  lemma StepEscaped(st: State, text: string, rest: string)
    requires st.quote == Some(Double) && text != ""
    requires text[|text| - 1] == '\\' ==> rest == "" || rest[0] != '"'
    ensures Scan(st, EscapeQuotes(text) + rest) == Scan(st.Push(text[0]), EscapeQuotes(text[1..]) + rest)
  {
    hide Scan, EscapeQuotes;
    EscapeUnfolds(text, rest);
    var next := EscapeQuotes(text[1..]) + rest;
    if text[0] == '"' {
      StepDoubleEscape(st, next);
    } else {
      StepDouble(st, text[0], next);
    }
  }

  lemma {:induction false} ScanDouble(st: State, text: string, rest: string)
    requires st.quote == Some(Double)
    requires text != "" && text[|text| - 1] == '\\' ==> rest == "" || rest[0] != '"'
    ensures Scan(st, EscapeQuotes(text) + rest) == Scan(st.(current := st.current + text), rest)
    decreases |text|
  {
    if text == "" {
      assert EscapeQuotes(text) + rest == rest && st.current + text == st.current;
    } else {
      hide Scan, EscapeQuotes;
      StepEscaped(st, text, rest);
      ScanDouble(st.Push(text[0]), text[1..], rest);
      assert st.Push(text[0]).current + text[1..] == st.current + text;
    }
  }

  lemma ScanItem(st: State, item: Item, rest: string)
    requires st.quote == None && (!st.tokenStarted ==> st.current == "") && ItemOk(item)
    requires item == Plain('\\') ==> rest == "" || !Escapable(rest[0])
    ensures Scan(st, RenderItem(item) + rest) ==
            if item.Blank? then
              Scan(if st.tokenStarted then State(st.words + [st.current], "", None, false) else st, rest)
            else Scan(st.(current := st.current + TextOf(item), tokenStarted := true), rest)
  {
    assert !IsWhitespace('\\') && !IsWhitespace('\'') && !IsWhitespace('"');
    hide Scan, IsWhitespace, EscapeQuotes;
    match item
    case Blank(c) => StepOutside(st, c, rest);
    case Plain(c) => StepOutside(st, c, rest);
    case Escaped(c) => StepEscape(st, c, rest);
    case SingleQuoted(text) => ScanSingleQuoted(st, text, rest);
    case DoubleQuoted(text) => ScanDoubleQuoted(st, text, rest);
  }

  lemma ScanSingleQuoted(st: State, text: string, rest: string)
    requires st.quote == None && '\'' !in text
    ensures Scan(st, "'" + text + "'" + rest) == Scan(st.(current := st.current + text, tokenStarted := true), rest)
  {
    assert !IsWhitespace('\'');
    hide Scan, IsWhitespace;
    assert "'" + text + "'" + rest == "'" + (text + ("'" + rest));
    StepOutside(st, '\'', text + ("'" + rest));
    ScanSingle(st.(quote := Some(Single), tokenStarted := true), text, "'" + rest);
    StepSingle(State(st.words, st.current + text, Some(Single), true), '\'', rest);
  }

  lemma ScanDoubleQuoted(st: State, text: string, rest: string)
    requires st.quote == None && (text != "" ==> text[|text| - 1] != '\\')
    ensures Scan(st, "\"" + EscapeQuotes(text) + "\"" + rest) ==
            Scan(st.(current := st.current + text, tokenStarted := true), rest)
  {
    assert !IsWhitespace('"');
    hide Scan, IsWhitespace, EscapeQuotes;
    assert "\"" + EscapeQuotes(text) + "\"" + rest == "\"" + (EscapeQuotes(text) + ("\"" + rest));
    StepOutside(st, '"', EscapeQuotes(text) + ("\"" + rest));
    ScanDouble(st.(quote := Some(Double), tokenStarted := true), text, "\"" + rest);
    StepClose(State(st.words, st.current + text, Some(Double), true), rest);
  }

  /** The state after one item. */
  function After(st: State, item: Item): State {
    if !item.Blank? then st.(current := st.current + TextOf(item), tokenStarted := true)
    else if st.tokenStarted then State(st.words + [st.current], "", None, false)
    else st
  }

  lemma ScanOpen(st: State, quote: Quote, text: string)
    requires st.quote == None && (quote == Single ==> '\'' !in text)
    ensures Finish(Scan(st, Render(Open(quote, text)))) == Err(quote)
  {
    match quote
    case Single =>
      assert Render(Open(Single, text))[1..] == text && text + "" == text;
      ScanSingle(st.(quote := Some(Single), tokenStarted := true), text, "");
    case Double =>
      assert Render(Open(Double, text))[1..] == EscapeQuotes(text) && EscapeQuotes(text) + "" == EscapeQuotes(text);
      ScanDouble(st.(quote := Some(Double), tokenStarted := true), text, "");
  }

  lemma ScanThen(st: State, item: Item, rest: Reading)
    requires st.quote == None && (!st.tokenStarted ==> st.current == "") && WellFormed(Then(item, rest))
    ensures Scan(st, Render(Then(item, rest))) == Scan(After(st, item), Render(rest))
  {
    hide Scan, RenderItem, ItemOk, Escapable;
    ScanItem(st, item, Render(rest));
  }

  predicate Means(st: State, r: Reading, result: Result<seq<string>, Quote>) {
    result == match WordsFrom(if st.tokenStarted then Some(st.current) else None, r)
              case Err(quote) => Err(quote)
              case Ok(words) => Ok(st.words + words)
  }

  lemma MeansThen(st: State, item: Item, rest: Reading, result: Result<seq<string>, Quote>)
    requires (!st.tokenStarted ==> st.current == "") && Means(After(st, item), rest, result)
    ensures Means(st, Then(item, rest), result)
  {
    hide TextOf;
    if item.Blank? {
      var w := WordsFrom(None, rest);
      if w.Ok? {
        assert After(st, item).words + w.value == st.words + ((if st.tokenStarted then [st.current] else []) + w.value);
      }
    } else {
      assert "" + TextOf(item) == TextOf(item);
    }
  }

  lemma {:induction false} ScanReading(st: State, r: Reading)
    requires st.quote == None && (!st.tokenStarted ==> st.current == "") && WellFormed(r)
    ensures Means(st, r, Finish(Scan(st, Render(r))))
    decreases r
  {
    match r
    case End =>
      assert st.words + [] == st.words;
    case Open(quote, text) =>
      hide Scan, Finish, Render;
      ScanOpen(st, quote, text);
    case Then(item, rest) =>
      hide Scan, Finish, Render, Means, TextOf;
      ScanThen(st, item, rest);
      ScanReading(After(st, item), rest);
      MeansThen(st, item, rest, Finish(Scan(After(st, item), Render(rest))));
  }

  /** Splits text inside double quotes at the closing quote, if there is one. */
  lemma {:induction false} ReadDouble(s: string) returns (text: string, closed: bool, rest: string)
    ensures closed ==> s == EscapeQuotes(text) + "\"" + rest && (text != "" ==> text[|text| - 1] != '\\')
    ensures !closed ==> s == EscapeQuotes(text)
    decreases |s|
  {
    if s == "" {
      return "", false, "";
    } else if s[0] == '"' {
      return "", true, s[1..];
    } else {
      var escape := s[0] == '\\' && |s| > 1 && s[1] == '"';
      var c := if escape then '"' else s[0];
      var tail := if escape then s[2..] else s[1..];
      var text', closed', rest' := ReadDouble(tail);
      text, closed, rest := [c] + text', closed', rest';
      assert text[1..] == text' && text[0] == c;
      EscapeHead(text);
      if closed && text' == "" {
        assert tail[0] == '"';
      }
      hide EscapeQuotes;
      assert s == EscapedChar(c) + tail;
      hide EscapedChar;
      Associate(EscapedChar(c), EscapeQuotes(text'), "\"");
      Associate(EscapedChar(c), EscapeQuotes(text') + "\"", rest);
    }
  }

  /** Every input has a reading. */
  lemma {:induction false} ReadingExists(s: string) returns (r: Reading)
    ensures WellFormed(r) && Render(r) == s
    decreases |s|
  {
    hide IsWhitespace, Escapable, EscapeQuotes;
    if s == "" {
      r := End;
    } else if s[0] == '\'' {
      var tail := s[1..];
      if '\'' !in tail {
        r := Open(Single, tail);
      } else {
        var k := FirstQuote(tail);
        var rest := ReadingExists(tail[k + 1..]);
        r := Then(SingleQuoted(tail[..k]), rest);
        assert s == "'" + tail[..k] + "'" + tail[k + 1..];
      }
    } else if s[0] == '"' {
      var text, closed, after := ReadDouble(s[1..]);
      if closed {
        var rest := ReadingExists(after);
        r := Then(DoubleQuoted(text), rest);
        assert s == "\"" + EscapeQuotes(text) + "\"" + after;
      } else {
        r := Open(Double, text);
      }
    } else if s[0] == '\\' && |s| > 1 && Escapable(s[1]) {
      var rest := ReadingExists(s[2..]);
      r := Then(Escaped(s[1]), rest);
      assert s == ['\\', s[1]] + s[2..];
    } else {
      var rest := ReadingExists(s[1..]);
      r := Then(if IsWhitespace(s[0]) then Blank(s[0]) else Plain(s[0]), rest);
      assert s == [s[0]] + s[1..];
    }
  }

  lemma {:induction false} FirstQuote(s: string) returns (k: nat)
    requires '\'' in s
    ensures k < |s| && s[k] == '\'' && '\'' !in s[..k]
  {
    if s[0] == '\'' {
      return 0;
    }
    assert s == [s[0]] + s[1..];
    var j := FirstQuote(s[1..]);
    k := j + 1;
    assert s[..k] == [s[0]] + s[1..][..j];
  }

  /** The tokenizer is exactly the grammar: a reading of the input decides its result, every input
      has one, and the answer is an error precisely when the reading ends in an open quote. */
  lemma SplitIsGrammar(input: string) returns (r: Reading)
    ensures WellFormed(r) && Render(r) == input && Split(input) == WordsFrom(None, r)
    ensures forall q :: WellFormed(q) && Render(q) == input ==> Split(input) == WordsFrom(None, q)
  {
    r := ReadingExists(input);
    forall q | WellFormed(q) && Render(q) == input ensures Split(input) == WordsFrom(None, q) {
      ScanReading(INITIAL, q);
      var w := WordsFrom(None, q);
      if w.Ok? {
        assert [] + w.value == w.value;
      }
    }
  }

  function LastOf(r: Reading): Reading {
    if r.Then? then LastOf(r.rest) else r
  }

  /** An error is returned exactly when a quote is left open. */
  lemma ErrorMeansOpenQuote(r: Reading, q: Quote)
    requires WellFormed(r)
    ensures Split(Render(r)) == Err(q) <==> LastOf(r).Open? && LastOf(r).quote == q
  {
    var r' := SplitIsGrammar(Render(r));
    OpenDecides(None, r, q);
  }

  lemma {:induction false} OpenDecides(building: Option<string>, r: Reading, q: Quote)
    ensures WordsFrom(building, r) == Err(q) <==> LastOf(r).Open? && LastOf(r).quote == q
    decreases r
  {
    if r.Then? {
      var next := if r.item.Blank? then None
                  else Some((if building.Some? then building.value else "") + TextOf(r.item));
      OpenDecides(next, r.rest, q);
    }
  }
}
