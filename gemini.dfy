/**
 * Model of app/gemini.py: the prompt sent to the language model, the
 * line-by-line parser of its free-text reply, and the choice between the
 * parsed annotation and the two fixed fallback pairs.
 *
 * The model call itself is a parameter: `invoke` maps the prompt to what the
 * client returns, either the reply text or a raised exception.
 */
module Gemini {
  import opened PyStr

  datatype Option<T> = None | Some(value: T)

  /** The `{'mood': ..., 'reflection': ...}` dict that `call_gemini_api` returns. */
  datatype Annotation = Annotation(mood: string, reflection: string)

  /** The two keys of an annotation, each announced in a reply by its own label. */
  datatype Field = Mood | Reflection

  function Get(a: Annotation, f: Field): string {
    match f
    case Mood => a.mood
    case Reflection => a.reflection
  }

  const MoodLabel: string := "MOOD:"
  const ReflectionLabel: string := "REFLECTION:"

  function LabelText(f: Field): string {
    match f
    case Mood => MoodLabel
    case Reflection => ReflectionLabel
  }

  /** What the parser starts from, and keeps for a label the reply never carries. */
  const DefaultMood: string := "neutral"
  const DefaultReflection: string := "Keep writing to track your journey."
  const Defaults := Annotation(DefaultMood, DefaultReflection)

  /** Returned when no API key is configured. */
  const KeyMissingPair := Annotation("neutral", "Unable to generate reflection (API key missing)")

  /** `essential_fallback`: returned when the client library is missing or the call raises. */
  const EssentialFallback := Annotation("neutral", "Unable to generate reflection at this time.")

  // ---------------------------------------------------------------------------
  // The prompt

  const PromptIntro: string :=
    "Analyze this journal entry and provide:\n"
    + "1. Mood: Describe the emotional state in 2-3 words (e.g., \"stressed but hopeful\", \"happy and excited\")\n"
    + "2. Reflection: Brief supportive reflection and recommendation if applicable (1-2 sentences maximum)\n\n"
  const EntryLabel: string := "Journal entry: "
  const FormatIntro: string := "\n\nFormat your response exactly as:\n"
  const MoodPlaceholder: string := "<mood here>"
  const ReflectionPlaceholder: string := "<reflection here>"

  /** The two-line reply the prompt asks the model for. */
  function FormatReply(mood: string, reflection: string): string {
    "MOOD: " + mood + "\nREFLECTION: " + reflection
  }

  /**
   * `_build_prompt`: fixed instructions, then the entry text verbatim, then the
   * requested reply format with placeholders in place of the two values.
   */
  function BuildPrompt(text: string): (prompt: string)
    ensures StartsWith(prompt, PromptIntro + EntryLabel)
    ensures |PromptIntro + EntryLabel| + |text| <= |prompt|
    ensures prompt[|PromptIntro + EntryLabel|..|PromptIntro + EntryLabel| + |text|] == text
    ensures |FormatReply(MoodPlaceholder, ReflectionPlaceholder)| <= |prompt|
    ensures prompt[|prompt| - |FormatReply(MoodPlaceholder, ReflectionPlaceholder)|..]
            == FormatReply(MoodPlaceholder, ReflectionPlaceholder)
  {
    var head := PromptIntro + EntryLabel;
    var format := FormatReply(MoodPlaceholder, ReflectionPlaceholder);
    var prompt := head + text + FormatIntro + format;
    assert prompt == head + (text + (FormatIntro + format));
    assert prompt == (head + text + FormatIntro) + format;
    prompt
  }

  // ---------------------------------------------------------------------------
  // One reply line

  /** The letters of a label are upper-case ASCII, and it ends with its colon. */
  lemma LabelShape(f: Field)
    ensures |LabelText(f)| >= 2 && LabelText(f)[|LabelText(f)| - 1] == ':'
    ensures forall j :: 0 <= j < |LabelText(f)| - 1 ==> 'A' <= LabelText(f)[j] <= 'Z'
  {
  }

  lemma LabelIsUpper(f: Field)
    ensures Upper(LabelText(f)) == LabelText(f)
  {
    LabelShape(f);
    UpperIdentity(LabelText(f));
  }

  /**
   * When `line.strip().upper()` starts with a label, the first colon of the
   * line is the label's own.
   */
  lemma ColonOfLabel(line: string, f: Field)
    requires StartsWith(Upper(Strip(line)), LabelText(f))
    ensures ':' in line
    ensures IndexOf(line, ':') == StripBounds(line).0 + |LabelText(f)| - 1
  {
    var tag := LabelText(f);
    LabelShape(f);
    var b := StripBounds(line);
    StripAt(line);
    var k := b.0 + |tag| - 1;
    assert Strip(line) == line[b.0..b.1];
    forall i | 0 <= i < k
      ensures line[i] != ':'
    {
      if i >= b.0 {
        assert ToUpper(line[i]) == tag[i - b.0];
      }
    }
    assert ToUpper(line[k]) == ':';
    assert line[k] == ':';
  }

  /** Which label a reply line carries: its stripped, upper-cased form starts with it. */
  function LabelOf(line: string): (f: Option<Field>)
    ensures f.Some? ==> ':' in line
  {
    var key := Upper(Strip(line));
    if StartsWith(key, MoodLabel) then
      ColonOfLabel(line, Mood);
      Some(Mood)
    else if StartsWith(key, ReflectionLabel) then
      ColonOfLabel(line, Reflection);
      Some(Reflection)
    else
      None
  }

  /** `line.split(':', 1)[1].strip()`: the value a labelled line carries. */
  function ValueOf(line: string): string
    requires ':' in line
  {
    Strip(AfterFirst(line, ':'))
  }

  /** A line whose stripped, upper-cased form starts with a label carries that label. */
  lemma LabelOfKey(line: string, f: Field)
    requires StartsWith(Upper(Strip(line)), LabelText(f))
    ensures LabelOf(line) == Some(f)
  {
    var key := Upper(Strip(line));
    if f == Reflection {
      assert key[0] == 'R';
    }
  }

  /** The value of a labelled line is the trimmed text after the label in the trimmed line. */
  lemma LabelledValue(line: string, f: Field)
    requires LabelOf(line) == Some(f)
    ensures ValueOf(line) == Strip(Strip(line)[|LabelText(f)|..])
  {
    var b := StripBounds(line);
    StripAt(line);
    var n := |LabelText(f)|;
    ColonOfLabel(line, f);
    StripSuffixFrom(line, b.0 + n);
    assert Strip(line)[n..] == line[b.0 + n..b.1];
  }

  /**
   * Label matching ignores letter case and surrounding whitespace, and the
   * surrounding whitespace does not reach the value either.
   */
  lemma LabelIgnoresCaseAndPadding(ws1: string, line: string, ws2: string, other: string)
    requires AllSpace(ws1) && AllSpace(ws2)
    requires Upper(line) == Upper(other)
    ensures LabelOf(ws1 + line + ws2) == LabelOf(line) == LabelOf(other)
    ensures LabelOf(line).Some? ==> ValueOf(ws1 + line + ws2) == ValueOf(line)
  {
    var padded := ws1 + line + ws2;
    StripPadding(ws1, line, ws2);
    UpperStripCommute(line);
    UpperStripCommute(other);
    if LabelOf(line).Some? {
      LabelledValue(padded, LabelOf(line).value);
      LabelledValue(line, LabelOf(line).value);
    }
  }

  /** A label with nothing after its colon yields the empty string, not the default. */
  lemma BareLabelClears(a: Annotation, line: string, f: Field)
    requires Upper(Strip(line)) == LabelText(f)
    ensures LabelOf(line) == Some(f)
    ensures Get(Step(a, line), f) == ""
    ensures Get(Defaults, f) != ""
  {
    var n := |LabelText(f)|;
    LabelOfKey(line, f);
    assert |Strip(line)| == n;
    LabelledValue(line, f);
    assert Strip(line)[n..] == [];
    StripUnique([], 0, 0);
  }

  /**
   * One loop iteration of the parser: a line with a label sets that label's
   * field, whatever it held before; every other line changes nothing.
   */
  function Step(a: Annotation, line: string): Annotation {
    var key := Upper(Strip(line));
    if StartsWith(key, MoodLabel) then
      a.(mood := if ':' in line then Strip(AfterFirst(line, ':')) else a.mood)
    else if StartsWith(key, ReflectionLabel) then
      a.(reflection := if ':' in line then Strip(AfterFirst(line, ':')) else a.reflection)
    else
      a
  }

  lemma StepUpdates(a: Annotation, line: string, f: Field)
    ensures Get(Step(a, line), f) == if LabelOf(line) == Some(f) then ValueOf(line) else Get(a, f)
  {
  }

  // ---------------------------------------------------------------------------
  // The whole reply

  /** The parser's two variables after it has gone through `lines`, starting from `a`. */
  function Run(a: Annotation, lines: seq<string>): Annotation {
    if lines == [] then a else Step(Run(a, lines[..|lines| - 1]), lines[|lines| - 1])
  }

  /** What `call_gemini_api` extracts from a reply. */
  function Parse(reply: string): Annotation {
    Run(Defaults, SplitLines(reply))
  }

  /** The parse loop of `call_gemini_api`, overwriting `mood` and `reflection` line by line. */
  method ParseReply(reply: string) returns (a: Annotation)
    ensures a == Parse(reply)
  {
    var mood := DefaultMood;
    var reflection := DefaultReflection;
    var lines := SplitLines(reply);
    for i := 0 to |lines|
      invariant Annotation(mood, reflection) == Run(Defaults, lines[..i])
    {
      var line := lines[i];
      var key := Upper(Strip(line));
      if StartsWith(key, MoodLabel) {
        mood := if ':' in line then Strip(AfterFirst(line, ':')) else mood;
      } else if StartsWith(key, ReflectionLabel) {
        reflection := if ':' in line then Strip(AfterFirst(line, ':')) else reflection;
      }
      assert lines[..i + 1][..i] == lines[..i];
    }
    assert lines[..|lines|] == lines;
    a := Annotation(mood, reflection);
  }

  lemma {:induction false} RunAppend(a: Annotation, xs: seq<string>, ys: seq<string>)
    ensures Run(a, xs + ys) == Run(Run(a, xs), ys)
    decreases |ys|
  {
    if ys == [] {
      assert xs + ys == xs;
    } else {
      var last := ys[|ys| - 1];
      assert (xs + ys)[..|xs + ys| - 1] == xs + ys[..|ys| - 1];
      RunAppend(a, xs, ys[..|ys| - 1]);
    }
  }

  /** Lines without a given label leave that field as it was. */
  lemma {:induction false} UnlabelledLinesKeep(a: Annotation, lines: seq<string>, f: Field)
    requires forall k :: 0 <= k < |lines| ==> LabelOf(lines[k]) != Some(f)
    ensures Get(Run(a, lines), f) == Get(a, f)
    decreases |lines|
  {
    if lines != [] {
      var init := lines[..|lines| - 1];
      UnlabelledLinesKeep(a, init, f);
      StepUpdates(Run(a, init), lines[|lines| - 1], f);
    }
  }

  /** A reply none of whose lines carries a label parses to the defaults. */
  lemma UnlabelledReplyGivesDefaults(reply: string)
    requires forall k :: 0 <= k < |SplitLines(reply)| ==> LabelOf(SplitLines(reply)[k]).None?
    ensures Parse(reply) == Defaults
  {
    UnlabelledLinesKeep(Defaults, SplitLines(reply), Mood);
    UnlabelledLinesKeep(Defaults, SplitLines(reply), Reflection);
  }

  /** Of several lines with the same label, the last one decides the field. */
  lemma {:induction false} LastLabelWins(a: Annotation, lines: seq<string>, i: nat, f: Field)
    requires i < |lines| && LabelOf(lines[i]) == Some(f)
    requires forall j :: i < j < |lines| ==> LabelOf(lines[j]) != Some(f)
    ensures Get(Run(a, lines), f) == ValueOf(lines[i])
    decreases |lines|
  {
    var init := lines[..|lines| - 1];
    StepUpdates(Run(a, init), lines[|lines| - 1], f);
    if i < |lines| - 1 {
      LastLabelWins(a, init, i, f);
    }
  }

  // ---------------------------------------------------------------------------
  // Round trip of the requested format

  /** A line written as the prompt asks carries its label. */
  lemma FormattedLineLabel(f: Field, v: string)
    ensures LabelOf(LabelText(f) + " " + v) == Some(f)
  {
    var tag, rest := LabelText(f), " " + v;
    assert tag + " " + v == tag + rest;
    assert tag != [] && !IsSpace(tag[0]) && !IsSpace(tag[|tag| - 1]) && Upper(tag) == tag by {
      LabelShape(f);
      LabelIsUpper(f);
    }
    UpperStripKeepsPrefix(tag, rest);
    LabelOfKey(tag + rest, f);
  }

  /** A line written as the prompt asks carries the trimmed value after its label. */
  lemma FormattedLineValue(f: Field, v: string)
    requires Strip(v) == v
    ensures ':' in LabelText(f) + " " + v
    ensures Strip(AfterFirst(LabelText(f) + " " + v, ':')) == v
  {
    var tag := LabelText(f);
    assert ':' in tag && IndexOf(tag, ':') == |tag| - 1 by {
      LabelShape(f);
    }
    AfterPrefixValue(tag, ':', v);
  }

  lemma FormattedLine(f: Field, v: string)
    requires Strip(v) == v
    ensures LabelOf(LabelText(f) + " " + v) == Some(f)
    ensures ValueOf(LabelText(f) + " " + v) == v
  {
    FormattedLineLabel(f, v);
    FormattedLineValue(f, v);
  }

  /** The reply format splits into exactly its two lines. */
  lemma FormatLines(m: string, r: string)
    requires NoBreaks(m) && NoBreaks(r)
    ensures SplitLines(FormatReply(m, r)) == [MoodLabel + " " + m, ReflectionLabel + " " + r]
  {
    var first, second := MoodLabel + " " + m, ReflectionLabel + " " + r;
    assert FormatReply(m, r) == Terminated([first]) + second;
    assert NoBreaks(first) by {
      forall i | 0 <= i < |first| ensures !IsLineBreak(first[i]) {
        if i >= 6 { assert first[i] == m[i - 6]; }
      }
    }
    assert NoBreaks(second) by {
      forall i | 0 <= i < |second| ensures !IsLineBreak(second[i]) {
        if i >= 12 { assert second[i] == r[i - 12]; }
      }
    }
    SplitTerminated([first], second);
  }

  /** Whatever came before, a reply in the requested format sets both fields. */
  lemma FormattedReplyOverrides(a: Annotation, m: string, r: string)
    requires NoBreaks(m) && NoBreaks(r) && Strip(m) == m && Strip(r) == r
    ensures Run(a, SplitLines(FormatReply(m, r))) == Annotation(m, r)
  {
    FormatLines(m, r);
    FormattedLine(Mood, m);
    FormattedLine(Reflection, r);
    var lines := [MoodLabel + " " + m, ReflectionLabel + " " + r];
    assert lines[..1] == [lines[0]] && lines[..1][..0] == [];
  }

  /**
   * Round trip: single-line, trimmed values written in the format the prompt
   * asks for parse back to exactly those values.
   */
  lemma ReplyRoundTrip(m: string, r: string)
    requires NoBreaks(m) && NoBreaks(r) && Strip(m) == m && Strip(r) == r
    ensures Parse(FormatReply(m, r)) == Annotation(m, r)
  {
    FormattedReplyOverrides(Defaults, m, r);
  }

  /**
   * A reply that echoes the whole prompt parses to the two placeholders,
   * whatever labelled lines the journal text holds: the format block comes last.
   */
  lemma EchoedPromptParses(text: string)
    ensures Parse(BuildPrompt(text)) == Annotation(MoodPlaceholder, ReflectionPlaceholder)
  {
    var head := PromptIntro + EntryLabel + text + FormatIntro;
    var format := FormatReply(MoodPlaceholder, ReflectionPlaceholder);
    var before := SplitLines(head);
    assert SplitLines(BuildPrompt(text)) == before + SplitLines(format) by {
      assert BuildPrompt(text) == head + format;
      assert head[|head| - 1] == '\n';
      SplitAfterNewline([], head, format);
    }
    RunAppend(Defaults, before, SplitLines(format));
    PlaceholdersTrimmed();
    FormattedReplyOverrides(Run(Defaults, before), MoodPlaceholder, ReflectionPlaceholder);
  }

  lemma PlaceholdersTrimmed()
    ensures NoBreaks(MoodPlaceholder) && Strip(MoodPlaceholder) == MoodPlaceholder
    ensures NoBreaks(ReflectionPlaceholder) && Strip(ReflectionPlaceholder) == ReflectionPlaceholder
  {
    StripUnique(MoodPlaceholder, 0, |MoodPlaceholder|);
    StripUnique(ReflectionPlaceholder, 0, |ReflectionPlaceholder|);
  }

  // ---------------------------------------------------------------------------
  // call_gemini_api

  /** What the client call yields: the reply text, or an exception it raised. */
  datatype LlmResponse = Content(text: string) | Raised

  /** `not api_key`: the variable is unset or empty. */
  predicate KeyAbsent(apiKey: Option<string>) {
    apiKey.None? || apiKey.value == ""
  }

  /**
   * `call_gemini_api`: never fails; returns the key-missing pair when no key is
   * set (before looking at the library), `essential_fallback` when the library
   * is missing or the call raises, and otherwise the parsed reply. `sent` is
   * the prompt handed to the model, if any.
   */
  method CallGeminiApi(text: string, apiKey: Option<string>, libraryInstalled: bool,
                       invoke: string -> LlmResponse)
    returns (result: Annotation, sent: Option<string>)
    ensures KeyAbsent(apiKey) ==> result == KeyMissingPair && sent == None
    ensures !KeyAbsent(apiKey) && !libraryInstalled ==> result == EssentialFallback && sent == None
    ensures !KeyAbsent(apiKey) && libraryInstalled ==> sent == Some(BuildPrompt(text))
    ensures !KeyAbsent(apiKey) && libraryInstalled && invoke(BuildPrompt(text)).Raised?
            ==> result == EssentialFallback
    ensures !KeyAbsent(apiKey) && libraryInstalled && invoke(BuildPrompt(text)).Content?
            ==> result == Parse(invoke(BuildPrompt(text)).text)
    ensures result.mood == "neutral"
            || (sent.Some? && invoke(sent.value).Content? && result == Parse(invoke(sent.value).text))
  {
    if KeyAbsent(apiKey) {
      return KeyMissingPair, None;
    }
    if !libraryInstalled {
      return EssentialFallback, None;
    }
    var prompt := BuildPrompt(text);
    sent := Some(prompt);
    var response := invoke(prompt);
    match response
    case Raised =>
      result := EssentialFallback;
    case Content(reply) =>
      result := ParseReply(reply);
  }
}
