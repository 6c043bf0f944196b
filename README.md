# Journal annotation reply handling

A model of `app/gemini.py`, the piece of the journal application that asks a
language model to annotate a journal entry with a mood and a short
reflection. It has three parts:

- `_build_prompt` builds the fixed-template prompt around the entry text. The
  prompt asks for a two-line reply, `MOOD: ...` then `REFLECTION: ...`.
- The parse loop inside `call_gemini_api` goes through the reply's
  `splitlines()`. A line whose `strip().upper()` starts with `MOOD:` or
  `REFLECTION:` overwrites that field with the trimmed text after the line's
  first colon. The fields start at `'neutral'` and
  `'Keep writing to track your journey.'`.
- `call_gemini_api` chooses the result:
  - the "API key missing" pair when no key is set;
  - the shared `essential_fallback` pair when the client library is missing
    or the call raises;
  - otherwise the parsed pair.

The project has two modules:

- `PyStr` (`pystr.dfy`) models the Python `str` operations the parser relies
  on, with their exact Python behaviour except `upper()` (see below):
  - `isspace()` / `strip()`, with Python's full whitespace set;
  - `upper()`;
  - `startswith()`;
  - `split(':', 1)[1]`;
  - `splitlines()`, with its full boundary set. `"\r\n"` counts as one
    boundary, and a trailing boundary does not produce an empty last line.

  `strip()` is defined by recursion as `rstrip(lstrip(s))`. It is
  characterised independently as the unique slice with whitespace outside it
  and non-space characters at its ends (`StripUnique`, `StripAt`).
  `splitlines()` is a character-by-character scan. Its partner is the round
  trip `SplitTerminated`.
- `Gemini` (`gemini.dfy`) holds the rest:
  - the prompt (`BuildPrompt`);
  - one loop step as a function (`Step`) and the loop as a fold over the lines
    (`Run`, `Parse`);
  - the loop itself as an imperative method (`ParseReply`), proved equal to
    the fold by its loop invariant;
  - the outcome selection (`CallGeminiApi`).

  The language-model call is a parameter `invoke` that maps the prompt to
  either the reply text or a raised exception. The API key and the presence of
  the client library are inputs too.

## Model

| member | source | states |
|---|---|---|
| `Gemini.BuildPrompt` | app/gemini.py:11-20 | The prompt starts with the fixed instructions followed by `Journal entry: `. The entry text appears verbatim right after them. The prompt ends with the two-line format `MOOD: <mood here>` / `REFLECTION: <reflection here>`. |
| `Gemini.EchoedPromptParses` | app/gemini.py:11-20 | A reply that echoes the whole prompt parses to the two placeholders, whatever labelled lines the entry text holds. The format block comes last, so it wins. |
| `Gemini.FormatLines` | app/gemini.py:18-19 | The requested reply format, with single-line values, splits into exactly its two lines. |
| `Gemini.FormattedLine` | app/gemini.py:59-62 | A line written as `LABEL: v`, with `v` already trimmed, carries that label and yields exactly `v`. |
| `Gemini.FormattedReplyOverrides` | app/gemini.py:58-62 | A reply in the requested format sets both fields to its values, whatever they held before. |
| `Gemini.ReplyRoundTrip` | app/gemini.py:17-19 | Round trip: single-line, trimmed values `m` and `r` written as `"MOOD: " + m + "\nREFLECTION: " + r` parse back to exactly `(m, r)`. |
| `Gemini.ParseReply` | app/gemini.py:56-67 | The imperative loop over `splitlines()` that overwrites `mood` and `reflection` returns exactly the fold `Parse`. |
| `Gemini.LabelOf` | app/gemini.py:59-62 | Whenever a label prefix matches, the line contains a colon, so the `':' in line` guard is always true. |
| `Gemini.ColonOfLabel` | app/gemini.py:59-60 | When the stripped, upper-cased line starts with a label, the first colon of the raw line is the label's own colon. It sits at the label's last position after the leading whitespace. |
| `Gemini.LabelOfKey` | app/gemini.py:59-61 | A line whose stripped, upper-cased form starts with `MOOD:` (or `REFLECTION:`) is classified as carrying that label. The `MOOD:` test comes first. |
| `Gemini.LabelledValue` | app/gemini.py:60-62 | The value of a labelled line (`split(':', 1)[1].strip()`) is the trimmed text that follows the label in the trimmed line. |
| `Gemini.LabelIgnoresCaseAndPadding` | app/gemini.py:59-62 | Label matching ignores letter case and surrounding whitespace. Surrounding whitespace never reaches the value. |
| `Gemini.BareLabelClears` | app/gemini.py:56-62 | A line that is only a label (after trimming and upper-casing) sets its field to the empty string, not back to the non-empty default. |
| `Gemini.StepUpdates` | app/gemini.py:59-62 | One loop step sets the field whose label the line carries to the line's value. It leaves every other field unchanged. |
| `Gemini.RunAppend` | app/gemini.py:58 | Parsing the lines of `xs + ys` equals parsing `ys` starting from the state reached after `xs`. |
| `Gemini.UnlabelledLinesKeep` | app/gemini.py:58-62 | Lines that do not carry a field's label leave that field as it was. This includes lines with the other label and lines with no label. |
| `Gemini.UnlabelledReplyGivesDefaults` | app/gemini.py:56-67 | If no line of the reply carries a label, the result is `('neutral', 'Keep writing to track your journey.')`. |
| `Gemini.LastLabelWins` | app/gemini.py:58-62 | When several lines carry the same label, the field ends up with the value of the last one. |
| `Gemini.CallGeminiApi` | app/gemini.py:29-70 | With no key (unset or empty), the result is the key-missing pair and no prompt is sent. This check comes before the library check. If the library is missing, the result is `essential_fallback` and no prompt is sent. Otherwise exactly `_build_prompt(text)` is sent. A raised call gives `essential_fallback`, and a reply gives its parse. Mood is `'neutral'` on every path except the parsed one. |
| `PyStr.SplitTerminated` | app/gemini.py:58 | `splitlines()` round trip: single lines, each followed by `"\n"`, then an unterminated last line, split back into exactly those lines. A trailing boundary adds no empty line. |
| `PyStr.SplitAfterNewline` | app/gemini.py:58 | Text that ends with a newline splits independently of what follows it. |
| `PyStr.SplitFromLines` | app/gemini.py:58 | No line returned by `splitlines()` contains a line boundary. |
| `PyStr.StripBounds` | app/gemini.py:59 | For every string there is a slice with only whitespace outside it and, when it is non-empty, non-space characters at both ends. |
| `PyStr.StripUnique` | app/gemini.py:59 | Any slice with only whitespace outside it and non-space characters at its ends is exactly what `strip()` returns, so that slice is unique. |
| `PyStr.StripAt` | app/gemini.py:59 | `strip()` returns the slice `StripBounds` describes. |
| `PyStr.StripPadding` | app/gemini.py:59 | Whitespace added on either side of a string does not change its `strip()`. |
| `PyStr.UpperStripCommute` | app/gemini.py:59 | `s.strip().upper() == s.upper().strip()`. |
| `PyStr.UpperIdentity` | app/gemini.py:59 | A string without lower-case ASCII letters is its own `upper()`. |
| `PyStr.IndexOf` | app/gemini.py:60 | The position of the first occurrence of a character: no earlier position holds it, and the result is within the string exactly when the character occurs in it. |
| `PyStr.AfterPrefixValue` | app/gemini.py:60 | After a prefix that ends in its first colon, one space and an already-trimmed value, `split(':', 1)[1].strip()` recovers that value. |

## Left out

- The LangChain client: constructing it, the network call and the
  `getattr(res, 'content', None) or str(res)` coercion (app/gemini.py:49-53).
  These are a foreign library and network I/O. They are the parameter
  `invoke`, whose `Content` text is taken to be the reply text.
- Environment lookups (`GEMINI_API_KEY`, `GEMINI_MODEL`), the model name, the
  `temperature` float and the `current_app.logger` calls. The key is an input
  `Option<string>`, and `not api_key` is "unset or empty".
- Whether `langchain_google_genai` imports is an input `libraryInstalled`.
- Gemini.CallGeminiApi: the `except` branch (app/gemini.py:68-70) is reached
  only through a raised call. Parsing a string reply cannot raise in the
  source either, so no exception path is lost.
- Returning the same shared `essential_fallback` dict object on two paths is
  Python object identity. The model returns equal values.
- PyStr.Upper: upper-cases ASCII letters only. Python's `upper()` also maps
  other letters, for example `'ı'` to `'I'` and `'ſ'` to `'S'`, so a few
  non-ASCII spellings of the labels that Python would accept are not
  recognised by the model. Length-changing mappings such as `'ß'` to `"SS"`
  are not modelled either.
- app/entries.py, app/__init__.py, the tests and the authentication code are
  not part of this model. They are Flask routing, SQL, configuration and
  fixtures.
