# Text-analysis engine of the writing widget, in Dafny

The widget in `script.js` shows live statistics about the text a user types:
word, character, sentence and paragraph counts, reading and speaking time,
average and longest word, progress towards a word-count target, the five most
frequent keywords, and a title-case transform. This project models the
computations behind those displays and proves what they promise. The DOM,
timers and clipboard around them are not modelled.

Modules, one file each:

- `Text` (`text.dfy`): the JavaScript string primitives the engine uses.
  This covers the `\s` class (the same set `trim` removes), ASCII casing,
  `trim`, `split` on runs of a character class (`Segments`),
  `replace(/[..]/g, '')` (`Drop`), `filter`, and counting maximal runs.
- `Sorting` (`sorting.dfy`): `Array.prototype.sort` with a comparator
  `(a, b) => key(b) - key(a)`, as a stable insertion sort by descending key.
  Both sorts in the source use it.
- `Stats` (`stats.dfy`): everything `updateStats` computes. This includes
  `parseInt` of the target field and the `|| 500` fallback. `ComputeStats`
  returns one `TextStats` value.
- `Keywords` (`keywords.dfy`): the tokeniser of `updateKeywords` and the
  counting loop, as the method `CountFrequencies`. The loop keeps a map and
  the first-insertion order of its keys, and is proved against `Counts` and
  `FirstSeen`. `Rank` is the functional specification that the method
  `TopKeywords` is proved against.
- `TitleCase` (`title_case.dfy`): `toTitleCase`, with a character-by-character
  characterisation `TitleChar`/`InMatch` that is independent of the recursive
  definition.

Numbers that the source renders through floating point are exact rationals
here (`Ratio`). These are the average word length and the progress
percentage.

Three behaviours of the code that the model keeps as they are:

- `parseInt(..) || 500` (script.js:70) replaces only 0 and NaN by 500. A
  negative target is kept. With a negative target the goal is never reached
  and the progress value is negative or zero.
- `Math.ceil(wordCount / 200)` and `Math.ceil(wordCount / 150)`
  (script.js:39-41) give 0 minutes for 0 words.
- `Math.min((wordCount / target) * 100, 100)` (script.js:81) is a percentage
  capped at 100, not a ratio capped at 1.

## Model

| member | source | states |
|---|---|---|
| Text.Lower | script.js:114 | `toLowerCase` keeps the length, lower-cases every character, and leaves no upper-case letter |
| Text.Trim | script.js:26 | no `ensures` of its own; `TrimSplit` states that it removes whitespace only, and only at the two ends |
| Text.TrimSplit | script.js:26 | `trim` removes only whitespace, and only at the two ends |
| Text.TrimKeepsRuns | script.js:26 | trimming changes neither the number of non-whitespace runs nor the non-whitespace characters |
| Text.Segments | script.js:26 | a split has at least one piece; the first piece is empty exactly when the string is empty or starts with a delimiter, and otherwise starts with the first character |
| Text.SplitRuns | script.js:26 | the non-empty pieces of a split are the maximal runs of non-delimiters, each equal to the run at its own position, from left to right, and there are as many as `RunCount` counts |
| Text.RunsAtTrim | script.js:26 | a maximal run of the trimmed string is a maximal run of the string, moved right by exactly the number of characters `trim` removes at the front, all of them whitespace |
| Text.KeptPiecesAreRuns | script.js:33-37 | the pieces of a split that a filter keeps (never empty ones) are those of the maximal runs of non-delimiters, from left to right, and there are as many runs as `RunCount` counts |
| Text.SegmentsConcat | script.js:26 | joining the pieces of `split(/[d]+/)` gives the string with every delimiter removed |
| Text.SegmentsNoDelim | script.js:26 | no piece of a split holds a delimiter |
| Text.SegmentsRunCount | script.js:26 | the non-empty pieces of a split are exactly as many as the maximal runs of non-delimiters |
| Text.HasTextIff | script.js:33 | `s.trim().length > 0` holds iff `s` has a non-whitespace character |
| Text.NoTextPieces | script.js:33-37 | no piece of a split holds text iff every character is a delimiter or whitespace |
| Text.Drop | script.js:31 | removing a class gives a string no longer than the input that holds no character of the class |
| Text.DropCount | script.js:31 | removing a class leaves the length minus the number of characters in the class |
| Stats.Words | script.js:26 | no `ensures` of its own; `WordsAreRuns` characterises it |
| Stats.WordsAreRuns | script.js:26-27 | the k-th word is the maximal non-whitespace run of the text at its own position, from left to right; there are as many words as runs; together they hold every non-whitespace character in order |
| Stats.WordCountZero | script.js:26-27 | the word count is 0 iff the text is empty or all whitespace |
| Stats.CharCounts | script.js:29-31 | for every target input, `charNoSpaceCount` plus the whitespace count is `charCount`, and it is the total length of the words |
| Stats.Sentences | script.js:33 | no `ensures` of its own; `SentencesAreRuns`, `SentenceCountZero` and `PiecesHoldText` characterise it |
| Stats.Paragraphs | script.js:36 | no `ensures` of its own; `ParagraphsAreRuns`, `ParagraphCountZero` and `PiecesHoldText` characterise it |
| Stats.SentencesAreRuns | script.js:33-34 | the sentences are, in order, the maximal runs of characters other than `.`, `!`, `?` that hold a non-whitespace character, each at its own position in the text |
| Stats.ParagraphsAreRuns | script.js:36-37 | the paragraphs are, in order, the maximal runs of characters other than a line feed that hold a non-whitespace character, each at its own position in the text |
| Stats.SentenceCountZero | script.js:33-34 | there are no sentences iff the text is made of `.`, `!`, `?` and whitespace only |
| Stats.ParagraphCountZero | script.js:36-37 | there are no paragraphs iff the text is blank, which is iff there are no words |
| Stats.PiecesHoldText | script.js:33-37 | every sentence and paragraph holds text and no separator |
| Stats.CeilDiv | script.js:39-41 | the result is the least integer at least `n / d` (`Math.ceil`) |
| Stats.TimeEstimates | script.js:39-41 | reading minutes never exceed speaking minutes, and each is 0 iff there are no words |
| Stats.Average | script.js:43-46 | the average has a positive denominator and is 0 without words |
| Stats.AverageIsMeanLength | script.js:43-46 | with words, the average is the mean word length and at least 1 |
| Stats.Shorten | script.js:52-54 | a word of at most 15 characters is shown as it is; a longer one as its first 12 characters and "...", exactly 15 characters |
| Stats.LongestDisplay | script.js:48-55 | no `ensures` of its own; `LongestIsFirstLongest` characterises it |
| Stats.LongestIsFirstLongest | script.js:48-55 | the display is "-" without words, and otherwise the shortened first word of greatest length |
| Stats.ParseInt | script.js:70 | no `ensures` of its own; `ParseDecimalPrefix`, `ParseHexPrefix`, `ParseNoDigits`, `ParseHexNoDigits` and `ParseShowInt` characterise it: after whitespace and a sign, a decimal digit prefix, a `0x`/`0X` prefix with hexadecimal digits, or NaN |
| Stats.ParsedTarget | script.js:70 | no `ensures` of its own; `ParseDecimalPrefix`, `ParseHexPrefix`, `ParseNoDigits`, `ParseHexNoDigits`, `MissingTarget` and `DecimalTarget` state what it yields, and `Target` what the fallback makes of it |
| Stats.ParseDecimalPrefix | script.js:70 | after leading whitespace and an optional sign, `parseInt` reads the longest decimal digit prefix and ignores what follows it ("2.5", "1e3", " -12px"); the value is that of the digits, negated after a minus sign; a lone `0` followed by `x` or `X` is left to the hexadecimal case |
| Stats.ParseNoDigits | script.js:70 | `parseInt` is NaN when no decimal digit follows the leading whitespace and the optional sign |
| Stats.ParseHexPrefix | script.js:70 | after leading whitespace and an optional sign, `0x` or `0X` switches `parseInt` to radix 16: it reads the longest hexadecimal digit prefix after it and ignores what follows; the value is that of the hexadecimal digits, negated after a minus sign |
| Stats.ParseHexNoDigits | script.js:70 | `parseInt` is NaN when `0x` or `0X` (after whitespace and an optional sign) is followed by no hexadecimal digit |
| Stats.TargetFraction | script.js:70 | the target field "2.5" gives target 2 |
| Stats.TargetSigned | script.js:70 | the target field " -4x" gives target -4 |
| Stats.TargetNoDigits | script.js:70 | the target field "abc" gives target 500 |
| Stats.TargetZero | script.js:70 | the target field "0" gives target 500 |
| Stats.TargetHex | script.js:70 | the target field "0x10" gives target 16 |
| Stats.TargetHexEmpty | script.js:70 | the target field "0x" gives target 500 |
| Stats.Target | script.js:70 | the target is never 0; NaN and 0 give 500, and any other parsed value, negative ones included, is kept |
| Stats.ParseShowInt | script.js:70 | `parseInt` reads back the decimal rendering of every integer |
| Stats.DecimalTarget | script.js:70 | a field holding the decimal rendering of `n` gives target `n`, or 500 when `n` is 0 |
| Stats.MissingTarget | script.js:70 | without a target field the target is 500 |
| Stats.Progress | script.js:81 | the progress value is defined for every target the model produces and never exceeds 100 |
| Stats.GoalReached | script.js:73 | no `ensures` of its own; `GoalAndProgress` relates it to the progress value |
| Stats.GoalAndProgress | script.js:70-81 | the target is non-zero; the progress value is 100 exactly when the goal holds, and never negative for a positive target |
| Stats.ComputeStats | script.js:24-81 | the combined statistics: `charNoSpaceCount <= charCount`; no words means average 0 and longest "-"; the target is non-zero; progress at most 100; the longest display has at most 15 characters |
| Sorting.SortDesc | script.js:50 | the sort returns a permutation of its input in non-increasing key order |
| Sorting.SortDescHead | script.js:50-51 | the first element after sorting is the first element of greatest key in the input |
| Sorting.SortDescStable | script.js:120 | for distinct elements (the keys of `Object.keys`), elements with equal keys keep their input order |
| Sorting.SortDescDistinct | script.js:120 | sorting distinct elements gives distinct elements |
| Keywords.Tokens | script.js:114 | no `ensures` of its own; `TokensAreRuns` and `TokensShape` characterise it |
| Keywords.TokensAreRuns | script.js:114 | the tokens are, in order, the maximal runs of non-delimiters of the lower-cased, trimmed text that are longer than three characters |
| Keywords.TokensShape | script.js:114 | every token is longer than 3 characters, has no upper-case letter and holds no delimiter |
| Keywords.FirstSeen | script.js:120 | the dictionary's keys are distinct and are exactly the tokens |
| Keywords.FirstSeenOrder | script.js:115-120 | the keys are enumerated in the order in which the tokens first occur |
| Keywords.CountFrequencies | script.js:115-118 | the loop leaves each token's number of occurrences in the map, and the keys in first-insertion order |
| Keywords.TopKeywords | script.js:113-120 | the keywords computed from the text are those of the ranking specification `Rank` |
| Keywords.Rank | script.js:115-120 | no `ensures` of its own; it is the ranking that `TopKeywords` computes and that `RankCounts`, `RankOrder`, `RankCutoff` and `KeywordsShape` characterise |
| Keywords.RankCounts | script.js:115-120 | at most five keywords, fewer only when there are fewer distinct tokens, none iff there are no tokens; distinct tokens, each with its number of occurrences |
| Keywords.RankOrder | script.js:120 | counts are non-increasing, and equal counts come in first-occurrence order |
| Keywords.RankCutoff | script.js:120 | a token left out has a count no greater than the last keyword's; with an equal count, the last keyword occurs first |
| Keywords.KeywordsShape | script.js:114-120 | every keyword returned is lower-case, longer than 3 characters and free of delimiters |
| TitleCase.NonSpacePrefix | script.js:198 | the `\S*` part of a match ends at the first whitespace |
| TitleCase.ToTitleCase | script.js:196-203 | title-casing keeps the length |
| TitleCase.ToTitleCaseAt | script.js:196-203 | each character follows the rule: whitespace is kept; inside a match it is lower-cased; a word character that starts a match is upper-cased; anything else is kept |
| TitleCase.ToTitleCaseKeeps | script.js:196-203 | length, whitespace, characters outside any match and non-letters are kept |
| TitleCase.ToTitleCaseAppend | script.js:196-203 | text that ends in whitespace and the text after it are title-cased independently |
| TitleCase.ToTitleCaseIdempotent | script.js:196-203 | title-casing twice is the same as title-casing once |
| TitleCase.ToTitleCaseExample | script.js:196-203 | "hello, WORLD! this-is fine." becomes "Hello, World! This-is Fine." |

## Left out

- The DOM: element lookups, event listeners, rendering into `textContent`, `innerHTML` and class lists, the clear confirmation, and focus (script.js:1-22, 57-67, 72-79, 82, 121-152, 188-194, 205). These are user-interface plumbing.
- `animateValue` (script.js:85-111). It is driven by timers and the clock and is purely cosmetic.
- Clipboard copy and its toast (script.js:154-174). These are asynchronous browser services.
- The upper-case and lower-case buttons (script.js:176-187). They apply the native whole-string casing and hold no logic of their own.
- `toFixed(1)` of the average and the floating-point progress percentage (script.js:45, 81). Both are exact rationals here, so float rounding is not modelled.
- Text.Lower, Text.UpperChar, Text.LowerChar: only ASCII letters change case. The native `toLowerCase`/`toUpperCase` also map other letters, and some change length. `ToTitleCase` keeps the length only under this ASCII casing.
- Text.IsSpace: the list of code points is that of current Unicode (ECMAScript WhiteSpace and LineTerminator). It is fixed, not tied to a Unicode version.
- Strings are sequences of Unicode scalar values. JavaScript counts UTF-16 code units, so a character outside the Basic Multilingual Plane counts once here and twice in `text.length`.
- Stats.ParseInt: the magnitude is an unbounded integer. `parseInt` goes through a double, so digit strings beyond 2^53 lose precision there and not here.
- Keywords.CountFrequencies: the dictionary is a map with an explicit key order, namely first insertion. Two quirks of plain JavaScript objects are not modelled. Integer-like tokens such as "2024" enumerate before all other keys, in numeric order. Tokens that name `Object.prototype` members corrupt their counts. After lower-casing only `constructor` and `__proto__` can occur. The model is faithful for tokens of neither kind.
- The placeholder shown when there are no keywords and the rendering of keyword chips (script.js:121-152). `RankCounts` states when the list is empty.
