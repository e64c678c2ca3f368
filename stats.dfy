/** The computation part of `updateStats` (script.js): the counts, the time
    estimates, the average and longest word, the sanitised target, the goal
    flag and the progress value. */
module Stats {
  import opened Text
  import opened Sorting

  datatype Option<T> = None | Some(value: T)

  /** An exact rational `num / den`; every value built here has `den > 0`. */
  datatype Ratio = Ratio(num: int, den: nat)

  /** Where the target comes from: no `#targetInput` element, or the text of
      its value. */
  datatype TargetInput = Missing | Field(value: string)

  /** The statistics `updateStats` renders. `avgLen` and `progress` are the
      exact values before `toFixed(1)` and floating-point division. */
  datatype TextStats = TextStats(
    wordCount: nat,
    charCount: nat,
    charNoSpaceCount: nat,
    sentenceCount: nat,
    paraCount: nat,
    readMinutes: nat,
    speakMinutes: nat,
    avgLen: Ratio,
    longest: string,
    target: int,
    goalReached: bool,
    progress: Ratio)

  const ReadingWordsPerMinute: nat := 200
  const SpeakingWordsPerMinute: nat := 150
  const DefaultTarget: int := 500
  const MaxLongestDisplay: nat := 15
  const LongestPrefix: nat := 12

  predicate IsSentenceEnd(c: char) { c == '.' || c == '!' || c == '?' }

  predicate IsNewline(c: char) { c == '\n' }

  /** `text.trim().split(/\s+/).filter(word => word.length > 0)`. */
  function Words(text: string): seq<string> {
    Filter(Segments(Trim(text), IsSpace), NonEmpty)
  }

  /** `text.split(/[.!?]+/).filter(s => s.trim().length > 0)`. */
  function Sentences(text: string): seq<string> {
    Filter(Segments(text, IsSentenceEnd), HasText)
  }

  /** `text.split(/\n+/).filter(p => p.trim().length > 0)`. */
  function Paragraphs(text: string): seq<string> {
    Filter(Segments(text, IsNewline), HasText)
  }

  /** `Math.ceil(n / d)` for naturals. */
  function CeilDiv(n: nat, d: nat): (r: nat)
    requires d > 0
    ensures r * d >= n && (r - 1) * d < n
  {
    var q := (n + d - 1) / d;
    assert q * d <= n + d - 1 < q * d + d;
    q
  }

  function Length(w: string): int { |w| }

  /** The display of the longest word: its first 12 characters and "..."
      when it is longer than 15. */
  function Shorten(w: string): (r: string)
    ensures |r| <= MaxLongestDisplay
    ensures |w| <= MaxLongestDisplay ==> r == w
    ensures |w| > MaxLongestDisplay ==>
              |r| == MaxLongestDisplay && r[..LongestPrefix] == w[..LongestPrefix] && r[LongestPrefix..] == "..."
  {
    if |w| > MaxLongestDisplay then w[..LongestPrefix] + "..." else w
  }

  /** `[...words].sort((a, b) => b.length - a.length)[0]`, shortened, or "-". */
  function LongestDisplay(words: seq<string>): string {
    if words == [] then "-" else Shorten(SortDesc(words, Length)[0])
  }

  /** The value `avgLen` is rendered from: `charNoSpaceCount / wordCount`,
      or 0 when there are no words. */
  function Average(charNoSpace: nat, wordCount: nat): (r: Ratio)
    ensures r.den > 0
    ensures wordCount == 0 ==> r.num == 0
  {
    if wordCount > 0 then Ratio(charNoSpace, wordCount) else Ratio(0, 1)
  }

  // ------------------------------------------------------------ parseInt

  predicate IsDigitIn(c: char, radix: nat) {
    '0' <= c <= '9' || (radix == 16 && ('a' <= c <= 'f' || 'A' <= c <= 'F'))
  }

  function DigitValue(c: char): (v: nat)
    requires IsDigitIn(c, 16)
    ensures v < 16
    ensures '0' <= c <= '9' ==> v < 10
  {
    if '0' <= c <= '9' then c as int - '0' as int
    else if 'a' <= c <= 'f' then c as int - 'a' as int + 10
    else c as int - 'A' as int + 10
  }

  /** Length of the longest prefix made of digits of the radix. */
  function DigitPrefix(s: string, radix: nat): (n: nat)
    ensures n <= |s|
    ensures forall i :: 0 <= i < n ==> IsDigitIn(s[i], radix)
    ensures n < |s| ==> !IsDigitIn(s[n], radix)
  {
    if s != [] && IsDigitIn(s[0], radix) then 1 + DigitPrefix(s[1..], radix) else 0
  }

  /** The number a digit string denotes in the radix, most significant first. */
  function DigitsValue(ds: string, radix: nat): nat
    requires radix == 10 || radix == 16
    requires forall i :: 0 <= i < |ds| ==> IsDigitIn(ds[i], radix)
  {
    if ds == [] then 0
    else
      var last := ds[|ds| - 1];
      assert IsDigitIn(last, radix);
      DigitsValue(ds[..|ds| - 1], radix) * radix + DigitValue(last)
  }

  /** The unsigned part of `parseInt`: a `0x`/`0X` prefix selects radix 16,
      then the longest digit prefix is read; `None` (NaN) when it is empty. */
  function ParseMagnitude(u: string): Option<nat> {
    if |u| >= 2 && u[0] == '0' && (u[1] == 'x' || u[1] == 'X') then ParseDigits(u[2..], 16)
    else ParseDigits(u, 10)
  }

  /** The longest digit prefix of `v` in the radix, `None` when it is empty. */
  function ParseDigits(v: string, radix: nat): Option<nat>
    requires radix == 10 || radix == 16
  {
    var n := DigitPrefix(v, radix);
    if n == 0 then None else Some(DigitsValue(v[..n], radix))
  }

  /** `parseInt(s)` without a radix: leading whitespace skipped, one optional
      sign, then the magnitude; `None` stands for NaN. `-0` is 0. */
  function ParseInt(s: string): Option<int> {
    var t := TrimStart(s);
    if t != [] && t[0] == '-' then Signed(Minus, ParseMagnitude(t[1..]))
    else if t != [] && t[0] == '+' then Signed(Plus, ParseMagnitude(t[1..]))
    else Signed(NoSign, ParseMagnitude(t))
  }

  /** The optional sign `parseInt` accepts before the magnitude. */
  datatype Sign = NoSign | Plus | Minus

  function SignText(sg: Sign): string {
    match sg
    case NoSign => ""
    case Plus => "+"
    case Minus => "-"
  }

  function ApplySign(sg: Sign, v: nat): int {
    if sg == Minus then -(v as int) else v
  }

  /** The magnitude with its sign applied; NaN stays NaN. */
  function Signed(sg: Sign, m: Option<nat>): Option<int> {
    match m
    case None => None
    case Some(v) => Some(ApplySign(sg, v))
  }

  /** `parseInt(targetInput ? targetInput.value : 500)`: a missing field
      parses the number 500 through its string form. */
  function ParsedTarget(input: TargetInput): Option<int> {
    match input
    case Missing => ParseInt("500")
    case Field(v) => ParseInt(v)
  }

  /** `parseInt(..) || 500`: NaN and 0 (also -0) fall back to 500; any other
      value, negative ones included, is kept. */
  function Target(input: TargetInput): (t: int)
    ensures t != 0
    ensures ParsedTarget(input) == None || ParsedTarget(input) == Some(0) ==> t == DefaultTarget
    ensures ParsedTarget(input).Some? && ParsedTarget(input).value != 0 ==> t == ParsedTarget(input).value
  {
    match ParsedTarget(input)
    case None => DefaultTarget
    case Some(v) => if v == 0 then DefaultTarget else v
  }

  /** `wordCount >= target && target > 0`. */
  predicate GoalReached(wordCount: nat, target: int) {
    wordCount >= target && target > 0
  }

  /** `Math.min((wordCount / target) * 100, 100)` over the rationals. */
  function Progress(wordCount: nat, target: int): (r: Ratio)
    requires target != 0
    ensures r.den > 0
    ensures r.num <= 100 * r.den
  {
    var q := if target > 0 then Ratio(100 * wordCount, target) else Ratio(-100 * wordCount, -target);
    if q.num <= 100 * q.den then q else Ratio(100, 1)
  }

  /** Everything `updateStats` computes from the text and the target field. */
  function ComputeStats(text: string, input: TargetInput): (st: TextStats)
    ensures st.charNoSpaceCount <= st.charCount
    ensures st.wordCount == 0 ==> st.avgLen.num == 0 && st.longest == "-"
    ensures st.target != 0 && st.progress.den > 0
    ensures st.progress.num <= 100 * st.progress.den
    ensures |st.longest| <= MaxLongestDisplay
  {
    var words := Words(text);
    var wordCount := |words|;
    var charNoSpace := |Drop(text, IsSpace)|;
    var target := Target(input);
    TextStats(
      wordCount := wordCount,
      charCount := |text|,
      charNoSpaceCount := charNoSpace,
      sentenceCount := |Sentences(text)|,
      paraCount := |Paragraphs(text)|,
      readMinutes := CeilDiv(wordCount, ReadingWordsPerMinute),
      speakMinutes := CeilDiv(wordCount, SpeakingWordsPerMinute),
      avgLen := Average(charNoSpace, wordCount),
      longest := LongestDisplay(words),
      target := target,
      goalReached := GoalReached(wordCount, target),
      progress := Progress(wordCount, target))
  }

  // ---------------------------------------------------------------- lemmas

  /** The words are the maximal runs of non-whitespace of the text: the
      k-th word is the run that starts at `starts[k]`, in increasing order
      of position; there are as many words as runs, none is empty or holds
      whitespace, and together they hold every non-whitespace character in
      order. */
  lemma WordsAreRuns(text: string) returns (starts: seq<nat>)
    ensures RunsAt(text, IsSpace, Words(text), starts)
    ensures |Words(text)| == RunCount(text, IsSpace)
    ensures Concat(Words(text)) == Drop(text, IsSpace)
    ensures forall k :: 0 <= k < |Words(text)| ==> Words(text)[k] != [] && NoneIn(Words(text)[k], IsSpace)
  {
    var st := SplitRuns(Trim(text), IsSpace);
    var lo := RunsAtTrim(text, Words(text), st);
    starts := Shift(st, lo);
    WordsCount(text);
    WordsConcat(text);
    WordsPieces(text);
  }

  lemma WordsPieces(text: string)
    ensures forall k :: 0 <= k < |Words(text)| ==> Words(text)[k] != [] && NoneIn(Words(text)[k], IsSpace)
  {
    var ws := Words(text);
    FilterSegmentsNoDelim(Trim(text), IsSpace, NonEmpty);
    forall k | 0 <= k < |ws| ensures ws[k] != [] && NoneIn(ws[k], IsSpace) {
      assert NonEmpty(ws[k]);
    }
  }

  lemma WordsCount(text: string)
    ensures |Words(text)| == RunCount(text, IsSpace)
  {
    SegmentsRunCount(Trim(text), IsSpace);
    TrimKeepsRuns(text);
  }

  lemma WordsConcat(text: string)
    ensures Concat(Words(text)) == Drop(text, IsSpace)
  {
    var t := Trim(text);
    TrimKeepsRuns(text);
    SegmentsConcat(t, IsSpace);
    FilterNonEmptyConcat(Segments(t, IsSpace));
  }

  /** There are no words exactly when the text is empty or all whitespace. */
  lemma WordCountZero(text: string)
    ensures |Words(text)| == 0 <==> AllIn(text, IsSpace)
  {
    var _ := WordsAreRuns(text);
    RunCountZero(text, IsSpace);
  }

  /** `charNoSpaceCount` is `charCount` less the whitespace characters, and
      it is the total length of the words. */
  lemma CharCounts(text: string, input: TargetInput)
    ensures ComputeStats(text, input).charNoSpaceCount + CountOf(text, IsSpace) == |text|
    ensures ComputeStats(text, input).charNoSpaceCount == TotalLength(Words(text))
  {
    DropCount(text, IsSpace);
    var _ := WordsAreRuns(text);
    ConcatLength(Words(text));
  }

  function TotalLength(ws: seq<string>): nat {
    if ws == [] then 0 else |ws[0]| + TotalLength(ws[1..])
  }

  lemma {:induction false} ConcatLength(ws: seq<string>)
    ensures |Concat(ws)| == TotalLength(ws)
  {
    if ws != [] {
      ConcatLength(ws[1..]);
    }
  }

  /** The average word length is the mean length of the words, and at least
      one character when there are words. */
  lemma AverageIsMeanLength(text: string, input: TargetInput)
    ensures var st := ComputeStats(text, input);
      st.wordCount > 0 ==> st.avgLen == Ratio(TotalLength(Words(text)), st.wordCount) && st.avgLen.num >= st.avgLen.den
  {
    var ws := Words(text);
    var _ := WordsAreRuns(text);
    ConcatLength(ws);
    AtLeastOnePerWord(ws);
  }

  lemma {:induction false} AtLeastOnePerWord(ws: seq<string>)
    requires forall k :: 0 <= k < |ws| ==> ws[k] != []
    ensures TotalLength(ws) >= |ws|
  {
    if ws != [] {
      AtLeastOnePerWord(ws[1..]);
    }
  }

  /** A sentence is a piece between runs of `.`, `!`, `?` that holds a
      non-whitespace character: there are none exactly when the text is
      made of terminators and whitespace only. */
  lemma SentenceCountZero(text: string)
    ensures |Sentences(text)| == 0 <==> forall i :: 0 <= i < |text| ==> IsSentenceEnd(text[i]) || IsSpace(text[i])
  {
    NoTextPieces(text, IsSentenceEnd);
  }

  /** Paragraphs likewise: none exactly when the text is blank, that is
      exactly when there are no words. */
  lemma ParagraphCountZero(text: string)
    ensures |Paragraphs(text)| == 0 <==> AllIn(text, IsSpace)
    ensures |Paragraphs(text)| == 0 <==> |Words(text)| == 0
  {
    ParagraphsBlank(text);
    WordCountZero(text);
  }

  lemma ParagraphsBlank(text: string)
    ensures |Paragraphs(text)| == 0 <==> AllIn(text, IsSpace)
  {
    NoTextPieces(text, IsNewline);
    NewlineOrSpace(text);
  }

  lemma NewlineOrSpace(text: string)
    ensures (forall i :: 0 <= i < |text| ==> IsNewline(text[i]) || IsSpace(text[i])) <==> AllIn(text, IsSpace)
  {
  }

  /** The sentences are the maximal runs of non-terminators that hold text,
      in order. */
  lemma SentencesAreRuns(text: string) returns (runs: seq<string>, starts: seq<nat>)
    ensures RunsAt(text, IsSentenceEnd, runs, starts)
    ensures |runs| == RunCount(text, IsSentenceEnd)
    ensures Sentences(text) == Filter(runs, HasText)
  {
    HasTextNonEmpty();
    runs, starts := KeptPiecesAreRuns(text, IsSentenceEnd, HasText);
  }

  /** The paragraphs are the maximal runs of non-newlines that hold text,
      in order. */
  lemma ParagraphsAreRuns(text: string) returns (runs: seq<string>, starts: seq<nat>)
    ensures RunsAt(text, IsNewline, runs, starts)
    ensures |runs| == RunCount(text, IsNewline)
    ensures Paragraphs(text) == Filter(runs, HasText)
  {
    HasTextNonEmpty();
    runs, starts := KeptPiecesAreRuns(text, IsNewline, HasText);
  }

  /** Every sentence and every paragraph holds text and no separator. */
  lemma PiecesHoldText(text: string)
    ensures forall k :: 0 <= k < |Sentences(text)| ==>
              HasText(Sentences(text)[k]) && NoneIn(Sentences(text)[k], IsSentenceEnd)
    ensures forall k :: 0 <= k < |Paragraphs(text)| ==>
              HasText(Paragraphs(text)[k]) && NoneIn(Paragraphs(text)[k], IsNewline)
  {
    FilterSegmentsNoDelim(text, IsSentenceEnd, HasText);
    FilterSegmentsNoDelim(text, IsNewline, HasText);
  }

  /** Reading time never exceeds speaking time, and both are 0 exactly
      when there are no words. */
  lemma TimeEstimates(n: nat)
    ensures CeilDiv(n, ReadingWordsPerMinute) <= CeilDiv(n, SpeakingWordsPerMinute)
    ensures CeilDiv(n, ReadingWordsPerMinute) == 0 <==> n == 0
    ensures CeilDiv(n, SpeakingWordsPerMinute) == 0 <==> n == 0
  {
  }

  /** The longest-word display: "-" without words; otherwise the first word
      of greatest length (index `k`), shortened to 12 characters and "..."
      when it is longer than 15. */
  lemma LongestIsFirstLongest(words: seq<string>) returns (k: nat)
    ensures words == [] ==> LongestDisplay(words) == "-"
    ensures words != [] ==> k < |words| && LongestDisplay(words) == Shorten(words[k])
    ensures words != [] ==> forall j :: 0 <= j < |words| ==> |words[j]| <= |words[k]|
    ensures words != [] ==> forall j :: 0 <= j < k ==> |words[j]| < |words[k]|
  {
    k := 0;
    if words != [] {
      var m := SortDesc(words, Length)[0];
      SortDescHead(words, Length);
      k := IndexOf(words, m);
      assert forall j :: 0 <= j < |words| ==> Length(words[j]) == |words[j]|;
    }
  }

  /** The target is never 0, so the progress division is defined; the
      progress bar is full exactly when the goal is reached, and never
      negative for a positive target. */
  lemma GoalAndProgress(wordCount: nat, input: TargetInput)
    ensures Target(input) != 0
    ensures var p := Progress(wordCount, Target(input));
      p.num == 100 * p.den <==> GoalReached(wordCount, Target(input))
    ensures Target(input) > 0 ==> Progress(wordCount, Target(input)).num >= 0
  {
    ProgressFull(wordCount, Target(input));
  }

  lemma ProgressFull(wordCount: nat, target: int)
    requires target != 0
    ensures var p := Progress(wordCount, target);
      p.num == 100 * p.den <==> GoalReached(wordCount, target)
    ensures target > 0 ==> Progress(wordCount, target).num >= 0
  {
    if target > 0 {
      if wordCount >= target {
        assert 100 * wordCount >= 100 * target;
      } else {
        assert 100 * wordCount < 100 * target;
      }
    } else {
      assert -100 * wordCount <= 0;
    }
  }

  /** A target field that holds the decimal rendering of `n` gives target
      `n`, except that 0 falls back to 500. */
  lemma DecimalTarget(n: int)
    ensures Target(Field(ShowInt(n))) == if n == 0 then DefaultTarget else n
  {
    ParseShowInt(n);
  }

  /** The target when the field is missing is 500: the fallback string is
      the decimal rendering of 500. */
  lemma MissingTarget()
    ensures Target(Missing) == DefaultTarget
  {
    ShowFiveHundred();
    ParseShowInt(500);
  }

  lemma ShowFiveHundred()
    ensures ShowInt(500) == "500"
  {
    assert DigitChar(5) == '5' && DigitChar(0) == '0';
    assert ShowNat(5) == "5";
    assert ShowNat(50) == "50";
  }

  // ------------------------------------------------- decimal rendering

  function DigitChar(d: nat): (c: char)
    requires d < 10
    ensures IsDigitIn(c, 10) && DigitValue(c) == d
  {
    ('0' as int + d) as char
  }

  /** Decimal rendering of a natural number, as `String(n)`. */
  function ShowNat(n: nat): (s: string)
    ensures s != []
    ensures forall i :: 0 <= i < |s| ==> IsDigitIn(s[i], 10)
    ensures s[0] == '0' ==> n == 0 && |s| == 1
  {
    if n < 10 then [DigitChar(n)] else ShowNat(n / 10) + [DigitChar(n % 10)]
  }

  function ShowInt(n: int): string {
    if n < 0 then "-" + ShowNat(-n) else ShowNat(n)
  }

  lemma {:induction false} ShowNatValue(n: nat)
    ensures DigitsValue(ShowNat(n), 10) == n
  {
    var s := ShowNat(n);
    if n >= 10 {
      ShowNatValue(n / 10);
      assert s[..|s| - 1] == ShowNat(n / 10);
    }
  }

  lemma {:induction false} DigitPrefixAll(u: string, radix: nat)
    requires forall i :: 0 <= i < |u| ==> IsDigitIn(u[i], radix)
    ensures DigitPrefix(u, radix) == |u|
  {
    if u != [] {
      DigitPrefixAll(u[1..], radix);
    }
  }

  lemma ParseMagnitudeShowNat(m: nat)
    ensures ParseMagnitude(ShowNat(m)) == Some(m)
  {
    var u := ShowNat(m);
    DigitPrefixAll(u, 10);
    ShowNatValue(m);
    assert u[..|u|] == u;
  }

  /** `parseInt` of leading whitespace, an optional sign and decimal digits
      followed by anything that does not continue them (`"2.5"`, `"1e3"`,
      `" -12px"`) is the value of those digits, negated after a minus sign.
      A lone `0` followed by `x` or `X` starts a hexadecimal number instead. */
  lemma ParseDecimalPrefix(ws: string, sg: Sign, ds: string, rest: string)
    requires AllIn(ws, IsSpace)
    requires ds != [] && forall i :: 0 <= i < |ds| ==> IsDigitIn(ds[i], 10)
    requires rest == [] || !IsDigitIn(rest[0], 10)
    requires !(ds == "0" && rest != [] && (rest[0] == 'x' || rest[0] == 'X'))
    ensures ParseInt(ws + SignText(sg) + ds + rest) == Some(ApplySign(sg, DigitsValue(ds, 10)))
  {
    ParseIntAssoc(ws + SignText(sg), ds, rest);
    ParseMagnitudeDecimal(ds, rest);
    ParseSpacedValue(ws, sg, ds + rest, DigitsValue(ds, 10));
  }

  /** `parseInt` is NaN when, after leading whitespace and an optional
      sign, no decimal digit follows (`""`, `"abc"`, `"-"`, `".5"`). */
  lemma ParseNoDigits(ws: string, sg: Sign, rest: string)
    requires AllIn(ws, IsSpace)
    requires sg != NoSign || rest == [] || (!IsSpace(rest[0]) && rest[0] != '+' && rest[0] != '-')
    requires rest == [] || !IsDigitIn(rest[0], 10)
    ensures ParseInt(ws + SignText(sg) + rest) == None
  {
    SkipToSign(ws, sg, rest);
    MagnitudeNoDigit(rest);
    ParseIntSigned(ws + SignText(sg) + rest, sg, rest);
  }

  lemma MagnitudeNoDigit(u: string)
    requires u == [] || !IsDigitIn(u[0], 10)
    ensures ParseMagnitude(u) == None
  {
    assert DigitPrefix(u, 10) == 0;
  }

  /** `parseInt` of leading whitespace, an optional sign, `0x` or `0X` and
      hexadecimal digits followed by anything that does not continue them
      (`"0x1A"`, `" -0Xffg"`) is the value of those digits in radix 16,
      negated after a minus sign. */
  lemma ParseHexPrefix(ws: string, sg: Sign, x: char, hs: string, rest: string)
    requires AllIn(ws, IsSpace) && (x == 'x' || x == 'X')
    requires hs != [] && forall i :: 0 <= i < |hs| ==> IsDigitIn(hs[i], 16)
    requires rest == [] || !IsDigitIn(rest[0], 16)
    ensures ParseInt(ws + SignText(sg) + ['0', x] + hs + rest) == Some(ApplySign(sg, DigitsValue(hs, 16)))
  {
    ParseIntAssoc4(ws + SignText(sg), ['0', x], hs, rest);
    ParseMagnitudeHex(x, hs, rest);
    ParseSpacedValue(ws, sg, ['0', x] + hs + rest, DigitsValue(hs, 16));
  }

  /** `parseInt` is NaN when no hexadecimal digit follows `0x` or `0X`
      (`"0x"`, `"-0xg"`). */
  lemma ParseHexNoDigits(ws: string, sg: Sign, x: char, rest: string)
    requires AllIn(ws, IsSpace) && (x == 'x' || x == 'X')
    requires rest == [] || !IsDigitIn(rest[0], 16)
    ensures ParseInt(ws + SignText(sg) + ['0', x] + rest) == None
  {
    var u := ['0', x] + rest;
    ParseIntAssoc(ws + SignText(sg), ['0', x], rest);
    MagnitudeHexNoDigit(x, rest);
    SkipToSign(ws, sg, u);
    ParseIntSigned(ws + SignText(sg) + u, sg, u);
  }

  lemma ParseMagnitudeHex(x: char, hs: string, rest: string)
    requires x == 'x' || x == 'X'
    requires hs != [] && forall i :: 0 <= i < |hs| ==> IsDigitIn(hs[i], 16)
    requires rest == [] || !IsDigitIn(rest[0], 16)
    ensures ParseMagnitude(['0', x] + hs + rest) == Some(DigitsValue(hs, 16))
  {
    MagnitudeHexIs(x, hs, rest);
    ParseDigitsPrefix(hs, rest, 16);
  }

  lemma MagnitudeHexIs(x: char, hs: string, rest: string)
    requires x == 'x' || x == 'X'
    ensures ParseMagnitude(['0', x] + hs + rest) == ParseDigits(hs + rest, 16)
  {
    var u := ['0', x] + hs + rest;
    assert u[0] == '0' && u[1] == x;
    assert u[2..] == hs + rest;
  }

  lemma ParseDigitsPrefix(ds: string, rest: string, radix: nat)
    requires radix == 10 || radix == 16
    requires ds != [] && forall i :: 0 <= i < |ds| ==> IsDigitIn(ds[i], radix)
    requires rest == [] || !IsDigitIn(rest[0], radix)
    ensures ParseDigits(ds + rest, radix) == Some(DigitsValue(ds, radix))
  {
    DigitPrefixAppend(ds, rest, radix);
    assert (ds + rest)[..|ds|] == ds;
  }

  lemma MagnitudeHexNoDigit(x: char, rest: string)
    requires x == 'x' || x == 'X'
    requires rest == [] || !IsDigitIn(rest[0], 16)
    ensures ParseMagnitude(['0', x] + rest) == None
  {
    var u := ['0', x] + rest;
    assert u[0] == '0' && u[1] == x;
    assert u[2..] == rest;
    assert DigitPrefix(rest, 16) == 0;
  }

  lemma ParseIntAssoc4(a: string, b: string, c: string, d: string)
    ensures ParseInt(a + b + c + d) == ParseInt(a + (b + c + d))
  {
    SeqAssoc(a + b, c, d);
    SeqAssoc(a, b, c + d);
    SeqAssoc(b, c, d);
  }

  lemma ParseIntAssoc(a: string, b: string, c: string)
    ensures ParseInt(a + b + c) == ParseInt(a + (b + c))
  {
    SeqAssoc(a, b, c);
  }

  /** `parseInt` of whitespace, a sign and a magnitude that reads as `v`. */
  lemma ParseSpacedValue(ws: string, sg: Sign, u: string, v: nat)
    requires AllIn(ws, IsSpace)
    requires ParseMagnitude(u) == Some(v)
    ensures ParseInt(ws + SignText(sg) + u) == Some(ApplySign(sg, v))
  {
    MagnitudeStartsWithDigit(u);
    SkipToSign(ws, sg, u);
    ParseIntSigned(ws + SignText(sg) + u, sg, u);
  }

  /** A magnitude that is a number starts with a decimal digit. */
  lemma MagnitudeStartsWithDigit(u: string)
    requires ParseMagnitude(u).Some?
    ensures u != [] && '0' <= u[0] <= '9'
  {
  }

  lemma SkipToSign(ws: string, sg: Sign, u: string)
    requires AllIn(ws, IsSpace)
    requires sg != NoSign || u == [] || !IsSpace(u[0])
    ensures TrimStart(ws + SignText(sg) + u) == SignText(sg) + u
  {
    var t := SignText(sg) + u;
    SeqAssoc(ws, SignText(sg), u);
    assert t != [] ==> t[0] == if sg == NoSign then u[0] else SignText(sg)[0];
    TrimStartSkip(ws, t);
  }

  /** `parseInt` once the leading whitespace is gone: an optional sign, then
      the magnitude. */
  lemma ParseIntSigned(s: string, sg: Sign, u: string)
    requires TrimStart(s) == SignText(sg) + u
    requires sg != NoSign || u == [] || (u[0] != '+' && u[0] != '-')
    ensures ParseInt(s) == Signed(sg, ParseMagnitude(u))
  {
    match sg
    case NoSign =>
      assert SignText(sg) + u == u;
      ParseIntBare(s, u);
    case Plus =>
      ParseIntSign(s, '+', u);
    case Minus =>
      ParseIntSign(s, '-', u);
  }

  lemma ParseIntSign(s: string, c: char, u: string)
    requires TrimStart(s) == [c] + u && (c == '+' || c == '-')
    ensures ParseInt(s) == Signed(if c == '-' then Minus else Plus, ParseMagnitude(u))
  {
    var t := TrimStart(s);
    assert t[0] == c && t[1..] == u;
  }

  lemma ParseIntBare(s: string, u: string)
    requires TrimStart(s) == u
    requires u == [] || (u[0] != '+' && u[0] != '-')
    ensures ParseInt(s) == Signed(NoSign, ParseMagnitude(u))
  {
  }

  lemma ParseMagnitudeDecimal(ds: string, rest: string)
    requires ds != [] && forall i :: 0 <= i < |ds| ==> IsDigitIn(ds[i], 10)
    requires rest == [] || !IsDigitIn(rest[0], 10)
    requires !(ds == "0" && rest != [] && (rest[0] == 'x' || rest[0] == 'X'))
    ensures ParseMagnitude(ds + rest) == Some(DigitsValue(ds, 10))
  {
    var u := ds + rest;
    if |u| >= 2 && u[0] == '0' {
      if |ds| >= 2 {
        assert u[1] == ds[1];
      } else {
        assert ds == "0";
        assert u[1] == rest[0];
      }
    }
    DigitPrefixAppend(ds, rest, 10);
    assert u[..|ds|] == ds;
  }

  lemma {:induction false} DigitPrefixAppend(ds: string, rest: string, radix: nat)
    requires forall i :: 0 <= i < |ds| ==> IsDigitIn(ds[i], radix)
    requires rest == [] || !IsDigitIn(rest[0], radix)
    ensures DigitPrefix(ds + rest, radix) == |ds|
  {
    if ds == [] {
      assert ds + rest == rest;
    } else {
      assert (ds + rest)[1..] == ds[1..] + rest;
      DigitPrefixAppend(ds[1..], rest, radix);
    }
  }

  /** A fractional target keeps its integer part. */
  lemma TargetFraction()
    ensures Target(Field("2.5")) == 2
  {
    assert DigitsValue("2", 10) == 2 by { assert "2"[..0] == []; }
    ParseDecimalPrefix("", NoSign, "2", ".5");
    SpellFraction();
  }

  lemma SpellFraction()
    ensures "" + SignText(NoSign) + "2" + ".5" == "2.5"
  {
  }

  /** Leading whitespace, a sign and trailing text are accepted. */
  lemma TargetSigned()
    ensures Target(Field(" -4x")) == -4
  {
    assert AllIn(" ", IsSpace) by { assert " "[1..] == []; }
    assert DigitsValue("4", 10) == 4 by { assert "4"[..0] == []; }
    ParseDecimalPrefix(" ", Minus, "4", "x");
    SpellSigned();
  }

  lemma SpellSigned()
    ensures " " + SignText(Minus) + "4" + "x" == " -4x"
  {
  }

  /** A field without digits falls back to the default. */
  lemma TargetNoDigits()
    ensures Target(Field("abc")) == DefaultTarget
  {
    ParseNoDigits("", NoSign, "abc");
    assert "" + SignText(NoSign) + "abc" == "abc";
  }

  /** So does a zero target. */
  lemma TargetZero()
    ensures Target(Field("0")) == DefaultTarget
  {
    ParseDecimalPrefix("", NoSign, "0", "");
    assert "" + SignText(NoSign) + "0" + "" == "0";
  }

  /** A `0x` prefix reads the digits in radix 16. */
  lemma TargetHex()
    ensures Target(Field("0x10")) == 16
  {
    assert DigitsValue("10", 16) == 16 by {
      assert "10"[..1] == "1";
      assert DigitsValue("1", 16) == 1 by { assert "1"[..0] == []; }
    }
    ParseHexPrefix("", NoSign, 'x', "10", "");
    SpellHex();
  }

  lemma SpellHex()
    ensures "" + SignText(NoSign) + ['0', 'x'] + "10" + "" == "0x10"
  {
  }

  /** `0x` without hexadecimal digits is NaN, so the target falls back. */
  lemma TargetHexEmpty()
    ensures Target(Field("0x")) == DefaultTarget
  {
    ParseHexNoDigits("", NoSign, 'x', "");
    SpellHexEmpty();
  }

  lemma SpellHexEmpty()
    ensures "" + SignText(NoSign) + ['0', 'x'] + "" == "0x"
  {
  }

  /** `parseInt` reads back the decimal rendering of every integer. */
  lemma ParseShowInt(n: int)
    ensures ParseInt(ShowInt(n)) == Some(n)
  {
    if n < 0 {
      ParseShowNegative(n);
    } else {
      ParseShowNat(n);
    }
  }

  lemma ParseShowNegative(n: int)
    requires n < 0
    ensures ParseInt(ShowInt(n)) == Some(n)
  {
    var u := ShowNat(-n);
    var s := "-" + u;
    assert s == ShowInt(n);
    TrimStartNoSpace(s);
    assert s[1..] == u;
    ParseMagnitudeShowNat(-n);
  }

  lemma ParseShowNat(n: nat)
    ensures ParseInt(ShowInt(n)) == Some(n)
  {
    var u := ShowNat(n);
    assert IsDigitIn(u[0], 10);
    TrimStartNoSpace(u);
    ParseMagnitudeShowNat(n);
  }
}
