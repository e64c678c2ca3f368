/** The counting and ranking part of `updateKeywords` (script.js): tokens are
    counted in a dictionary whose keys keep first-insertion order, stably
    sorted by descending count, and the first five are kept. */
module Keywords {
  import opened Text
  import opened Sorting

  /** One rendered chip: a token and its count. */
  datatype Keyword = Keyword(token: string, count: nat)

  /** Tokens of this length or less are discarded (`w.length > 3`). */
  const MaxShortLength: nat := 3
  /** `slice(0, 5)`. */
  const TopCount: nat := 5

  /** The class `[\s.!?(),;:"']`. */
  predicate IsKeywordDelim(c: char) {
    || IsSpace(c) || c == '.' || c == '!' || c == '?' || c == '(' || c == ')'
    || c == ',' || c == ';' || c == ':' || c == '"' || c == '\''
  }

  predicate IsLong(w: string) { |w| > MaxShortLength }

  predicate NotUpper(c: char) { !IsUpper(c) }

  /** `text.toLowerCase().trim().split(/[\s.!?(),;:"']+/).filter(w => w.length > 3)`. */
  function Tokens(text: string): seq<string> {
    Filter(Segments(Trim(Lower(text)), IsKeywordDelim), IsLong)
  }

  /** The distinct tokens in order of first occurrence: the order of
      `Object.keys(frequency)` for keys that are not array indices. */
  function FirstSeen(ws: seq<string>): (r: seq<string>)
    ensures Distinct(r)
    ensures forall w :: w in r <==> w in ws
  {
    if ws == [] then []
    else
      var p := FirstSeen(ws[..|ws| - 1]);
      var w := ws[|ws| - 1];
      assert forall v :: v in ws <==> v in ws[..|ws| - 1] || v == w;
      if w in ws[..|ws| - 1] then p else p + [w]
  }

  /** The number of occurrences of every token. */
  function Counts(ws: seq<string>): (m: map<string, nat>)
    ensures m.Keys == set w | w in ws
  {
    map w | w in ws :: multiset(ws)[w]
  }

  /** The sort key `frequency[w]`. */
  function CountKey(frequency: map<string, nat>): string -> int {
    w => if w in frequency then frequency[w] else 0
  }

  function Min(a: nat, b: nat): nat { if a < b then a else b }

  /** `sortedKeywords.slice(0, 5)`, each with `frequency[word]`. */
  function Top(sorted: seq<string>, frequency: map<string, nat>): (r: seq<Keyword>)
    ensures |r| == Min(TopCount, |sorted|)
    ensures forall i :: 0 <= i < |r| ==> r[i] == Keyword(sorted[i], CountKey(frequency)(sorted[i]))
  {
    var n := Min(TopCount, |sorted|);
    seq(n, i requires 0 <= i < n => Keyword(sorted[i], CountKey(frequency)(sorted[i])))
  }

  /** The specification of the ranking: the distinct tokens, stably sorted by
      descending count, the first five, each with its count. */
  function Rank(ws: seq<string>): seq<Keyword> {
    var frequency := Counts(ws);
    Top(SortDesc(FirstSeen(ws), CountKey(frequency)), frequency)
  }

  /** The `forEach` loop: `frequency[word] = (frequency[word] || 0) + 1`,
      with the keys recorded in the order they are first inserted. */
  method CountFrequencies(words: seq<string>) returns (frequency: map<string, nat>, keys: seq<string>)
    ensures frequency == Counts(words)
    ensures keys == FirstSeen(words)
  {
    frequency := map[];
    keys := [];
    for i := 0 to |words|
      invariant frequency == Counts(words[..i])
      invariant keys == FirstSeen(words[..i])
    {
      var word := words[i];
      assert words[..i + 1] == words[..i] + [word];
      CountsSnoc(words[..i], word);
      assert words[..i + 1][..i] == words[..i];
      var previous := if word in frequency then frequency[word] else 0;
      if word !in frequency {
        keys := keys + [word];
      }
      frequency := frequency[word := previous + 1];
    }
    assert words[..|words|] == words;
  }

  /** `updateKeywords` up to rendering: the top keywords of the text. */
  method TopKeywords(text: string) returns (top: seq<Keyword>)
    ensures top == Rank(Tokens(text))
  {
    var words := Tokens(text);
    var frequency, keys := CountFrequencies(words);
    var sorted := SortDesc(keys, CountKey(frequency));
    top := Top(sorted, frequency);
  }

  // ---------------------------------------------------------------- lemmas

  /** Counting one more token. */
  lemma CountsSnoc(ws: seq<string>, w: string)
    ensures Counts(ws + [w]) == Counts(ws)[w := (if w in Counts(ws) then Counts(ws)[w] else 0) + 1]
  {
    assert multiset(ws + [w]) == multiset(ws) + multiset{w};
    assert forall v :: v in ws + [w] <==> v in ws || v == w;
  }

  /** Every token is longer than three characters, holds no delimiter and
      no upper-case letter. */
  lemma TokensShape(text: string)
    ensures forall k :: 0 <= k < |Tokens(text)| ==> |Tokens(text)[k]| > MaxShortLength
    ensures forall k :: 0 <= k < |Tokens(text)| ==> AllIn(Tokens(text)[k], NotUpper)
    ensures forall k :: 0 <= k < |Tokens(text)| ==> NoneIn(Tokens(text)[k], IsKeywordDelim)
  {
    var low := Lower(text);
    var t := Trim(low);
    var segs := Segments(t, IsKeywordDelim);
    var lo, hi := TrimSplit(low);
    assert forall i :: 0 <= i < |t| ==> t[i] == low[lo + i];
    DropAllInIff(t, IsKeywordDelim, NotUpper);
    SegmentsConcat(t, IsKeywordDelim);
    ConcatAllIn(segs, NotUpper);
    FilterSegmentsNoDelim(t, IsKeywordDelim, IsLong);
    var toks := Tokens(text);
    forall k | 0 <= k < |toks| ensures toks[k] in segs { }
  }

  /** The tokens are the maximal runs of non-delimiters of the lower-cased,
      trimmed text that are longer than three characters, in order. */
  lemma TokensAreRuns(text: string) returns (runs: seq<string>, starts: seq<nat>)
    ensures RunsAt(Trim(Lower(text)), IsKeywordDelim, runs, starts)
    ensures |runs| == RunCount(Trim(Lower(text)), IsKeywordDelim)
    ensures Tokens(text) == Filter(runs, IsLong)
  {
    runs, starts := KeptPiecesAreRuns(Trim(Lower(text)), IsKeywordDelim, IsLong);
  }

  /** First-seen order agrees with the order of first occurrences. */
  lemma {:induction false} FirstSeenOrder(ws: seq<string>, a: string, b: string)
    requires a in ws && b in ws
    ensures IndexOf(FirstSeen(ws), a) < IndexOf(FirstSeen(ws), b) <==> IndexOf(ws, a) < IndexOf(ws, b)
  {
    var p, x := ws[..|ws| - 1], ws[|ws| - 1];
    var fs := FirstSeen(p);
    assert forall v :: v in ws <==> v in p || v == x;
    if x in p {
      assert FirstSeen(ws) == fs;
      IndexOfInit(ws, a);
      IndexOfInit(ws, b);
      FirstSeenOrder(p, a, b);
    } else {
      assert FirstSeen(ws) == fs + [x];
      assert (fs + [x])[..|fs|] == fs;
      assert IndexOf(ws, x) == |p| by {
        assert forall j :: 0 <= j < |p| ==> ws[j] == p[j];
      }
      assert IndexOf(fs + [x], x) == |fs| by {
        assert forall j :: 0 <= j < |fs| ==> (fs + [x])[j] == fs[j];
      }
      if a != x {
        IndexOfInit(ws, a);
        IndexOfInit(fs + [x], a);
      }
      if b != x {
        IndexOfInit(ws, b);
        IndexOfInit(fs + [x], b);
      }
      if a != x && b != x {
        FirstSeenOrder(p, a, b);
      }
    }
  }

  /** Each ranked keyword is a distinct token of the input, paired with its
      number of occurrences; there are five, or fewer when there are fewer
      distinct tokens, and none exactly when there are no tokens. */
  lemma RankCounts(ws: seq<string>)
    ensures |Rank(ws)| == Min(TopCount, |FirstSeen(ws)|)
    ensures Rank(ws) == [] <==> ws == []
    ensures forall i :: 0 <= i < |Rank(ws)| ==>
              Rank(ws)[i].token in ws && Rank(ws)[i].count == multiset(ws)[Rank(ws)[i].token] > 0
    ensures forall i, j :: 0 <= i < j < |Rank(ws)| ==> Rank(ws)[i].token != Rank(ws)[j].token
  {
    var fs, freq := FirstSeen(ws), Counts(ws);
    var sorted := SortDesc(fs, CountKey(freq));
    var r := Rank(ws);
    assert |sorted| == |multiset(sorted)| == |multiset(fs)| == |fs|;
    if ws != [] {
      assert ws[0] in fs;
    }
    SortDescDistinct(fs, CountKey(freq));
    forall i | 0 <= i < |r| ensures r[i].token in ws && r[i].count == multiset(ws)[r[i].token] > 0 {
      SortDescIn(fs, CountKey(freq), i);
    }
  }

  /** Keywords come by non-increasing count, and equal counts in the order
      in which the tokens first occur. */
  lemma RankOrder(ws: seq<string>)
    ensures forall i, j :: 0 <= i < j < |Rank(ws)| ==> Rank(ws)[i].count >= Rank(ws)[j].count
    ensures forall i, j :: 0 <= i < j < |Rank(ws)| && Rank(ws)[i].count == Rank(ws)[j].count ==>
              Rank(ws)[i].token in ws && Rank(ws)[j].token in ws &&
              IndexOf(ws, Rank(ws)[i].token) < IndexOf(ws, Rank(ws)[j].token)
  {
    var fs, freq := FirstSeen(ws), Counts(ws);
    var key := CountKey(freq);
    var sorted := SortDesc(fs, key);
    var r := Rank(ws);
    forall i, j | 0 <= i < j < |r| && r[i].count == r[j].count
      ensures r[i].token in ws && r[j].token in ws && IndexOf(ws, r[i].token) < IndexOf(ws, r[j].token)
    {
      SortDescStable(fs, key, i, j);
      FirstSeenOrder(ws, sorted[i], sorted[j]);
    }
  }

  /** No token left out of the ranking has a count above the last keyword's,
      and one with an equal count first occurs after it. */
  lemma RankCutoff(ws: seq<string>, w: string)
    requires w in ws
    requires forall i :: 0 <= i < |Rank(ws)| ==> Rank(ws)[i].token != w
    ensures |Rank(ws)| == TopCount
    ensures multiset(ws)[w] <= Rank(ws)[TopCount - 1].count
    ensures multiset(ws)[w] == Rank(ws)[TopCount - 1].count ==>
              Rank(ws)[TopCount - 1].token in ws && IndexOf(ws, Rank(ws)[TopCount - 1].token) < IndexOf(ws, w)
  {
    var fs, freq := FirstSeen(ws), Counts(ws);
    var key := CountKey(freq);
    var sorted := SortDesc(fs, key);
    var r := Rank(ws);
    assert w in multiset(sorted);
    var j := IndexOf(sorted, w);
    assert j >= |r|;
    RankCounts(ws);
    var last := TopCount - 1;
    SortDescIn(fs, key, last);
    if key(sorted[last]) == key(w) {
      SortDescStable(fs, key, last, j);
      FirstSeenOrder(ws, sorted[last], w);
    }
  }

  /** Every keyword returned is lower-case, longer than three characters
      and free of the delimiter characters. */
  lemma KeywordsShape(text: string)
    ensures forall i :: 0 <= i < |Rank(Tokens(text))| ==>
              var w := Rank(Tokens(text))[i].token;
              |w| > MaxShortLength && AllIn(w, NotUpper) && NoneIn(w, IsKeywordDelim)
  {
    var toks := Tokens(text);
    RankCounts(toks);
    TokensShape(text);
    forall i | 0 <= i < |Rank(toks)|
      ensures var w := Rank(toks)[i].token;
        |w| > MaxShortLength && AllIn(w, NotUpper) && NoneIn(w, IsKeywordDelim)
    {
      var k := IndexOf(toks, Rank(toks)[i].token);
    }
  }
}
