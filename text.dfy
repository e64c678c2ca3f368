/** The string primitives the analysis engine is built from: JavaScript's
    whitespace class, ASCII casing, `trim`, `split` on runs of a character
    class, `replace` of a character class by nothing, and `filter`. */
module Text {

  /** JavaScript's `\s`, which is also the set `String.prototype.trim`
      removes: the ECMAScript WhiteSpace and LineTerminator code points. */
  predicate IsSpace(c: char) {
    || (c <= ' ' && (c == ' ' || '\t' <= c <= '\r'))
    || ('\U{00A0}' <= c && IsWideSpace(c))
  }

  /** The whitespace code points from U+00A0 on: no-break space, Ogham space
      mark, the spaces U+2000 to U+200A, line and paragraph separator,
      narrow no-break space, medium mathematical space, ideographic space
      and the byte order mark. */
  predicate IsWideSpace(c: char) {
    || c == '\U{00A0}' || c == '\U{1680}' || '\U{2000}' <= c <= '\U{200A}'
    || '\U{2028}' <= c <= '\U{2029}' || c == '\U{202F}' || c == '\U{205F}'
    || c == '\U{3000}' || c == '\U{FEFF}'
  }

  /** `\w` of a regular expression without the `u` flag: `[A-Za-z0-9_]`. */
  predicate IsWordChar(c: char) {
    'a' <= c <= 'z' || 'A' <= c <= 'Z' || '0' <= c <= '9' || c == '_'
  }

  predicate IsUpper(c: char) { 'A' <= c <= 'Z' }

  predicate IsLower(c: char) { 'a' <= c <= 'z' }

  /** ASCII `toUpperCase` of one character. */
  function UpperChar(c: char): (r: char)
    ensures !IsLower(r)
    ensures IsLower(c) <==> r != c
    ensures IsLower(c) ==> IsUpper(r) && r as int + 32 == c as int
  {
    if IsLower(c) then (c as int - 32) as char else c
  }

  /** ASCII `toLowerCase` of one character. */
  function LowerChar(c: char): (r: char)
    ensures !IsUpper(r)
    ensures IsUpper(c) <==> r != c
    ensures IsUpper(c) ==> IsLower(r) && r as int == c as int + 32
  {
    if IsUpper(c) then (c as int + 32) as char else c
  }

  /** ASCII `toLowerCase` of a string. */
  function Lower(s: string): (r: string)
    ensures |r| == |s|
    ensures forall i :: 0 <= i < |s| ==> r[i] == LowerChar(s[i])
    ensures forall i :: 0 <= i < |r| ==> !IsUpper(r[i])
  {
    if s == [] then [] else [LowerChar(s[0])] + Lower(s[1..])
  }

  /** Removes leading whitespace. */
  function TrimStart(s: string): (r: string)
    ensures |r| <= |s| && r == s[|s| - |r|..]
    ensures forall i :: 0 <= i < |s| - |r| ==> IsSpace(s[i])
    ensures r == [] || !IsSpace(r[0])
  {
    if s != [] && IsSpace(s[0]) then TrimStart(s[1..]) else s
  }

  lemma TrimStartNoSpace(s: string)
    requires s == [] || !IsSpace(s[0])
    ensures TrimStart(s) == s
  {
  }

  /** Leading whitespace is skipped up to the first other character. */
  lemma {:induction false} TrimStartSkip(ws: string, t: string)
    requires AllIn(ws, IsSpace) && (t == [] || !IsSpace(t[0]))
    ensures TrimStart(ws + t) == t
  {
    if ws == [] {
      assert ws + t == t;
      TrimStartNoSpace(t);
    } else {
      assert (ws + t)[1..] == ws[1..] + t;
      assert forall i :: 0 <= i < |ws| - 1 ==> ws[1..][i] == ws[i + 1];
      TrimStartSkip(ws[1..], t);
    }
  }

  /** Removes trailing whitespace. */
  function TrimEnd(s: string): (r: string)
    ensures |r| <= |s| && r == s[..|r|]
    ensures forall i :: |r| <= i < |s| ==> IsSpace(s[i])
    ensures r == [] || !IsSpace(r[|r| - 1])
  {
    if s != [] && IsSpace(s[|s| - 1]) then TrimEnd(s[..|s| - 1]) else s
  }

  /** `String.prototype.trim`. */
  function Trim(s: string): string {
    TrimEnd(TrimStart(s))
  }

  /** `s.replace(/[d]/g, '')`: every character of the class removed. */
  function Drop(s: string, d: char -> bool): (r: string)
    ensures |r| <= |s|
    ensures forall i :: 0 <= i < |r| ==> !d(r[i])
  {
    if s == [] then [] else (if d(s[0]) then [] else [s[0]]) + Drop(s[1..], d)
  }

  /** Number of characters of `s` in the class. */
  function CountOf(s: string, d: char -> bool): nat {
    if s == [] then 0 else (if d(s[0]) then 1 else 0) + CountOf(s[1..], d)
  }

  /** `Array.prototype.filter`. */
  function Filter<T>(xs: seq<T>, keep: T -> bool): (r: seq<T>)
    ensures |r| <= |xs|
    ensures forall i :: 0 <= i < |r| ==> keep(r[i]) && r[i] in xs
  {
    if xs == [] then [] else (if keep(xs[0]) then [xs[0]] else []) + Filter(xs[1..], keep)
  }

  /** `s.split(/[d]+/)`: the pieces between maximal runs of characters of the
      class, in order; a leading or trailing run gives an empty piece, and the
      empty string gives one empty piece. */
  function Segments(s: string, d: char -> bool): (r: seq<string>)
    ensures |r| >= 1
    ensures s != [] && !d(s[0]) ==> r[0] != [] && r[0][0] == s[0]
    ensures s == [] || d(s[0]) ==> r[0] == []
  {
    if s == [] then [[]]
    else if d(s[0]) then
      if |s| > 1 && d(s[1]) then Segments(s[1..], d) else [[]] + Segments(s[1..], d)
    else
      var rest := Segments(s[1..], d);
      [[s[0]] + rest[0]] + rest[1..]
  }

  /** Flattens a sequence of strings. */
  function Concat(ss: seq<string>): string {
    if ss == [] then [] else ss[0] + Concat(ss[1..])
  }

  /** Number of maximal runs of characters outside the class, each counted at
      its last character. */
  function RunCount(s: string, d: char -> bool): nat {
    if s == [] then 0
    else (if !d(s[0]) && (|s| == 1 || d(s[1])) then 1 else 0) + RunCount(s[1..], d)
  }

  predicate NonEmpty(s: string) { s != [] }

  /** `s.trim().length > 0`. */
  predicate HasText(s: string) { |Trim(s)| > 0 }

  ghost predicate AllIn(s: string, d: char -> bool) {
    forall i :: 0 <= i < |s| ==> d(s[i])
  }

  ghost predicate NoneIn(s: string, d: char -> bool) {
    forall i :: 0 <= i < |s| ==> !d(s[i])
  }

  /** `s[a..b]` is a maximal run of characters outside the class: non-empty,
      free of the class, and bounded by the ends of `s` or by class
      characters. */
  ghost predicate IsRun(s: string, d: char -> bool, a: int, b: int) {
    && 0 <= a < b <= |s|
    && NoneIn(s[a..b], d)
    && (a == 0 || d(s[a - 1]))
    && (b == |s| || d(s[b]))
  }

  /** `w` is the maximal run of `s` that starts at `a`. */
  ghost predicate RunAt(s: string, d: char -> bool, w: string, a: int) {
    IsRun(s, d, a, a + |w|) && w == s[a..a + |w|]
  }

  /** The strings `rs` are maximal runs of `s`, the k-th starting at
      `starts[k]`, in increasing order of position. */
  ghost predicate RunsAt(s: string, d: char -> bool, rs: seq<string>, starts: seq<nat>) {
    && |starts| == |rs|
    && (forall k :: 0 <= k < |rs| ==> RunAt(s, d, rs[k], starts[k]))
    && (forall k :: 0 <= k < |rs| - 1 ==> starts[k] + |rs[k]| < starts[k + 1])
  }

  /** Every position moved right by `n`. */
  function Shift(xs: seq<nat>, n: nat): (r: seq<nat>)
    ensures |r| == |xs|
    ensures forall i :: 0 <= i < |xs| ==> r[i] == xs[i] + n
  {
    seq(|xs|, i requires 0 <= i < |xs| => xs[i] + n)
  }

  // ---------------------------------------------------------------- lemmas

  /** Removing a class keeps exactly the characters outside it. */
  lemma {:induction false} DropCount(s: string, d: char -> bool)
    ensures |Drop(s, d)| + CountOf(s, d) == |s|
  {
    if s != [] {
      DropCount(s[1..], d);
    }
  }

  lemma {:induction false} DropAppend(a: string, b: string, d: char -> bool)
    ensures Drop(a + b, d) == Drop(a, d) + Drop(b, d)
  {
    if a == [] {
      assert a + b == b;
    } else {
      assert (a + b)[1..] == a[1..] + b;
      DropAppend(a[1..], b, d);
    }
  }

  lemma {:induction false} DropAllIn(s: string, d: char -> bool)
    requires AllIn(s, d)
    ensures Drop(s, d) == []
  {
    if s != [] {
      DropAllIn(s[1..], d);
    }
  }

  lemma {:induction false} ConcatPrepend(x: string, ss: seq<string>)
    ensures Concat([x] + ss) == x + Concat(ss)
  {
    assert ([x] + ss)[1..] == ss;
  }

  lemma {:induction false} FilterPrepend<T>(x: T, xs: seq<T>, keep: T -> bool)
    ensures Filter([x] + xs, keep) == (if keep(x) then [x] else []) + Filter(xs, keep)
  {
    assert ([x] + xs)[1..] == xs;
  }

  /** No piece holds a character of the class. */
  lemma {:induction false} SegmentsNoDelim(s: string, d: char -> bool)
    ensures forall k :: 0 <= k < |Segments(s, d)| ==> NoneIn(Segments(s, d)[k], d)
  {
    if s != [] {
      SegmentsNoDelim(s[1..], d);
      var r, rest := Segments(s, d), Segments(s[1..], d);
      if !d(s[0]) {
        forall k | 0 <= k < |r| ensures NoneIn(r[k], d) {
          if k == 0 {
            forall i | 0 < i < |r[0]| ensures !d(r[0][i]) {
              assert r[0][i] == rest[0][i - 1];
            }
          } else {
            assert r[k] == rest[k];
          }
        }
      }
    }
  }

  /** The same for the pieces a filter keeps. */
  lemma FilterSegmentsNoDelim(s: string, d: char -> bool, keep: string -> bool)
    ensures forall k :: 0 <= k < |Filter(Segments(s, d), keep)| ==> NoneIn(Filter(Segments(s, d), keep)[k], d)
  {
    var segs := Segments(s, d);
    var r := Filter(segs, keep);
    SegmentsNoDelim(s, d);
    forall k | 0 <= k < |r| ensures NoneIn(r[k], d) {
      assert r[k] in segs;
    }
  }

  /** The pieces of a split hold every character outside the class, in order. */
  lemma {:induction false} SegmentsConcat(s: string, d: char -> bool)
    ensures Concat(Segments(s, d)) == Drop(s, d)
  {
    if s != [] {
      SegmentsConcat(s[1..], d);
      if d(s[0]) {
        SegmentsConcatDelim(s, d);
      } else {
        SegmentsConcatKeep(s, d);
      }
    }
  }

  lemma SegmentsConcatDelim(s: string, d: char -> bool)
    requires s != [] && d(s[0])
    requires Concat(Segments(s[1..], d)) == Drop(s[1..], d)
    ensures Concat(Segments(s, d)) == Drop(s, d)
  {
    if !(|s| > 1 && d(s[1])) {
      ConcatPrepend([], Segments(s[1..], d));
    }
  }

  lemma SegmentsConcatKeep(s: string, d: char -> bool)
    requires s != [] && !d(s[0])
    requires Concat(Segments(s[1..], d)) == Drop(s[1..], d)
    ensures Concat(Segments(s, d)) == Drop(s, d)
  {
    var rest := Segments(s[1..], d);
    SegmentsKeepStep(s, d);
    ConcatPrepend([s[0]] + rest[0], rest[1..]);
    ConcatStep(rest);
    DropKeepStep(s, d);
    SeqAssoc([s[0]], rest[0], Concat(rest[1..]));
  }

  lemma SegmentsKeepStep(s: string, d: char -> bool)
    requires s != [] && !d(s[0])
    ensures Segments(s, d) == [[s[0]] + Segments(s[1..], d)[0]] + Segments(s[1..], d)[1..]
  {
  }

  lemma DropKeepStep(s: string, d: char -> bool)
    requires s != [] && !d(s[0])
    ensures Drop(s, d) == [s[0]] + Drop(s[1..], d)
  {
  }

  lemma ConcatStep(ss: seq<string>)
    requires ss != []
    ensures Concat(ss) == ss[0] + Concat(ss[1..])
  {
  }

  lemma SeqAssoc<T>(a: seq<T>, b: seq<T>, c: seq<T>)
    ensures (a + b) + c == a + (b + c)
  {
  }

  lemma {:induction false} FilterNonEmptyConcat(ss: seq<string>)
    ensures Concat(Filter(ss, NonEmpty)) == Concat(ss)
  {
    if ss != [] {
      FilterNonEmptyConcat(ss[1..]);
      assert ss == [ss[0]] + ss[1..];
      FilterPrepend(ss[0], ss[1..], NonEmpty);
      if ss[0] != [] {
        ConcatPrepend(ss[0], Filter(ss[1..], NonEmpty));
      } else {
        assert Filter(ss, NonEmpty) == Filter(ss[1..], NonEmpty);
        assert Concat(ss) == [] + Concat(ss[1..]);
      }
    }
  }

  /** The non-empty pieces of a split are exactly the maximal runs outside
      the class. */
  lemma {:induction false} SegmentsRunCount(s: string, d: char -> bool)
    ensures |Filter(Segments(s, d), NonEmpty)| == RunCount(s, d)
  {
    if s == [] {
    } else if d(s[0]) {
      SegmentsRunCount(s[1..], d);
      if !(|s| > 1 && d(s[1])) {
        FilterPrepend([], Segments(s[1..], d), NonEmpty);
      }
    } else {
      var rest := Segments(s[1..], d);
      SegmentsRunCount(s[1..], d);
      FilterPrepend([s[0]] + rest[0], rest[1..], NonEmpty);
      assert [rest[0]] + rest[1..] == rest;
      FilterPrepend(rest[0], rest[1..], NonEmpty);
    }
  }

  /** The non-empty pieces of a split are the maximal runs outside the
      class, each at its place in the string, from left to right; there are
      `RunCount(s, d)` of them. */
  lemma SplitRuns(s: string, d: char -> bool) returns (starts: seq<nat>)
    ensures RunsAt(s, d, Filter(Segments(s, d), NonEmpty), starts)
    ensures |starts| == RunCount(s, d)
  {
    starts := SplitRunsFrom(s, d);
    SegmentsRunCount(s, d);
  }

  lemma {:induction false} SplitRunsFrom(s: string, d: char -> bool) returns (starts: seq<nat>)
    ensures RunsAt(s, d, Filter(Segments(s, d), NonEmpty), starts)
    ensures s != [] && !d(s[0]) ==> |starts| > 0 && starts[0] == 0
  {
    if s == [] {
      starts := [];
    } else {
      var sr := SplitRunsFrom(s[1..], d);
      if d(s[0]) {
        starts := SplitRunsDelim(s, d, sr);
      } else {
        starts := SplitRunsKeep(s, d, sr);
      }
    }
  }

  lemma SplitRunsDelim(s: string, d: char -> bool, sr: seq<nat>) returns (starts: seq<nat>)
    requires s != [] && d(s[0])
    requires RunsAt(s[1..], d, Filter(Segments(s[1..], d), NonEmpty), sr)
    ensures RunsAt(s, d, Filter(Segments(s, d), NonEmpty), starts)
  {
    FilterSegmentsDelimStep(s, d);
    starts := Shift(sr, 1);
    RunsAtShift(s, d, Filter(Segments(s[1..], d), NonEmpty), sr);
  }

  lemma SplitRunsKeep(s: string, d: char -> bool, sr: seq<nat>) returns (starts: seq<nat>)
    requires s != [] && !d(s[0])
    requires RunsAt(s[1..], d, Filter(Segments(s[1..], d), NonEmpty), sr)
    requires |s| > 1 && !d(s[1]) ==> |sr| > 0 && sr[0] == 0
    ensures RunsAt(s, d, Filter(Segments(s, d), NonEmpty), starts)
    ensures |starts| > 0 && starts[0] == 0
  {
    var rest := Segments(s[1..], d);
    var rs, tail := Filter(rest, NonEmpty), Filter(rest[1..], NonEmpty);
    FilterSegmentsKeepStep(s, d);
    if rest[0] == [] {
      assert rs == tail;
      assert [s[0]] + rest[0] == [s[0]];
      assert Filter(Segments(s, d), NonEmpty) == [[s[0]]] + rs;
      starts := [0] + Shift(sr, 1);
      RunsAtCons(s, d, rs, sr);
    } else {
      assert rs == [rest[0]] + tail;
      assert rs[0] == rest[0] && rs[1..] == tail;
      assert Filter(Segments(s, d), NonEmpty) == [[s[0]] + rs[0]] + rs[1..];
      starts := [0] + Shift(sr[1..], 1);
      RunsAtGrow(s, d, rs, sr);
    }
  }

  /** The pieces a filter keeps, when it keeps only non-empty strings, are
      the maximal runs it keeps, in order. */
  lemma KeptPiecesAreRuns(s: string, d: char -> bool, keep: string -> bool) returns (runs: seq<string>, starts: seq<nat>)
    requires forall w :: keep(w) ==> w != []
    ensures RunsAt(s, d, runs, starts)
    ensures |runs| == RunCount(s, d)
    ensures Filter(Segments(s, d), keep) == Filter(runs, keep)
  {
    runs := Filter(Segments(s, d), NonEmpty);
    starts := SplitRuns(s, d);
    FilterNonEmptyFirst(Segments(s, d), keep);
  }

  /** Dropping the empty strings first changes nothing for a filter that
      keeps only non-empty ones. */
  lemma {:induction false} FilterNonEmptyFirst(xs: seq<string>, keep: string -> bool)
    requires forall w :: keep(w) ==> w != []
    ensures Filter(Filter(xs, NonEmpty), keep) == Filter(xs, keep)
  {
    if xs != [] {
      FilterNonEmptyFirst(xs[1..], keep);
      assert xs == [xs[0]] + xs[1..];
      FilterPrepend(xs[0], xs[1..], NonEmpty);
      FilterPrepend(xs[0], xs[1..], keep);
      if xs[0] != [] {
        FilterPrepend(xs[0], Filter(xs[1..], NonEmpty), keep);
      } else {
        assert Filter(xs, NonEmpty) == Filter(xs[1..], NonEmpty);
        assert Filter(xs, keep) == Filter(xs[1..], keep);
      }
    }
  }

  /** A string with text is not empty. */
  lemma HasTextNonEmpty()
    ensures forall w :: HasText(w) ==> w != []
  {
  }

  lemma FilterSegmentsDelimStep(s: string, d: char -> bool)
    requires s != [] && d(s[0])
    ensures Filter(Segments(s, d), NonEmpty) == Filter(Segments(s[1..], d), NonEmpty)
  {
    if !(|s| > 1 && d(s[1])) {
      FilterPrepend([], Segments(s[1..], d), NonEmpty);
    }
  }

  lemma FilterSegmentsKeepStep(s: string, d: char -> bool)
    requires s != [] && !d(s[0])
    ensures var rest := Segments(s[1..], d);
      && Filter(Segments(s, d), NonEmpty) == [[s[0]] + rest[0]] + Filter(rest[1..], NonEmpty)
      && Filter(rest, NonEmpty) == (if rest[0] == [] then [] else [rest[0]]) + Filter(rest[1..], NonEmpty)
  {
    var rest := Segments(s[1..], d);
    SegmentsKeepStep(s, d);
    FilterPrepend([s[0]] + rest[0], rest[1..], NonEmpty);
    assert [rest[0]] + rest[1..] == rest;
    FilterPrepend(rest[0], rest[1..], NonEmpty);
  }

  /** A run of `s[1..]` is a run of `s` one place further right. */
  lemma IsRunShift(s: string, d: char -> bool, a: int, b: int)
    requires s != [] && IsRun(s[1..], d, a, b) && (a == 0 ==> d(s[0]))
    ensures IsRun(s, d, a + 1, b + 1) && s[a + 1..b + 1] == s[1..][a..b]
  {
    assert s[a + 1..b + 1] == s[1..][a..b];
    if b < |s| - 1 {
      assert s[b + 1] == s[1..][b];
    }
    if a > 0 {
      assert s[a] == s[1..][a - 1];
    }
  }

  /** A run of `s[1..]` at its start, preceded by a character outside the
      class, grows by that character. */
  lemma IsRunGrow(s: string, d: char -> bool, b: int)
    requires s != [] && !d(s[0]) && IsRun(s[1..], d, 0, b)
    ensures IsRun(s, d, 0, b + 1) && s[0..b + 1] == [s[0]] + s[1..][0..b]
  {
    var p, q := s[0..b + 1], s[1..][0..b];
    assert p == [s[0]] + q;
    if b < |s| - 1 {
      assert s[b + 1] == s[1..][b];
    }
    forall i | 0 <= i < |p| ensures !d(p[i]) {
      if i > 0 {
        assert p[i] == q[i - 1];
      }
    }
  }

  /** Runs of `s[1..]` are runs of `s` one place further right, unless the
      first starts at the front after a character outside the class. */
  lemma RunsAtShift(s: string, d: char -> bool, rs: seq<string>, sr: seq<nat>)
    requires s != [] && RunsAt(s[1..], d, rs, sr)
    requires rs != [] && sr[0] == 0 ==> d(s[0])
    ensures RunsAt(s, d, rs, Shift(sr, 1))
  {
    var st := Shift(sr, 1);
    forall k | 0 <= k < |rs| ensures RunAt(s, d, rs[k], st[k]) {
      RunShiftAt(s, d, rs, sr, k);
    }
  }

  lemma RunShiftAt(s: string, d: char -> bool, rs: seq<string>, sr: seq<nat>, k: nat)
    requires s != [] && RunsAt(s[1..], d, rs, sr) && k < |rs|
    requires sr[0] == 0 ==> d(s[0])
    ensures RunAt(s, d, rs[k], sr[k] + 1)
  {
    if k > 0 {
      assert sr[k - 1] + |rs[k - 1]| < sr[k];
    }
    assert RunAt(s[1..], d, rs[k], sr[k]);
    IsRunShift(s, d, sr[k], sr[k] + |rs[k]|);
  }

  /** A one-character run at the front, followed by the runs of the rest. */
  lemma RunsAtCons(s: string, d: char -> bool, rs: seq<string>, sr: seq<nat>)
    requires s != [] && !d(s[0]) && (|s| == 1 || d(s[1])) && RunsAt(s[1..], d, rs, sr)
    ensures RunsAt(s, d, [[s[0]]] + rs, [0] + Shift(sr, 1))
  {
    assert s[0..1] == [s[0]];
    assert RunAt(s, d, [s[0]], 0);
    if rs != [] {
      assert IsRun(s[1..], d, sr[0], sr[0] + |rs[0]|);
      RunsAtNotFront(s[1..], d, rs, sr);
    }
    RunsAtShift(s, d, rs, sr);
    RunsAtPrepend(s, d, [s[0]], 0, rs, Shift(sr, 1));
  }

  /** Runs that start after a class character at the front start past it. */
  lemma RunsAtNotFront(s: string, d: char -> bool, rs: seq<string>, sr: seq<nat>)
    requires s != [] && d(s[0]) && rs != [] && RunsAt(s, d, rs, sr)
    ensures sr[0] > 0
  {
  }

  /** A run placed before the first of a sequence of runs extends it. */
  lemma RunsAtPrepend(s: string, d: char -> bool, w: string, a: nat, rs: seq<string>, sr: seq<nat>)
    requires RunAt(s, d, w, a)
    requires RunsAt(s, d, rs, sr) && (rs != [] ==> a + |w| < sr[0])
    ensures RunsAt(s, d, [w] + rs, [a] + sr)
  {
    var r, st := [w] + rs, [a] + sr;
    assert forall k :: 1 <= k < |r| ==> r[k] == rs[k - 1] && st[k] == sr[k - 1];
  }

  /** The first run of the rest starts at its front and grows by `s[0]`. */
  lemma RunsAtGrow(s: string, d: char -> bool, rs: seq<string>, sr: seq<nat>)
    requires s != [] && !d(s[0]) && RunsAt(s[1..], d, rs, sr) && rs != [] && sr[0] == 0
    ensures RunsAt(s, d, [[s[0]] + rs[0]] + rs[1..], [0] + Shift(sr[1..], 1))
  {
    IsRunGrow(s, d, |rs[0]|);
    RunsAtTail(s[1..], d, rs, sr);
    if |rs| > 1 {
      assert sr[0] + |rs[0]| < sr[1];
    }
    RunsAtShift(s, d, rs[1..], sr[1..]);
    RunsAtPrepend(s, d, [s[0]] + rs[0], 0, rs[1..], Shift(sr[1..], 1));
  }

  lemma RunsAtTail(s: string, d: char -> bool, rs: seq<string>, sr: seq<nat>)
    requires rs != [] && RunsAt(s, d, rs, sr)
    ensures RunsAt(s, d, rs[1..], sr[1..])
  {
    assert forall k :: 0 <= k < |rs| - 1 ==> rs[1..][k] == rs[k + 1] && sr[1..][k] == sr[k + 1];
  }

  lemma {:induction false} RunCountPrefix(p: string, t: string, d: char -> bool)
    requires AllIn(p, d)
    ensures RunCount(p + t, d) == RunCount(t, d)
  {
    if p == [] {
      assert p + t == t;
    } else {
      assert (p + t)[1..] == p[1..] + t;
      RunCountPrefix(p[1..], t, d);
    }
  }

  lemma {:induction false} RunCountSuffix(t: string, q: string, d: char -> bool)
    requires AllIn(q, d)
    ensures RunCount(t + q, d) == RunCount(t, d)
  {
    if t == [] {
      assert t + q == q;
      RunCountAllIn(q, d);
    } else {
      assert (t + q)[1..] == t[1..] + q;
      RunCountSuffix(t[1..], q, d);
    }
  }

  /** A string has no run outside the class iff it lies wholly inside it. */
  lemma {:induction false} RunCountZero(s: string, d: char -> bool)
    ensures RunCount(s, d) == 0 <==> AllIn(s, d)
  {
    if s != [] {
      RunCountZero(s[1..], d);
      if !d(s[0]) && |s| > 1 && !d(s[1]) {
        RunCountZero(s[1..], d);
      }
    }
  }

  lemma RunCountAllIn(s: string, d: char -> bool)
    requires AllIn(s, d)
    ensures RunCount(s, d) == 0
  {
    RunCountZero(s, d);
  }

  lemma TrimStartSpaces(s: string)
    ensures AllIn(s[..|s| - |TrimStart(s)|], IsSpace)
  {
    var lo := |s| - |TrimStart(s)|;
    forall i | 0 <= i < lo ensures IsSpace(s[..lo][i]) {
      assert s[..lo][i] == s[i];
    }
  }

  lemma TrimEndSpaces(s: string)
    ensures AllIn(s[|TrimEnd(s)|..], IsSpace)
  {
    var hi := |TrimEnd(s)|;
    forall i | 0 <= i < |s| - hi ensures IsSpace(s[hi..][i]) {
      assert s[hi..][i] == s[hi + i];
    }
  }

  /** Trimming only removes whitespace from the two ends. */
  lemma TrimSplit(s: string) returns (lo: nat, hi: nat)
    ensures lo == |s| - |TrimStart(s)|
    ensures lo <= hi <= |s| && Trim(s) == s[lo..hi]
    ensures AllIn(s[..lo], IsSpace) && AllIn(s[hi..], IsSpace)
  {
    var t := TrimStart(s);
    lo := TrimStartSplit(s);
    var n := TrimEndSplit(t);
    hi := lo + n;
    SplitAround(s, t, TrimEnd(t), lo, hi);
  }

  lemma TrimStartSplit(s: string) returns (lo: nat)
    ensures lo == |s| - |TrimStart(s)| && TrimStart(s) == s[lo..]
    ensures AllIn(s[..lo], IsSpace)
  {
    lo := |s| - |TrimStart(s)|;
    TrimStartSpaces(s);
  }

  lemma TrimEndSplit(t: string) returns (n: nat)
    ensures n == |TrimEnd(t)| <= |t| && TrimEnd(t) == t[..n]
    ensures AllIn(t[n..], IsSpace)
  {
    n := |TrimEnd(t)|;
    TrimEndSpaces(t);
  }

  /** A suffix `t` of `s` that keeps a prefix `r` splits `s` into the part
      before `t`, `r`, and the rest of `t`. */
  lemma SplitAround(s: string, t: string, r: string, lo: nat, hi: nat)
    requires lo <= |s| && t == s[lo..] && hi == lo + |r|
    requires |r| <= |t| && r == t[..|r|] && AllIn(t[|r|..], IsSpace)
    ensures hi <= |s| && s[lo..hi] == r
    ensures AllIn(s[hi..], IsSpace)
  {
    assert s[lo..hi] == t[..|r|];
    assert s[hi..] == t[|r|..];
  }

  /** A run of a slice that is bounded by class characters on both sides is
      a run of the whole string. */
  lemma RunInSlice(s: string, d: char -> bool, lo: nat, hi: nat, w: string, a: nat)
    requires lo <= hi <= |s| && AllIn(s[..lo], d) && AllIn(s[hi..], d)
    requires RunAt(s[lo..hi], d, w, a)
    ensures RunAt(s, d, w, lo + a)
  {
    var t, b := s[lo..hi], a + |w|;
    assert IsRun(t, d, a, b);
    assert t[a..b] == s[lo + a..lo + b] by {
      assert forall i :: 0 <= i < b - a ==> t[a..b][i] == s[lo + a + i];
    }
    if a > 0 {
      assert t[a - 1] == s[lo + a - 1];
    } else if lo > 0 {
      assert s[..lo][lo - 1] == s[lo - 1];
    }
    if b < |t| {
      assert t[b] == s[lo + b];
    } else if hi < |s| {
      assert s[hi..][0] == s[hi];
    }
  }

  /** The runs of the trimmed string are runs of the string, moved right
      by the whitespace trimmed off the front. */
  lemma RunsAtTrim(s: string, rs: seq<string>, st: seq<nat>) returns (lo: nat)
    requires RunsAt(Trim(s), IsSpace, rs, st)
    ensures lo == |s| - |TrimStart(s)| && AllIn(s[..lo], IsSpace)
    ensures RunsAt(s, IsSpace, rs, Shift(st, lo))
  {
    var l, hi := TrimSplit(s);
    lo := l;
    RunsInSlice(s, IsSpace, lo, hi, rs, st);
  }

  /** The runs of a slice bounded by class characters are runs of the
      whole string, moved right by the start of the slice. */
  lemma RunsInSlice(s: string, d: char -> bool, lo: nat, hi: nat, rs: seq<string>, st: seq<nat>)
    requires lo <= hi <= |s| && AllIn(s[..lo], d) && AllIn(s[hi..], d)
    requires RunsAt(s[lo..hi], d, rs, st)
    ensures RunsAt(s, d, rs, Shift(st, lo))
  {
    var sh := Shift(st, lo);
    forall k | 0 <= k < |rs| ensures RunAt(s, d, rs[k], sh[k]) {
      RunInSlice(s, d, lo, hi, rs[k], st[k]);
    }
  }

  /** Trimming changes neither the runs of non-whitespace nor the
      non-whitespace characters. */
  lemma TrimKeepsRuns(s: string)
    ensures RunCount(Trim(s), IsSpace) == RunCount(s, IsSpace)
    ensures Drop(Trim(s), IsSpace) == Drop(s, IsSpace)
  {
    TrimStartKeeps(s);
    TrimEndKeeps(TrimStart(s));
  }

  lemma {:induction false} TrimStartKeeps(s: string)
    ensures RunCount(TrimStart(s), IsSpace) == RunCount(s, IsSpace)
    ensures Drop(TrimStart(s), IsSpace) == Drop(s, IsSpace)
  {
    if s != [] && IsSpace(s[0]) {
      TrimStartKeeps(s[1..]);
    }
  }

  lemma {:induction false} TrimEndKeeps(s: string)
    ensures RunCount(TrimEnd(s), IsSpace) == RunCount(s, IsSpace)
    ensures Drop(TrimEnd(s), IsSpace) == Drop(s, IsSpace)
  {
    if s != [] && IsSpace(s[|s| - 1]) {
      var p, q := s[..|s| - 1], [s[|s| - 1]];
      TrimEndKeeps(p);
      assert s == p + q;
      assert AllIn(q, IsSpace);
      RunCountSuffix(p, q, IsSpace);
      DropAppend(p, q, IsSpace);
      DropAllIn(q, IsSpace);
    }
  }

  /** `s.trim().length > 0` holds iff `s` has a non-whitespace character. */
  lemma HasTextIff(s: string)
    ensures HasText(s) <==> !AllIn(s, IsSpace)
  {
    if !HasText(s) {
      assert TrimStart(s) == [];
    } else {
      assert !IsSpace(Trim(s)[0]);
    }
  }

  lemma AllInAppend(a: string, b: string, p: char -> bool)
    ensures AllIn(a + b, p) <==> AllIn(a, p) && AllIn(b, p)
  {
    assert forall i :: 0 <= i < |a| ==> a[i] == (a + b)[i];
    assert forall i :: 0 <= i < |b| ==> b[i] == (a + b)[|a| + i];
    assert forall i :: |a| <= i < |a + b| ==> (a + b)[i] == b[i - |a|];
  }

  /** A flattening lies inside a class iff each of its strings does. */
  lemma {:induction false} ConcatAllIn(ss: seq<string>, p: char -> bool)
    ensures AllIn(Concat(ss), p) <==> forall k :: 0 <= k < |ss| ==> AllIn(ss[k], p)
  {
    if ss != [] {
      ConcatAllIn(ss[1..], p);
      AllInAppend(ss[0], Concat(ss[1..]), p);
      assert forall k :: 1 <= k < |ss| ==> ss[k] == ss[1..][k - 1];
    }
  }

  /** What is left after removing class `d` lies inside `p` iff every
      character is in `d` or in `p`. */
  lemma {:induction false} DropAllInIff(s: string, d: char -> bool, p: char -> bool)
    ensures AllIn(Drop(s, d), p) <==> forall i :: 0 <= i < |s| ==> d(s[i]) || p(s[i])
  {
    if s != [] {
      DropAllInIff(s[1..], d, p);
      AllInAppend(if d(s[0]) then [] else [s[0]], Drop(s[1..], d), p);
      assert forall i :: 1 <= i < |s| ==> s[i] == s[1..][i - 1];
    }
  }

  /** Every piece of a split is blank iff every character of the string is
      whitespace or in the class. */
  lemma SegmentsBlank(s: string, d: char -> bool)
    ensures (forall k :: 0 <= k < |Segments(s, d)| ==> AllIn(Segments(s, d)[k], IsSpace))
        <==> (forall i :: 0 <= i < |s| ==> d(s[i]) || IsSpace(s[i]))
  {
    SegmentsConcat(s, d);
    ConcatAllIn(Segments(s, d), IsSpace);
    DropAllInIff(s, d, IsSpace);
  }

  /** No piece of a split passes the `trim().length > 0` filter iff the
      string consists of whitespace and class characters only. */
  lemma NoTextPieces(s: string, d: char -> bool)
    ensures |Filter(Segments(s, d), HasText)| == 0
        <==> (forall i :: 0 <= i < |s| ==> d(s[i]) || IsSpace(s[i]))
  {
    var segs := Segments(s, d);
    SegmentsBlank(s, d);
    FilterEmpty(segs, HasText);
    PiecesHaveText(segs);
  }

  lemma PiecesHaveText(ss: seq<string>)
    ensures forall k :: 0 <= k < |ss| ==> (HasText(ss[k]) <==> !AllIn(ss[k], IsSpace))
  {
    forall k | 0 <= k < |ss| ensures HasText(ss[k]) <==> !AllIn(ss[k], IsSpace) {
      HasTextIff(ss[k]);
    }
  }

  /** A filter keeps nothing iff no element passes it. */
  lemma {:induction false} FilterEmpty<T>(xs: seq<T>, keep: T -> bool)
    ensures |Filter(xs, keep)| == 0 <==> forall k :: 0 <= k < |xs| ==> !keep(xs[k])
  {
    if xs != [] {
      FilterEmpty(xs[1..], keep);
      assert forall k :: 1 <= k < |xs| ==> xs[k] == xs[1..][k - 1];
    }
  }
}
