/** `toTitleCase`: every match of the pattern "a word character, then any
    non-whitespace" has its first character upper-cased and the rest
    lower-cased, with ASCII casing. */
module TitleCase {
  import opened Text

  /** Length of the longest prefix without whitespace. */
  function NonSpacePrefix(s: string): (n: nat)
    ensures n <= |s|
    ensures forall i :: 0 <= i < n ==> !IsSpace(s[i])
    ensures n < |s| ==> IsSpace(s[n])
  {
    if s != [] && !IsSpace(s[0]) then 1 + NonSpacePrefix(s[1..]) else 0
  }

  /** The global replace, scanning left to right: at a word character a match
      `\w\S*` runs to the next whitespace and is rewritten; any other
      character is kept and the scan moves on. */
  function ToTitleCase(s: string): (r: string)
    ensures |r| == |s|
  {
    if s == [] then []
    else if IsWordChar(s[0]) then
      var n := 1 + NonSpacePrefix(s[1..]);
      [UpperChar(s[0])] + Lower(s[1..n]) + ToTitleCase(s[n..])
    else
      [s[0]] + ToTitleCase(s[1..])
  }

  /** Whether position `i` lies inside a match that began before it: since
      the last whitespace before `i` there is a word character. */
  predicate InMatch(s: string, i: nat)
    requires i <= |s|
  {
    i > 0 && !IsSpace(s[i - 1]) && (InMatch(s, i - 1) || IsWordChar(s[i - 1]))
  }

  /** What `toTitleCase` makes of a character `c`, given whether it lies
      inside a match: whitespace is kept, a character inside a match is
      lower-cased, a word character that starts a match is upper-cased, and
      anything else is kept. */
  function TitleChar(c: char, inMatch: bool): char {
    if IsSpace(c) then c
    else if inMatch then LowerChar(c)
    else if IsWordChar(c) then UpperChar(c)
    else c
  }

  // ---------------------------------------------------------------- lemmas

  /** After a position outside any match, the matches of a suffix are those
      of the whole string. */
  lemma {:induction false} InMatchSuffix(s: string, m: nat, i: nat)
    requires m <= i <= |s| && !InMatch(s, m)
    ensures InMatch(s, i) == InMatch(s[m..], i - m)
    decreases i
  {
    if i > m {
      InMatchSuffix(s, m, i - 1);
      assert s[m..][i - m - 1] == s[i - 1];
    }
  }

  /** Inside the first match every position after its start is covered. */
  lemma {:induction false} InMatchRun(s: string, n: nat, i: nat)
    requires 1 <= i <= n <= |s| && IsWordChar(s[0])
    requires forall j :: 1 <= j < n ==> !IsSpace(s[j])
    ensures InMatch(s, i)
  {
    if i > 1 {
      InMatchRun(s, n, i - 1);
    }
  }

  /** `toTitleCase`, character by character. */
  lemma {:induction false} ToTitleCaseAt(s: string, i: nat)
    requires i < |s|
    ensures ToTitleCase(s)[i] == TitleChar(s[i], InMatch(s, i))
    decreases |s|
  {
    var r := ToTitleCase(s);
    if IsWordChar(s[0]) {
      var n := 1 + NonSpacePrefix(s[1..]);
      assert r == [UpperChar(s[0])] + Lower(s[1..n]) + ToTitleCase(s[n..]);
      if i == 0 {
      } else if i < n {
        InMatchRun(s, n, i);
        assert r[i] == Lower(s[1..n])[i - 1];
      } else {
        var t := s[n..];
        ToTitleCaseAt(t, i - n);
        assert r[i] == ToTitleCase(t)[i - n];
        if i > n {
          InMatchSuffix(s, n + 1, i);
          InMatchSuffix(t, 1, i - n);
          assert t[1..] == s[n + 1..];
        }
      }
    } else {
      assert r == [s[0]] + ToTitleCase(s[1..]);
      if i > 0 {
        ToTitleCaseAt(s[1..], i - 1);
        InMatchSuffix(s, 1, i);
      }
    }
  }

  /** `toTitleCase` keeps the length and every whitespace character, and
      keeps every character that is neither a letter nor inside or at the
      start of a match. */
  lemma ToTitleCaseKeeps(s: string)
    ensures |ToTitleCase(s)| == |s|
    ensures forall i :: 0 <= i < |s| && IsSpace(s[i]) ==> ToTitleCase(s)[i] == s[i]
    ensures forall i :: 0 <= i < |s| && !InMatch(s, i) && !IsWordChar(s[i]) ==> ToTitleCase(s)[i] == s[i]
    ensures forall i :: 0 <= i < |s| && !IsUpper(s[i]) && !IsLower(s[i]) ==> ToTitleCase(s)[i] == s[i]
  {
    forall i | 0 <= i < |s| ensures ToTitleCase(s)[i] == TitleChar(s[i], InMatch(s, i)) {
      ToTitleCaseAt(s, i);
    }
  }

  /** Casing changes neither whitespace nor word characters, so a second
      application finds the same matches and changes nothing. */
  lemma ToTitleCaseIdempotent(s: string)
    ensures ToTitleCase(ToTitleCase(s)) == ToTitleCase(s)
  {
    var r := ToTitleCase(s);
    forall i | 0 <= i < |s| ensures r[i] == TitleChar(s[i], InMatch(s, i)) {
      ToTitleCaseAt(s, i);
    }
    forall i | 0 <= i <= |s| ensures InMatch(r, i) == InMatch(s, i) {
      InMatchSameClasses(s, r, i);
    }
    forall i | 0 <= i < |s| ensures ToTitleCase(r)[i] == r[i] {
      ToTitleCaseAt(r, i);
    }
  }

  lemma {:induction false} InMatchSameClasses(s: string, t: string, i: nat)
    requires |s| == |t| && i <= |s|
    requires forall j :: 0 <= j < |s| ==> IsSpace(s[j]) == IsSpace(t[j]) && IsWordChar(s[j]) == IsWordChar(t[j])
    ensures InMatch(s, i) == InMatch(t, i)
  {
    if i > 0 {
      InMatchSameClasses(s, t, i - 1);
    }
  }

  /** Matches are local to a prefix. */
  lemma {:induction false} InMatchPrefix(s: string, t: string, i: nat)
    requires i <= |s|
    ensures InMatch(s + t, i) == InMatch(s, i)
  {
    if i > 0 {
      InMatchPrefix(s, t, i - 1);
    }
  }

  lemma AppendLeft(s: string, t: string, i: nat)
    requires i < |s|
    ensures ToTitleCase(s + t)[i] == ToTitleCase(s)[i]
  {
    ToTitleCaseAt(s + t, i);
    ToTitleCaseAt(s, i);
    InMatchPrefix(s, t, i);
    assert (s + t)[i] == s[i];
  }

  lemma AppendRight(s: string, t: string, i: nat)
    requires |s| <= i < |s| + |t| && s != [] && IsSpace(s[|s| - 1])
    ensures ToTitleCase(s + t)[i] == ToTitleCase(t)[i - |s|]
  {
    var u := s + t;
    assert u[|s| - 1] == s[|s| - 1];
    ToTitleCaseAt(u, i);
    ToTitleCaseAt(t, i - |s|);
    InMatchSuffix(u, |s|, i);
    assert u[|s|..] == t;
  }

  /** No match reaches across whitespace, so text that ends in whitespace
      and what follows it are title-cased independently. */
  lemma ToTitleCaseAppend(s: string, t: string)
    requires s != [] && IsSpace(s[|s| - 1])
    ensures ToTitleCase(s + t) == ToTitleCase(s) + ToTitleCase(t)
  {
    forall i | 0 <= i < |s| ensures ToTitleCase(s + t)[i] == ToTitleCase(s)[i] {
      AppendLeft(s, t, i);
    }
    forall i | |s| <= i < |s| + |t| ensures ToTitleCase(s + t)[i] == ToTitleCase(t)[i - |s|] {
      AppendRight(s, t, i);
    }
  }

  // ------------------------------------------------------------ an example

  /** Title-casing text that starts with a match. */
  lemma TitleWord(s: string, n: nat, low: string)
    requires 1 <= n <= |s| && IsWordChar(s[0])
    requires NonSpacePrefix(s[1..]) + 1 == n
    requires Lower(s[1..n]) == low
    ensures ToTitleCase(s) == [UpperChar(s[0])] + low + ToTitleCase(s[n..])
  {
  }

  lemma {:induction false} NonSpacePrefixAt(s: string, n: nat)
    requires n <= |s| && (n < |s| ==> IsSpace(s[n]))
    requires forall i :: 0 <= i < n ==> !IsSpace(s[i])
    ensures NonSpacePrefix(s) == n
  {
    if n > 0 {
      NonSpacePrefixAt(s[1..], n - 1);
    }
  }

  lemma ExampleHello(t: string)
    requires t == "hello, "
    ensures ToTitleCase(t) == "Hello, "
  {
    NonSpacePrefixAt(t[1..], 5);
    assert Lower(t[1..6]) == "ello,";
    TitleWord(t, 6, "ello,");
    assert ToTitleCase(t[6..]) == " ";
  }

  lemma ExampleWorld(t: string)
    requires t == "WORLD! "
    ensures ToTitleCase(t) == "World! "
  {
    NonSpacePrefixAt(t[1..], 5);
    assert Lower(t[1..6]) == "orld!";
    TitleWord(t, 6, "orld!");
    assert ToTitleCase(t[6..]) == " ";
  }

  lemma ExampleThisIs(t: string)
    requires t == "this-is "
    ensures ToTitleCase(t) == "This-is "
  {
    NonSpacePrefixAt(t[1..], 6);
    assert Lower(t[1..7]) == "his-is";
    TitleWord(t, 7, "his-is");
    assert ToTitleCase(t[7..]) == " ";
  }

  lemma ExampleFine(t: string)
    requires t == "fine."
    ensures ToTitleCase(t) == "Fine."
  {
    NonSpacePrefixAt(t[1..], 4);
    assert Lower(t[1..5]) == "ine.";
    TitleWord(t, 5, "ine.");
    assert ToTitleCase(t[5..]) == "";
  }

  lemma ExamplePieces(s: string)
    requires s == "hello, WORLD! this-is fine."
    ensures s[..7] == "hello, " && s[7..14] == "WORLD! " && s[14..22] == "this-is " && s[22..] == "fine."
    ensures s == s[..7] + (s[7..14] + (s[14..22] + s[22..]))
  {
  }

  lemma ExampleJoined()
    ensures "Hello, " + ("World! " + ("This-is " + "Fine.")) == "Hello, World! This-is Fine."
  {
  }

  /** Each match gets an upper-case first letter and a lower-case rest, a
      hyphenated word stays one match, and punctuation is untouched.
      The helpers above take their literal as a parameter fixed by a
      `requires`: with the literal in a parameter the verifier reasons about
      slices of it step by step instead of evaluating every function on the
      whole literal, which keeps each proof small. */
  lemma ToTitleCaseExample()
    ensures ToTitleCase("hello, WORLD! this-is fine.") == "Hello, World! This-is Fine."
  {
    var s := "hello, WORLD! this-is fine.";
    ExamplePieces(s);
    var a, b, c, d := s[..7], s[7..14], s[14..22], s[22..];
    ExampleHello(a);
    ExampleWorld(b);
    ExampleThisIs(c);
    ExampleFine(d);
    ToTitleCaseAppend(c, d);
    ToTitleCaseAppend(b, c + d);
    ToTitleCaseAppend(a, b + (c + d));
    ExampleJoined();
  }
}
