/** What the text primitives mean, said of the texts alone. */
module TextLaws {
  import opened Texts
  import opened Wrappers

  // ---- Order --------------------------------------------------------------------------------------

  /** The texts agree up to `k`, where the first ends before the second or shows the smaller character. */
  predicate FirstDifferenceAt(a: string, b: string, k: nat) {
    && k <= |a| && k < |b| && a[..k] == b[..k]
    && (k == |a| || a[k] < b[k])
  }

  /** One text is before another exactly if it is a proper prefix of it or shows the smaller character where they
      first differ. */
  lemma {:induction false} BeforeMeans(a: string, b: string)
    ensures Before(a, b) <==> exists k: nat :: FirstDifferenceAt(a, b, k)
  {
    if a != [] && b != [] && a[0] == b[0] {
      BeforeMeans(a[1..], b[1..]);
      forall k: nat | FirstDifferenceAt(a, b, k) ensures Before(a, b) {
        assert k > 0 && a[1..][..k - 1] == a[..k][1..] && b[1..][..k - 1] == b[..k][1..];
        assert FirstDifferenceAt(a[1..], b[1..], k - 1);
      }
      if Before(a, b) {
        var k: nat :| FirstDifferenceAt(a[1..], b[1..], k);
        assert a[..k + 1] == [a[0]] + a[1..][..k] && b[..k + 1] == [b[0]] + b[1..][..k];
        assert FirstDifferenceAt(a, b, k + 1);
      }
    } else {
      if Before(a, b) {
        assert FirstDifferenceAt(a, b, 0);
      }
      forall k: nat | FirstDifferenceAt(a, b, k) ensures Before(a, b) {
        assert k > 0 ==> a[..k][0] == b[..k][0];
      }
    }
  }

  // ---- Whitespace ---------------------------------------------------------------------------------------

  /** The twenty-five characters that Unicode calls white space. */
  lemma SpacesAreWhiteSpace(c: char)
    ensures IsSpace(c)
            <==> c as int in {0x09, 0x0A, 0x0B, 0x0C, 0x0D, 0x20, 0x85, 0xA0, 0x1680, 0x2000, 0x2001, 0x2002, 0x2003,
                              0x2004, 0x2005, 0x2006, 0x2007, 0x2008, 0x2009, 0x200A, 0x2028, 0x2029, 0x202F, 0x205F,
                              0x3000}
  {
  }

  predicate AllSpace(s: string) {
    forall i | 0 <= i < |s| :: IsSpace(s[i])
  }

  /** `t` is `s` without the white space around it. */
  ghost predicate IsCore(t: string, s: string) {
    && (exists before, after :: s == before + t + after && AllSpace(before) && AllSpace(after))
    && (t != [] ==> !IsSpace(t[0]) && !IsSpace(t[|t| - 1]))
  }

  lemma {:induction false} TrimStartCuts(s: string) returns (before: string)
    ensures AllSpace(before) && s == before + TrimStart(s)
  {
    if s != [] && IsSpace(s[0]) {
      var more := TrimStartCuts(s[1..]);
      before := [s[0]] + more;
      assert s == [s[0]] + s[1..];
    } else {
      before := [];
    }
  }

  lemma {:induction false} TrimEndCuts(s: string) returns (after: string)
    ensures AllSpace(after) && s == TrimEnd(s) + after
  {
    if s != [] && IsSpace(s[|s| - 1]) {
      var more := TrimEndCuts(s[..|s| - 1]);
      after := more + [s[|s| - 1]];
      assert s == s[..|s| - 1] + [s[|s| - 1]];
    } else {
      after := [];
    }
  }

  /** Trimming takes the white space off both ends and nothing else. */
  lemma TrimMeans(s: string)
    ensures IsCore(Trim(s), s)
  {
    hide IsSpace, TrimStart, TrimEnd;
    var before := TrimStartCuts(s);
    var after := TrimEndCuts(TrimStart(s));
    TrimStartEnds(s);
    TrimEndEnds(TrimStart(s));
    assert s == before + Trim(s) + after;
  }

  /** And there is only one text it can leave. */
  lemma CoreIsUnique(t: string, u: string, s: string)
    requires IsCore(t, s) && IsCore(u, s)
    ensures t == u
  {
    hide IsSpace;
    var a, b :| s == a + t + b && AllSpace(a) && AllSpace(b);
    var c, d :| s == c + u + d && AllSpace(c) && AllSpace(d);
    CoreBounds(a, t, b, c, u, d, s);
    CoreBounds(c, u, d, a, t, b, s);
    if t == [] && u != [] {
      NothingLeft(a, b, c, u, d, s);
    } else if u == [] && t != [] {
      NothingLeft(c, d, a, t, b, s);
    } else if t != [] {
      assert t == s[|a|..|a| + |t|] && u == s[|c|..|c| + |u|];
    }
  }

  /** A core starts no later, and ends no earlier, than where any other split of the text has a character of it. */
  lemma CoreBounds(a: string, t: string, b: string, c: string, u: string, d: string, s: string)
    requires s == a + t + b == c + u + d && AllSpace(a) && AllSpace(b)
    requires u != [] ==> !IsSpace(u[0]) && !IsSpace(u[|u| - 1])
    ensures t != [] && u != [] ==> |c| >= |a| && |c| + |u| <= |a| + |t|
  {
    hide IsSpace;
    if t != [] && u != [] {
      assert s[|c|] == u[0] && s[|c| + |u| - 1] == u[|u| - 1];
      assert forall i | 0 <= i < |a| :: s[i] == a[i];
      assert forall i | |a| + |t| <= i < |s| :: s[i] == b[i - |a| - |t|];
    }
  }

  lemma NothingLeft(a: string, b: string, c: string, u: string, d: string, s: string)
    requires s == a + [] + b == c + u + d && AllSpace(a) && AllSpace(b)
    ensures u != [] ==> IsSpace(u[0])
  {
    hide IsSpace;
    if u != [] {
      assert s[|c|] == u[0];
      assert forall i | 0 <= i < |s| :: s[i] == if i < |a| then a[i] else b[i - |a|];
    }
  }

  /** The words with one more character, which begins a word or goes on with the last one. */
  function WithNext(words: seq<string>, c: char, begins: bool): seq<string> {
    if begins || words == [] then words + [[c]] else words[..|words| - 1] + [words[|words| - 1] + [c]]
  }

  /** The words of a text, split at white space. */
  function Words(s: string): seq<string> {
    if s == [] then []
    else
      var words, c := Words(s[..|s| - 1]), s[|s| - 1];
      if IsSpace(c) then words else WithNext(words, c, |s| == 1 || IsSpace(s[|s| - 2]))
  }

  /** The words with one space between any two. */
  function Spaced(words: seq<string>): string {
    if words == [] then []
    else if |words| == 1 then words[0]
    else Spaced(words[..|words| - 1]) + " " + words[|words| - 1]
  }

  lemma SpacedNext(words: seq<string>, word: string)
    ensures Spaced(words + [word]) == if words == [] then word else Spaced(words) + " " + word
  {
    assert (words + [word])[..|words|] == words;
  }

  lemma SpacedWithNext(words: seq<string>, c: char, begins: bool)
    ensures Spaced(WithNext(words, c, begins))
            == if words == [] then [c] else if begins then Spaced(words) + " " + [c] else Spaced(words) + [c]
  {
    hide Spaced;
    SpacedNext(words, [c]);
    if words != [] && !begins {
      SpacedLonger(words[..|words| - 1], words[|words| - 1], c);
      assert words == words[..|words| - 1] + [words[|words| - 1]];
    }
  }

  lemma SpacedLonger(init: seq<string>, last: string, c: char)
    ensures Spaced(init + [last + [c]]) == Spaced(init + [last]) + [c]
  {
    hide Spaced;
    SpacedNext(init, last + [c]);
    SpacedNext(init, last);
  }

  predicate IsWord(w: string) {
    w != [] && forall i | 0 <= i < |w| :: !IsSpace(w[i])
  }

  predicate AllWords(words: seq<string>) {
    forall w | w in words :: IsWord(w)
  }

  lemma WithNextIsWords(words: seq<string>, c: char, begins: bool)
    requires AllWords(words) && !IsSpace(c)
    ensures AllWords(WithNext(words, c, begins)) && WithNext(words, c, begins) != []
  {
    hide IsSpace;
    if words != [] {
      assert words[|words| - 1] in words;
    }
  }

  lemma {:induction false} WordsAreWords(s: string)
    ensures AllWords(Words(s))
    ensures s != [] && !IsSpace(s[|s| - 1]) ==> Words(s) != []
    ensures Words(s) != [] ==> s != []
  {
    hide IsSpace, AllWords, WithNext;
    if s == [] {
      assert AllWords([]) by { NoWords(); }
    } else {
      WordsAreWords(s[..|s| - 1]);
      if !IsSpace(s[|s| - 1]) {
        WithNextIsWords(Words(s[..|s| - 1]), s[|s| - 1], |s| == 1 || IsSpace(s[|s| - 2]));
      }
    }
  }

  lemma NoWords()
    ensures AllWords([])
  {
  }

  lemma SpacedIsNotEmpty(words: seq<string>)
    requires AllWords(words)
    ensures Spaced(words) == [] <==> words == []
    ensures words != [] ==> !IsSpace(Spaced(words)[|Spaced(words)| - 1])
  {
    hide IsSpace, Spaced;
    if words == [] {
      NothingSpaced();
    } else {
      assert words[|words| - 1] in words;
      SpacedNext(words[..|words| - 1], words[|words| - 1]);
      assert words == words[..|words| - 1] + [words[|words| - 1]];
    }
  }

  /** Collapsing white space joins the words by single spaces, and leaves one at the end if white space stood there. */
  lemma {:induction false} CollapseMeans(s: string)
    ensures CollapseSpaces(s) == Spaced(Words(s)) + if Words(s) != [] && IsSpace(s[|s| - 1]) then " " else ""
  {
    hide IsSpace, Spaced, AllWords, WithNext;
    WordsAreWords(s);
    if s == [] {
      NothingSpaced();
    } else {
      var init, c := s[..|s| - 1], s[|s| - 1];
      var words := Words(init);
      CollapseMeans(init);
      WordsAreWords(init);
      SpacedIsNotEmpty(words);
      BlankIsSpace();
      if !IsSpace(c) {
        SpacedWithNext(words, c, |s| == 1 || IsSpace(s[|s| - 2]));
      }
    }
  }

  lemma NothingSpaced()
    ensures Spaced([]) == []
  {
  }

  lemma BlankIsSpace()
    ensures IsSpace(' ')
  {
  }

  /** So the normal form of a text is its words with one space between any two. */
  lemma NormalFormMeans(s: string)
    ensures NonBlank(CollapseSpaces(s)) == if Words(s) == [] then None else Some(Spaced(Words(s)))
  {
    hide IsSpace, Spaced, Words, AllWords, CollapseSpaces, Trim;
    CollapseMeans(s);
    WordsAreWords(s);
    SpacedIsNotEmpty(Words(s));
    var text, tail := Spaced(Words(s)), if Words(s) != [] && IsSpace(s[|s| - 1]) then " " else "";
    BlankIsSpace();
    TrimMeans(text + tail);
    if Words(s) != [] {
      SpacedStarts(s);
      assert text + tail == [] + text + tail && AllSpace([]) && AllSpace(tail);
      assert IsCore(text, text + tail);
      CoreIsUnique(Trim(text + tail), text, text + tail);
    } else {
      assert text + tail == [];
      assert [] + [] + [] == text + tail;
      assert AllSpace([]) && IsCore([], text + tail);
      CoreIsUnique(Trim(text + tail), [], text + tail);
    }
  }

  lemma SpacedStarts(s: string)
    requires Words(s) != []
    ensures Spaced(Words(s)) != [] && !IsSpace(Spaced(Words(s))[0])
  {
    hide IsSpace, Words;
    WordsAreWords(s);
    assert Words(s)[0] in Words(s);
    FirstOfSpaced(Words(s));
  }

  lemma {:induction false} FirstOfSpaced(words: seq<string>)
    requires words != [] && words[0] != []
    ensures Spaced(words) != [] && Spaced(words)[0] == words[0][0]
  {
    if |words| > 1 {
      FirstOfSpaced(words[..|words| - 1]);
    }
  }
}
