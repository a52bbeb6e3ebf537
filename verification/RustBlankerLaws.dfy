/** What the blanking scanner guarantees for every source text. */
module RustBlankerLaws {
  import opened RustBlanker
  import opened Texts

  // ---- Code survives, everything else is blanked -------------------------------------------------

  /** Position `k` is code when the scanner, standing at `i`, passes over it outside every region. */
  predicate IsCode(s: string, alnum: Alphanumerics, i: nat, k: nat)
    requires i <= |s| && k < |s|
    decreases |s| - i
  {
    if k < i then false
    else
      var end := RegionEnd(s, alnum, i);
      if end > i then IsCode(s, alnum, end, k) else k == i || IsCode(s, alnum, i + 1, k)
  }

  function BlankOf(c: char): char {
    if c == '\n' then '\n' else ' '
  }

  lemma {:induction false} CodeSurvivesFrom(s: string, alnum: Alphanumerics, i: nat, k: nat)
    requires i <= k < |s|
    ensures SanitizedFrom(s, alnum, i)[k - i] == if IsCode(s, alnum, i, k) then s[k] else BlankOf(s[k])
    decreases |s| - i
  {
    hide RegionEnd, Written, SanitizedFrom, IsCode, BlankOf;
    var written := Written(s, alnum, i);
    Unfold(s, alnum, i);
    WrittenShows(s, alnum, i, k);
    if k >= i + |written| {
      CodeSurvivesFrom(s, alnum, i + |written|, k);
    }
  }

  /** What one step writes at `k`, or that the step leaves `k` to the next one. */
  lemma WrittenShows(s: string, alnum: Alphanumerics, i: nat, k: nat)
    requires i <= k < |s|
    ensures var written := Written(s, alnum, i);
            if k < i + |written| then written[k - i] == if IsCode(s, alnum, i, k) then s[k] else BlankOf(s[k])
            else IsCode(s, alnum, i, k) == IsCode(s, alnum, i + |written|, k)
  {
    hide RegionEnd;
  }

  /** Each character of the output is the source's own where the scanner sees code, and a blank
      (or the newline that was there) elsewhere. */
  lemma CodeSurvives(s: string, alnum: Alphanumerics, k: nat)
    requires k < |s|
    ensures |Sanitized(s, alnum)| == |s|
    ensures Sanitized(s, alnum)[k] == if IsCode(s, alnum, 0, k) then s[k] else if s[k] == '\n' then '\n' else ' '
    ensures s[k] == '\n' ==> Sanitized(s, alnum)[k] == '\n'
  {
    CodeSurvivesFrom(s, alnum, 0, k);
  }

  /** The scanner, standing at `i`, comes to stand at `p`. */
  predicate Reached(s: string, alnum: Alphanumerics, i: nat, p: nat)
    requires i <= |s|
    decreases |s| - i
  {
    if p <= i || i == |s| then p == i
    else
      var end := RegionEnd(s, alnum, i);
      Reached(s, alnum, if end > i then end else i + 1, p)
  }

  /** Position `k` lies in a comment or literal at whose start the scanner comes to stand. */
  predicate InRegion(s: string, alnum: Alphanumerics, i: nat, k: nat)
    requires i <= |s| && k < |s|
  {
    exists p: nat | p <= k :: Reached(s, alnum, i, p) && k < RegionEnd(s, alnum, p)
  }

  /** Code is exactly what lies in none of the comments and literals that the scanner comes to. */
  lemma {:induction false} CodeIsOutsideRegions(s: string, alnum: Alphanumerics, i: nat, k: nat)
    requires i <= k < |s|
    ensures IsCode(s, alnum, i, k) <==> !InRegion(s, alnum, i, k)
    decreases |s| - i
  {
    hide RegionEnd;
    var end := RegionEnd(s, alnum, i);
    var next := if end > i then end else i + 1;
    if k >= next {
      CodeIsOutsideRegions(s, alnum, next, k);
      assert forall p: nat | i < p <= k :: Reached(s, alnum, i, p) <==> Reached(s, alnum, next, p);
      forall p: nat | p <= i ensures !Reached(s, alnum, next, p) {
        ReachedAhead(s, alnum, next, p);
      }
    } else {
      assert Reached(s, alnum, i, i);
      if end == i {
        assert forall p: nat | p <= k && Reached(s, alnum, i, p) :: p == i;
      }
    }
  }

  lemma ReachedAhead(s: string, alnum: Alphanumerics, i: nat, p: nat)
    requires i <= |s| && p < i
    ensures !Reached(s, alnum, i, p)
  {
  }

  /** The scanner finds no region at a code position, and after one it finds more code or a region
      starting right there. */
  lemma {:induction false} CodeContinues(s: string, alnum: Alphanumerics, i: nat, k: nat)
    requires i <= k < |s| && IsCode(s, alnum, i, k)
    ensures RegionEnd(s, alnum, k) == k
    ensures k + 1 < |s| ==> IsCode(s, alnum, i, k + 1) || RegionEnd(s, alnum, k + 1) > k + 1
    decreases |s| - i
  {
    hide RegionEnd;
    var end := RegionEnd(s, alnum, i);
    if end > i {
      CodeContinues(s, alnum, end, k);
    } else if k > i {
      CodeContinues(s, alnum, i + 1, k);
    }
  }

  // ---- Nothing left to blank -----------------------------------------------------------------------

  /** A region starts exactly where a line or block comment, a raw string, a string, or what looks
      like a character literal opens; so only at one of five characters. */
  lemma RegionStarts(s: string, alnum: Alphanumerics, k: nat)
    requires k < |s|
    ensures RegionEnd(s, alnum, k) > k ==> s[k] in {'/', 'b', 'r', '"', '\''}
    ensures RegionEnd(s, alnum, k) > k
            <==> StartsAt(s, "//", k) || StartsAt(s, "/*", k) || RawStringDelimiter(s, alnum, k).Some?
                 || s[k] == '"' || (s[k] == '\'' && LooksLikeCharacterLiteral(s, k))
  {
    hide QuotedScan, LooksLikeCharacterLiteral, LineCommentEnd, BlockCommentEnd, RawStringEnd;
  }

  /** What the output still shows at `k` is code of the source. */
  lemma OutputShowsCode(s: string, alnum: Alphanumerics, k: nat)
    requires k < |s| && Sanitized(s, alnum)[k] !in {' ', '\n'}
    ensures IsCode(s, alnum, 0, k) && Sanitized(s, alnum)[k] == s[k] && RegionEnd(s, alnum, k) == k
  {
    CodeSurvives(s, alnum, k);
    CodeContinues(s, alnum, 0, k);
  }

  /** No double quote and no comment opening is left. */
  lemma NoQuotesOrCommentsRemain(s: string, alnum: Alphanumerics, k: nat)
    requires k < |s|
    ensures Sanitized(s, alnum)[k] != '"'
    ensures !StartsAt(Sanitized(s, alnum), "//", k) && !StartsAt(Sanitized(s, alnum), "/*", k)
  {
    hide Sanitized, RegionEnd;
    var t := Sanitized(s, alnum);
    if t[k] == '"' {
      OutputShowsCode(s, alnum, k);
      RegionStarts(s, alnum, k);
    }
    if StartsAt(t, "//", k) || StartsAt(t, "/*", k) {
      TwoCharacters(t, k);
      OutputShowsCode(s, alnum, k);
      OutputShowsCode(s, alnum, k + 1);
      RegionStarts(s, alnum, k);
      TwoCharacters(s, k);
    }
  }

  lemma TwoCharacters(s: string, k: nat)
    ensures StartsAt(s, "//", k) <==> k + 2 <= |s| && s[k] == '/' && s[k + 1] == '/'
    ensures StartsAt(s, "/*", k) <==> k + 2 <= |s| && s[k] == '/' && s[k + 1] == '*'
    ensures StartsAt(s, "*/", k) <==> k + 2 <= |s| && s[k] == '*' && s[k + 1] == '/'
  {
    if k + 2 <= |s| {
      assert s[k..k + 2] == [s[k], s[k + 1]];
    }
  }

  /** No apostrophe that is left looks like the start of a character literal. */
  lemma NoCharacterLiteralsRemain(s: string, alnum: Alphanumerics, k: nat)
    requires k < |s| && Sanitized(s, alnum)[k] == '\''
    ensures !LooksLikeCharacterLiteral(Sanitized(s, alnum), k)
  {
    hide Sanitized, RegionEnd, IsCode, Find;
    var t := Sanitized(s, alnum);
    OutputShowsCode(s, alnum, k);
    RegionStarts(s, alnum, k);
    assert !LooksLikeCharacterLiteral(s, k);
    if k + 2 < |s| {
      if t[k + 1] == '\\' {
        OutputShowsCode(s, alnum, k + 1);
        ApostropheOf(s, alnum, k + 3, if |s| <= k + 12 then |s| else k + 12);
      } else if t[k + 2] == '\'' {
        OutputShowsCode(s, alnum, k + 2);
        NotABlankedBackslash(s, alnum, k);
      }
    }
  }

  /** An apostrophe of the output in a window is one of the source. */
  lemma ApostropheOf(s: string, alnum: Alphanumerics, from: nat, limit: nat)
    requires limit <= |s|
    ensures Find(Sanitized(s, alnum), "'", from, limit).Some? ==> Find(s, "'", from, limit).Some?
  {
    hide Sanitized, Find, IsCode, RegionEnd, StartsAt;
    var found := Find(Sanitized(s, alnum), "'", from, limit);
    if found.Some? {
      OneCharacterAt(Sanitized(s, alnum), '\'', found.value);
      OutputShowsCode(s, alnum, found.value);
      OneCharacterAt(s, '\'', found.value);
    }
  }

  lemma OneCharacterAt(s: string, c: char, i: nat)
    ensures StartsAt(s, [c], i) <==> i < |s| && s[i] == c
  {
    assert i < |s| ==> s[i..i + 1] == [s[i]];
  }

  /** After a code apostrophe, a backslash is never blanked. */
  lemma NotABlankedBackslash(s: string, alnum: Alphanumerics, k: nat)
    requires k + 1 < |s| && IsCode(s, alnum, 0, k) && s[k + 1] == '\\'
    ensures Sanitized(s, alnum)[k + 1] == '\\'
  {
    hide Sanitized, RegionEnd;
    CodeContinues(s, alnum, 0, k);
    RegionStarts(s, alnum, k + 1);
    CodeSurvives(s, alnum, k + 1);
  }

  lemma NoRegionRemains(s: string, alnum: Alphanumerics, k: nat)
    requires k < |s|
    ensures RegionEnd(Sanitized(s, alnum), alnum, k) == k
  {
    hide Sanitized, QuotedScan, LooksLikeCharacterLiteral, RawStringEnd, LineCommentEnd, BlockCommentEnd;
    var t := Sanitized(s, alnum);
    NoQuotesOrCommentsRemain(s, alnum, k);
    if t[k] == '\'' {
      NoCharacterLiteralsRemain(s, alnum, k);
    }
    if RawStringDelimiter(t, alnum, k).Some? {
      var q :| 0 <= q < |t[k..]| && t[k..][q] == '"';
      NoQuotesOrCommentsRemain(s, alnum, k + q);
    }
  }

  lemma {:induction false} CleanTextStays(t: string, alnum: Alphanumerics, i: nat)
    requires i <= |t| && forall k | 0 <= k < |t| :: RegionEnd(t, alnum, k) == k
    ensures SanitizedFrom(t, alnum, i) == t[i..]
    decreases |t| - i
  {
    hide RegionEnd;
    if i < |t| {
      CleanTextStays(t, alnum, i + 1);
      assert t[i..] == [t[i]] + t[i + 1..];
    }
  }

  /** Scanning twice equals scanning once. */
  lemma ScanningIsIdempotent(s: string, alnum: Alphanumerics)
    ensures Sanitized(Sanitized(s, alnum), alnum) == Sanitized(s, alnum)
  {
    var t := Sanitized(s, alnum);
    forall k | 0 <= k < |t| ensures RegionEnd(t, alnum, k) == k {
      NoRegionRemains(s, alnum, k);
    }
    CleanTextStays(t, alnum, 0);
  }
}
