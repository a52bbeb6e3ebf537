/** The grammar of what the scanner skips: nested block comments and escaped literals. The depth
    counter and the escape rule recognise exactly these texts. */
module RustGrammar {
  import opened Wrappers
  import opened RustBlanker
  import opened Texts
  import opened RustBlankerLaws

  // ---- Nested block comments ----------------------------------------------------------------------

  /** A block comment behind its opening delimiter: plain characters and whole inner comments. */
  datatype Body = Close | Mark(c: char, rest: Body) | Inner(inner: Body, rest: Body)

  /** How it is spelled, closing delimiter included. */
  function Text(body: Body): string {
    match body
    case Close => "*/"
    case Mark(c, rest) => [c] + Text(rest)
    case Inner(inner, rest) => "/*" + (Text(inner) + Text(rest))
  }

  /** No plain character begins a delimiter together with the character after it. */
  predicate Readable(body: Body) {
    match body
    case Close => true
    case Mark(c, rest) => Plain2([c] + Text(rest), 0) && Readable(rest)
    case Inner(inner, rest) => Readable(inner) && Readable(rest)
  }

  predicate Plain2(s: string, i: nat) {
    !StartsAt(s, "/*", i) && !StartsAt(s, "*/", i)
  }

  lemma {:induction false} TextIsLong(body: Body)
    ensures |Text(body)| >= 2
    decreases body
  {
    match body
    case Close =>
    case Mark(_, rest) => TextIsLong(rest);
    case Inner(inner, rest) => TextIsLong(inner); TextIsLong(rest);
  }

  lemma SameDelimiters(s: string, i: nat, t: string)
    requires |t| >= 2 && StartsAt(s, t, i)
    ensures Plain2(s, i) <==> Plain2(t, 0)
  {
    TwoCharacters(s, i);
    TwoCharacters(t, 0);
    assert s[i] == s[i..i + |t|][0] && s[i + 1] == s[i..i + |t|][1];
  }

  /** The scan passes over a readable body at any depth, through the delimiter that closes it. */
  lemma {:induction false} ScanPassesBody(s: string, i: nat, depth: nat, body: Body)
    requires Readable(body) && depth > 0 && StartsAt(s, Text(body), i)
    ensures i + |Text(body)| <= |s| && BlockScan(s, i, depth) == BlockScan(s, i + |Text(body)|, depth - 1)
    decreases body
  {
    hide StartsAt, BlockScan;
    Fits(s, i, Text(body));
    match body
    case Close =>
      ScanStep(s, i, depth);
    case Mark(c, rest) =>
      TextIsLong(rest);
      SameDelimiters(s, i, [c] + Text(rest));
      Within(s, i, [c], Text(rest));
      ScanStep(s, i, depth);
      ScanPassesBody(s, i + 1, depth, rest);
    case Inner(inner, rest) =>
      Within(s, i, "/*", Text(inner) + Text(rest));
      Within(s, i + 2, Text(inner), Text(rest));
      ScanStep(s, i, depth);
      ScanPassesBody(s, i + 2, depth + 1, inner);
      ScanPassesBody(s, i + 2 + |Text(inner)|, depth, rest);
  }

  lemma ScanStep(s: string, i: nat, depth: nat)
    requires i < |s| && depth > 0
    ensures StartsAt(s, "/*", i) ==> i + 2 <= |s| && BlockScan(s, i, depth) == BlockScan(s, i + 2, depth + 1)
    ensures StartsAt(s, "*/", i) ==> i + 2 <= |s| && BlockScan(s, i, depth) == BlockScan(s, i + 2, depth - 1)
    ensures Plain2(s, i) ==> BlockScan(s, i, depth) == BlockScan(s, i + 1, depth)
  {
    TwoCharacters(s, i);
  }

  lemma Fits(s: string, i: nat, t: string)
    requires StartsAt(s, t, i)
    ensures i + |t| <= |s|
  {
  }

  lemma Within(s: string, i: nat, a: string, b: string)
    requires StartsAt(s, a + b, i)
    ensures i + |a| + |b| <= |s| && StartsAt(s, a, i) && StartsAt(s, b, i + |a|)
  {
    assert s[i..i + |a|] == (a + b)[..|a|] == a;
    assert s[i + |a|..i + |a| + |b|] == (a + b)[|a|..] == b;
  }

  lemma CharactersAt(s: string, i: nat, t: string)
    requires StartsAt(s, t, i)
    ensures i + |t| <= |s| && forall k | 0 <= k < |t| :: s[i + k] == t[k]
    ensures t != [] ==> s[i] == t[0]
  {
    forall k | 0 <= k < |t| ensures s[i + k] == t[k] {
      assert s[i..i + |t|][k] == s[i + k];
    }
    assert t != [] ==> s[i..i + |t|][0] == s[i];
  }

  lemma StartsWithBoth(s: string, i: nat, a: string, b: string)
    requires StartsAt(s, a, i) && StartsAt(s, b, i + |a|)
    ensures StartsAt(s, a + b, i)
  {
    assert s[i..i + |a| + |b|] == s[i..i + |a|] + s[i + |a|..i + |a| + |b|];
  }

  /** The scan from `i` passes over `body`, which is spelled there, and leaves one depth. */
  predicate PassesOver(s: string, i: nat, depth: nat, body: Body)
    requires i <= |s| && depth > 0
  {
    && Readable(body) && StartsAt(s, Text(body), i) && i + |Text(body)| <= |s|
    && BlockScan(s, i, depth) == BlockScan(s, i + |Text(body)|, depth - 1)
  }

  /** Conversely, a scan that closes has passed over a readable body. */
  lemma {:induction false} ClosedScanHasBody(s: string, i: nat, depth: nat) returns (body: Body)
    requires i <= |s| && depth > 0 && BlockScan(s, i, depth).1 == 0
    ensures PassesOver(s, i, depth, body)
    decreases |s| - i
  {
    hide StartsAt, PassesOver, Text;
    if StartsAt(s, "/*", i) {
      Fits(s, i, "/*");
      var inner := ClosedScanHasBody(s, i + 2, depth + 1);
      BehindBody(s, i + 2, depth + 1, inner);
      var rest := ClosedScanHasBody(s, i + 2 + |Text(inner)|, depth);
      InnerPasses(s, i, depth, inner, rest);
      body := Inner(inner, rest);
    } else if StartsAt(s, "*/", i) {
      ClosePasses(s, i, depth);
      body := Close;
    } else {
      var rest := ClosedScanHasBody(s, i + 1, depth);
      MarkPasses(s, i, depth, rest);
      body := Mark(s[i], rest);
    }
  }

  lemma BehindBody(s: string, i: nat, depth: nat, body: Body)
    requires i <= |s| && depth > 0 && PassesOver(s, i, depth, body)
    ensures i < i + |Text(body)| <= |s| && BlockScan(s, i, depth) == BlockScan(s, i + |Text(body)|, depth - 1)
  {
    hide Text, StartsAt, BlockScan, Readable;
    TextIsLong(body);
  }

  lemma InnerPasses(s: string, i: nat, depth: nat, inner: Body, rest: Body)
    requires i + 2 <= |s| && depth > 0 && StartsAt(s, "/*", i)
    requires PassesOver(s, i + 2, depth + 1, inner)
    requires i + 2 + |Text(inner)| <= |s| && PassesOver(s, i + 2 + |Text(inner)|, depth, rest)
    ensures PassesOver(s, i, depth, Inner(inner, rest))
  {
    hide StartsAt;
    StartsWithBoth(s, i + 2, Text(inner), Text(rest));
    StartsWithBoth(s, i, "/*", Text(inner) + Text(rest));
  }

  lemma ClosePasses(s: string, i: nat, depth: nat)
    requires i <= |s| && depth > 0 && StartsAt(s, "*/", i)
    ensures PassesOver(s, i, depth, Close)
  {
    hide StartsAt;
    Fits(s, i, "*/");
    TwoCharacters(s, i);
  }

  lemma MarkPasses(s: string, i: nat, depth: nat, rest: Body)
    requires i < |s| && depth > 0 && Plain2(s, i)
    requires PassesOver(s, i + 1, depth, rest)
    ensures PassesOver(s, i, depth, Mark(s[i], rest))
  {
    hide StartsAt;
    OneCharacter(s, i);
    TextIsLong(rest);
    StartsWithBoth(s, i, [s[i]], Text(rest));
    SameDelimiters(s, i, [s[i]] + Text(rest));
  }

  lemma OneCharacter(s: string, i: nat)
    requires i < |s|
    ensures StartsAt(s, [s[i]], i)
  {
  }

  /** The inside of a block comment, with balanced, nested delimiters, is spelled at `i`. */
  predicate IsBodyAt(s: string, i: nat, body: Body) {
    Readable(body) && StartsAt(s, Text(body), i)
  }

  /** A comment's inside from `from` on, closing delimiter included, ends at `end`. */
  ghost predicate BodyEnds(s: string, from: nat, end: nat) {
    exists body :: IsBodyAt(s, from, body) && end == from + |Text(body)|
  }

  ghost predicate NoBody(s: string, from: nat) {
    forall body :: !IsBodyAt(s, from, body)
  }

  lemma ScanEndsWithBody(s: string, from: nat, end: nat)
    requires from <= |s|
    ensures BlockScan(s, from, 1).0 == end <==> BodyEnds(s, from, end) || (end == |s| && NoBody(s, from))
  {
    hide StartsAt, Readable, Text;
    if BlockScan(s, from, 1).1 == 0 {
      var body := ClosedScanHasBody(s, from, 1);
      assert IsBodyAt(s, from, body);
    }
    forall body | IsBodyAt(s, from, body) ensures BlockScan(s, from, 1) == (from + |Text(body)|, 0) {
      Fits(s, from, Text(body));
      ScanPassesBody(s, from, 1, body);
    }
  }

  /** A block comment is blanked through the closing delimiter that balances its opening, nested
      comments included; and to the end of the text if no delimiter does. */
  lemma BlockCommentsNest(s: string, i: nat, end: nat)
    requires StartsAt(s, "/*", i)
    ensures BlockCommentEnd(s, i) == end <==> BodyEnds(s, i + 2, end) || (end == |s| && NoBody(s, i + 2))
  {
    Fits(s, i, "/*");
    ScanEndsWithBody(s, i + 2, end);
  }

  // ---- Quoted literals ---------------------------------------------------------------------------------

  /** The inside of a quoted literal: plain characters and backslash pairs. */
  datatype Literal = Closed | Plain(c: char, rest: Literal) | Escape(c: char, rest: Literal)

  function Spelling(literal: Literal, quote: char): string {
    match literal
    case Closed => [quote]
    case Plain(c, rest) => [c] + Spelling(rest, quote)
    case Escape(c, rest) => ['\\', c] + Spelling(rest, quote)
  }

  predicate Unquoted(literal: Literal, quote: char) {
    match literal
    case Closed => true
    case Plain(c, rest) => c != quote && c != '\\' && Unquoted(rest, quote)
    case Escape(_, rest) => Unquoted(rest, quote)
  }

  lemma {:induction false} ScanPassesLiteral(s: string, i: nat, quote: char, literal: Literal)
    requires quote != '\\' && Unquoted(literal, quote) && StartsAt(s, Spelling(literal, quote), i)
    ensures QuotedScan(s, i, quote) == i + |Spelling(literal, quote)|
    decreases literal
  {
    hide StartsAt;
    match literal
    case Closed =>
      CharactersAt(s, i, [quote]);
    case Plain(c, rest) =>
      Within(s, i, [c], Spelling(rest, quote));
      CharactersAt(s, i, [c]);
      ScanPassesLiteral(s, i + 1, quote, rest);
    case Escape(c, rest) =>
      Within(s, i, ['\\', c], Spelling(rest, quote));
      CharactersAt(s, i, ['\\', c]);
      ScanPassesLiteral(s, i + 2, quote, rest);
  }

  lemma {:induction false} ScanFindsLiteral(s: string, i: nat, quote: char) returns (literal: Option<Literal>)
    requires quote != '\\' && i <= |s|
    ensures literal.Some? ==> Unquoted(literal.value, quote)
                              && s[i..QuotedScan(s, i, quote)] == Spelling(literal.value, quote)
    ensures literal.None? ==> QuotedScan(s, i, quote) == |s|
    decreases |s| - i
  {
    var end := QuotedScan(s, i, quote);
    if i == |s| || (s[i] == '\\' && i + 2 > |s|) {
      literal := None;
    } else if s[i] == '\\' {
      literal := ScanFindsLiteral(s, i + 2, quote);
      if literal.Some? {
        assert s[i..end] == ['\\', s[i + 1]] + s[i + 2..end];
        literal := Some(Escape(s[i + 1], literal.value));
      }
    } else if s[i] == quote {
      literal := Some(Closed);
    } else {
      literal := ScanFindsLiteral(s, i + 1, quote);
      if literal.Some? {
        assert s[i..end] == [s[i]] + s[i + 1..end];
        literal := Some(Plain(s[i], literal.value));
      }
    }
  }

  /** The literal is spelled at `i`. */
  predicate IsLiteralAt(s: string, i: nat, quote: char, literal: Literal) {
    Unquoted(literal, quote) && StartsAt(s, Spelling(literal, quote), i)
  }

  /** A literal's inside from `from` on, closing quote included, ends at `end`. */
  ghost predicate LiteralEnds(s: string, from: nat, quote: char, end: nat) {
    exists literal :: IsLiteralAt(s, from, quote, literal) && end == from + |Spelling(literal, quote)|
  }

  ghost predicate NoLiteral(s: string, from: nat, quote: char) {
    forall literal :: !IsLiteralAt(s, from, quote, literal)
  }

  /** A quoted scan stops right behind the literal that starts where it began, whose backslashes
      pair up; and at the end of the text if no such literal starts there. */
  lemma QuotedLiteralsEscape(s: string, i: nat, quote: char, end: nat)
    requires quote != '\\' && i <= |s|
    ensures QuotedScan(s, i, quote) == end <==> LiteralEnds(s, i, quote, end) || (end == |s| && NoLiteral(s, i, quote))
  {
    var found := ScanFindsLiteral(s, i, quote);
    if found.Some? {
      assert IsLiteralAt(s, i, quote, found.value);
    }
    forall literal | IsLiteralAt(s, i, quote, literal)
      ensures QuotedScan(s, i, quote) == i + |Spelling(literal, quote)|
    {
      ScanPassesLiteral(s, i, quote, literal);
    }
  }

  // ---- Raw strings ----------------------------------------------------------------------------------------

  /** A raw string opens at `i` with this prefix and so many hashes, not glued to a preceding word. */
  predicate OpensRawString(s: string, alnum: Alphanumerics, i: nat, prefix: string, hashes: nat) {
    && prefix in {"r", "br"} && StartsAt(s, prefix + (Hashes(hashes) + "\""), i)
    && (i == 0 || (s[i - 1] !in alnum && s[i - 1] != '_'))
  }

  function ClosingOf(hashes: nat): string {
    "\"" + Hashes(hashes)
  }

  /** The first closing delimiter at or behind `from` stands at `at`. */
  ghost predicate FirstAt(s: string, closing: string, from: nat, at: nat) {
    from <= at && StartsAt(s, closing, at) && forall k: nat | from <= k < at :: !StartsAt(s, closing, k)
  }

  ghost predicate Nowhere(s: string, closing: string, from: nat) {
    forall k: nat | from <= k :: !StartsAt(s, closing, k)
  }

  /** A raw string is blanked up to the first quote that carries as many hashes as its opening, backslashes
      and shorter quotes inside notwithstanding; and to the end of the text if there is none. */
  lemma RawStringsEndAtTheirDelimiter(s: string, alnum: Alphanumerics, i: nat, prefix: string, hashes: nat, end: nat)
    requires OpensRawString(s, alnum, i, prefix, hashes)
    ensures var inside := i + |prefix| + hashes + 1;
            i < |s| && (RegionEnd(s, alnum, i) == end
            <==> (exists at: nat :: FirstAt(s, ClosingOf(hashes), inside, at) && end == at + hashes + 1)
                 || (end == |s| && Nowhere(s, ClosingOf(hashes), inside)))
  {
    hide Find, HashCount, QuotedScan, StartsAt, RawStringDelimiter;
    var inside := i + |prefix| + hashes + 1;
    RawStringOpens(s, alnum, i, prefix, hashes);
    ClosingIsFound(s, inside, ClosingOf(hashes));
    TwoCharacters(s, i);
  }

  lemma ClosingIsFound(s: string, from: nat, closing: string)
    requires from <= |s|
    ensures forall at: nat :: Find(s, closing, from, |s|) == Some(at) <==> FirstAt(s, closing, from, at)
    ensures Find(s, closing, from, |s|).None? <==> Nowhere(s, closing, from)
  {
    hide Find;
  }

  /** The scanner sees a raw string exactly where one opens. */
  lemma RawStringsOpen(s: string, alnum: Alphanumerics, i: nat)
    requires i <= |s|
    ensures RawStringDelimiter(s, alnum, i).Some?
            <==> exists prefix, hashes: nat :: OpensRawString(s, alnum, i, prefix, hashes)
  {
    hide HashCount, StartsAt;
    var prefix := if StartsAt(s, "br", i) then "br" else "r";
    if RawStringDelimiter(s, alnum, i).Some? {
      Fits(s, i, prefix);
      var hashes := HashCount(s, i + |prefix|);
      HashesAndQuote(s, i + |prefix|, hashes);
      StartsWithBoth(s, i, prefix, Hashes(hashes) + "\"");
      assert OpensRawString(s, alnum, i, prefix, hashes);
    }
    forall prefix, hashes: nat | OpensRawString(s, alnum, i, prefix, hashes)
      ensures RawStringDelimiter(s, alnum, i).Some?
    {
      RawStringOpens(s, alnum, i, prefix, hashes);
    }
  }

  lemma HashesAndQuote(s: string, i: nat, hashes: nat)
    requires i + hashes < |s| && s[i..i + hashes] == Hashes(hashes) && s[i + hashes] == '"'
    ensures StartsAt(s, Hashes(hashes) + "\"", i)
  {
    assert s[i..i + hashes + 1] == s[i..i + hashes] + [s[i + hashes]];
  }

  lemma RawStringOpens(s: string, alnum: Alphanumerics, i: nat, prefix: string, hashes: nat)
    requires OpensRawString(s, alnum, i, prefix, hashes)
    ensures i < |s| && s[i] == prefix[0]
    ensures RawStringDelimiter(s, alnum, i) == Some((i + |prefix| + hashes + 1, ClosingOf(hashes)))
  {
    hide StartsAt, HashCount, Hashes;
    OpeningParts(s, i, prefix, hashes);
    if prefix == "r" {
      NoBytePrefix(s, i);
    }
  }

  lemma OpeningParts(s: string, i: nat, prefix: string, hashes: nat)
    requires prefix != [] && StartsAt(s, prefix + (Hashes(hashes) + "\""), i)
    ensures i < |s| && StartsAt(s, prefix, i) && s[i] == prefix[0]
    ensures i + |prefix| + hashes < |s| && s[i + |prefix| + hashes] == '"'
    ensures HashCount(s, i + |prefix|) == hashes
  {
    hide StartsAt, HashCount, Hashes;
    Within(s, i, prefix, Hashes(hashes) + "\"");
    Within(s, i + |prefix|, Hashes(hashes), "\"");
    CharactersAt(s, i + |prefix| + hashes, "\"");
    CharactersAt(s, i, prefix);
    HashesCounted(s, i + |prefix|, hashes);
  }

  lemma NoBytePrefix(s: string, i: nat)
    requires i < |s| && s[i] != 'b'
    ensures !StartsAt(s, "br", i)
  {
    if StartsAt(s, "br", i) {
      CharactersAt(s, i, "br");
    }
  }

  lemma {:induction false} HashesCounted(s: string, i: nat, hashes: nat)
    requires StartsAt(s, Hashes(hashes), i) && i + hashes < |s| && s[i + hashes] != '#'
    ensures HashCount(s, i) == hashes
    decreases hashes
  {
    if hashes > 0 {
      CharactersAt(s, i, Hashes(hashes));
      assert Hashes(hashes) == ['#'] + Hashes(hashes - 1);
      Within(s, i, ['#'], Hashes(hashes - 1));
      HashesCounted(s, i + 1, hashes - 1);
    }
  }

  // ---- The regions of a text -----------------------------------------------------------------------------

  /** A line comment is blanked up to the first newline behind its slashes, and to the end of the text if none
      follows. */
  lemma LineCommentsEndWithTheLine(s: string, alnum: Alphanumerics, i: nat, end: nat)
    requires StartsAt(s, "//", i)
    ensures i < |s|
    ensures RegionEnd(s, alnum, i) == end <==> FirstAt(s, "\n", i + 2, end) || (end == |s| && Nowhere(s, "\n", i + 2))
  {
    hide Find, StartsAt, QuotedScan, RawStringDelimiter, BlockCommentEnd;
    Fits(s, i, "//");
    ClosingIsFound(s, i + 2, "\n");
  }

  /** A block comment is blanked through the delimiter that balances its opening, and to the end of the text if none
      does. */
  lemma BlockCommentsAreRegions(s: string, alnum: Alphanumerics, i: nat, end: nat)
    requires StartsAt(s, "/*", i)
    ensures i < |s|
    ensures RegionEnd(s, alnum, i) == end <==> BodyEnds(s, i + 2, end) || (end == |s| && NoBody(s, i + 2))
  {
    hide StartsAt, QuotedScan, RawStringDelimiter, BlockCommentEnd, LineCommentEnd;
    Fits(s, i, "/*");
    TwoCharacters(s, i);
    BlockCommentsNest(s, i, end);
  }

  /** A string is blanked through its closing quote, and to the end of the text if it has none. */
  lemma StringsAreRegions(s: string, alnum: Alphanumerics, i: nat, end: nat)
    requires i < |s| && s[i] == '"'
    ensures RegionEnd(s, alnum, i) == end
            <==> LiteralEnds(s, i + 1, '"', end) || (end == |s| && NoLiteral(s, i + 1, '"'))
  {
    hide StartsAt, QuotedScan, BlockCommentEnd, LineCommentEnd, LiteralEnds, NoLiteral;
    TwoCharacters(s, i);
    QuotedLiteralsEscape(s, i + 1, '"', end);
  }

  /** An apostrophe looks like a character literal if the character after the next one is an apostrophe; or, behind a
      backslash, if one stands from three to eleven characters on. */
  predicate IsCharacterLiteral(s: string, i: nat) {
    && i + 2 < |s|
    && if s[i + 1] == '\\' then exists j | i + 3 <= j < i + 12 && j < |s| :: s[j] == '\'' else s[i + 2] == '\''
  }

  lemma CharacterLiteralsMean(s: string, i: nat)
    requires i < |s|
    ensures LooksLikeCharacterLiteral(s, i) <==> IsCharacterLiteral(s, i)
  {
    hide Find, StartsAt;
    if i + 2 < |s| && s[i + 1] == '\\' {
      var limit: nat := if |s| <= i + 12 then |s| else i + 12;
      forall j: nat ensures StartsAt(s, "'", j) <==> j < |s| && s[j] == '\'' {
        OneCharacterAt(s, '\'', j);
      }
    }
  }

  /** A character literal is blanked through its closing apostrophe, and to the end of the text if it has none. */
  lemma CharactersAreRegions(s: string, alnum: Alphanumerics, i: nat, end: nat)
    requires i < |s| && s[i] == '\'' && IsCharacterLiteral(s, i)
    ensures RegionEnd(s, alnum, i) == end
            <==> LiteralEnds(s, i + 1, '\'', end) || (end == |s| && NoLiteral(s, i + 1, '\''))
  {
    hide StartsAt, QuotedScan, BlockCommentEnd, LineCommentEnd, LiteralEnds, NoLiteral, LooksLikeCharacterLiteral;
    TwoCharacters(s, i);
    CharacterLiteralsMean(s, i);
    QuotedLiteralsEscape(s, i + 1, '\'', end);
  }

  /** Anything else is code. */
  lemma TheRestIsCode(s: string, alnum: Alphanumerics, i: nat)
    requires i < |s| && !StartsAt(s, "//", i) && !StartsAt(s, "/*", i) && s[i] != '"'
    requires !(s[i] == '\'' && IsCharacterLiteral(s, i))
    requires forall prefix, hashes: nat :: !OpensRawString(s, alnum, i, prefix, hashes)
    ensures RegionEnd(s, alnum, i) == i
  {
    hide StartsAt, RawStringDelimiter, LooksLikeCharacterLiteral, OpensRawString;
    RawStringsOpen(s, alnum, i);
    CharacterLiteralsMean(s, i);
  }

  /** The scanner's output: a blank, or the newline that was there, in the regions it comes to, and the source's own
      character elsewhere. */
  lemma OutputIsBlankedInRegions(s: string, alnum: Alphanumerics, k: nat)
    requires k < |s|
    ensures |Sanitized(s, alnum)| == |s|
    ensures Sanitized(s, alnum)[k] == if InRegion(s, alnum, 0, k) && s[k] != '\n' then ' ' else s[k]
  {
    hide Sanitized, IsCode, InRegion;
    CodeSurvives(s, alnum, k);
    CodeIsOutsideRegions(s, alnum, 0, k);
  }
}
