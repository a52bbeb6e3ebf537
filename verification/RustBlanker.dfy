/** The boundary checker's scanner: it blanks comments and string, raw-string and character literals
    of a Rust source in place, keeping every newline where it was. */
module RustBlanker {
  import opened Texts
  import opened Wrappers

  /** The characters Python's `isalnum` accepts; the laws hold for any such set. */
  type Alphanumerics = set<char>

  // ---- Text primitives -------------------------------------------------------------------------

  /** The first occurrence of `part` that lies within positions `from..limit`. */
  function Find(s: string, part: string, from: nat, limit: nat): (r: Option<nat>)
    requires limit <= |s|
    ensures r.Some? ==> from <= r.value && r.value + |part| <= limit && StartsAt(s, part, r.value)
    ensures forall i: nat | from <= i && i + |part| <= limit && StartsAt(s, part, i) :: r.Some? && r.value <= i
    decreases |s| - from + |part|
  {
    if from + |part| > limit then None
    else if StartsAt(s, part, from) then Some(from)
    else Find(s, part, from + 1, limit)
  }

  function Blanked(s: string): (r: string)
    ensures |r| == |s|
    ensures forall i | 0 <= i < |s| :: r[i] == if s[i] == '\n' then '\n' else ' '
  {
    if s == [] then [] else [if s[0] == '\n' then '\n' else ' '] + Blanked(s[1..])
  }

  function Hashes(n: nat): (r: string)
    ensures |r| == n && forall i | 0 <= i < n :: r[i] == '#'
  {
    seq(n, _ => '#')
  }

  // ---- Where a comment or literal ends --------------------------------------------------------

  function LineCommentEnd(s: string, i: nat): (end: nat)
    requires StartsAt(s, "//", i)
    ensures i < end <= |s|
  {
    match Find(s, "\n", i + 2, |s|)
    case Some(end) => end
    case None => |s|
  }

  /** Scans the inside of a block comment at nesting `depth`; stops at depth zero or at the end. */
  function BlockScan(s: string, i: nat, depth: nat): (r: (nat, nat))
    requires i <= |s|
    ensures i <= r.0 <= |s| && (r.1 == 0 || r.0 == |s|)
    decreases |s| - i
  {
    if i == |s| || depth == 0 then (i, depth)
    else if StartsAt(s, "/*", i) then BlockScan(s, i + 2, depth + 1)
    else if StartsAt(s, "*/", i) then BlockScan(s, i + 2, depth - 1)
    else BlockScan(s, i + 1, depth)
  }

  function BlockCommentEnd(s: string, i: nat): (end: nat)
    requires StartsAt(s, "/*", i)
    ensures i < end <= |s|
  {
    BlockScan(s, i + 2, 1).0
  }

  /** Scans a quoted literal from inside it; a backslash hides the next character. */
  function QuotedScan(s: string, i: nat, quote: char): (end: nat)
    requires i <= |s|
    ensures i <= end <= |s|
    decreases |s| - i
  {
    if i == |s| then i
    else if s[i] == '\\' then (if i + 2 <= |s| then QuotedScan(s, i + 2, quote) else |s|)
    else if s[i] == quote then i + 1
    else QuotedScan(s, i + 1, quote)
  }

  function HashCount(s: string, i: nat): (n: nat)
    requires i <= |s|
    ensures i + n <= |s| && (i + n < |s| ==> s[i + n] != '#')
    ensures s[i..i + n] == Hashes(n)
    decreases |s| - i
  {
    if i < |s| && s[i] == '#' then 1 + HashCount(s, i + 1) else 0
  }

  /** The position after the opening delimiter of a raw string at `i`, and its closing delimiter. */
  function RawStringDelimiter(s: string, alnum: Alphanumerics, i: nat): (r: Option<(nat, string)>)
    requires i <= |s|
    ensures r.Some? ==> i + 2 <= r.value.0 <= |s| && '"' in s[i..] && s[i] in {'b', 'r'}
  {
    var afterPrefix := if StartsAt(s, "br", i) then i + 2 else if StartsAt(s, "r", i) then i + 1 else i;
    if afterPrefix == i then None
    else
      var hashes := HashCount(s, afterPrefix);
      var quote := afterPrefix + hashes;
      if quote >= |s| || s[quote] != '"' then None
      else if i > 0 && (s[i - 1] in alnum || s[i - 1] == '_') then None
      else assert s[i..][quote - i] == '"'; Some((quote + 1, "\"" + Hashes(hashes)))
  }

  function RawStringEnd(s: string, delimiter: (nat, string)): (end: nat)
    requires delimiter.0 <= |s|
    ensures delimiter.0 <= end <= |s|
  {
    match Find(s, delimiter.1, delimiter.0, |s|)
    case Some(at) => at + |delimiter.1|
    case None => |s|
  }

  predicate LooksLikeCharacterLiteral(s: string, i: nat)
    requires i < |s|
  {
    if i + 2 >= |s| then false
    else if s[i + 1] == '\\' then Find(s, "'", i + 3, if |s| <= i + 12 then |s| else i + 12).Some?
    else s[i + 2] == '\''
  }

  /** The end of the comment or literal that starts at `i`; `i` itself when code starts there. */
  function RegionEnd(s: string, alnum: Alphanumerics, i: nat): (end: nat)
    requires i < |s|
    ensures i <= end <= |s|
  {
    if StartsAt(s, "//", i) then LineCommentEnd(s, i)
    else if StartsAt(s, "/*", i) then BlockCommentEnd(s, i)
    else
      var raw := RawStringDelimiter(s, alnum, i);
      if raw.Some? then RawStringEnd(s, raw.value)
      else if s[i] == '"' then QuotedScan(s, i + 1, '"')
      else if s[i] == '\'' && LooksLikeCharacterLiteral(s, i) then QuotedScan(s, i + 1, '\'')
      else i
  }

  /** What the scanner leaves of `s[i..]` when it stands at `i` outside every comment and literal. */
  function SanitizedFrom(s: string, alnum: Alphanumerics, i: nat): (r: string)
    requires i <= |s|
    ensures |r| == |s| - i
    decreases |s| - i
  {
    if i == |s| then []
    else
      var end := RegionEnd(s, alnum, i);
      if end > i then Blanked(s[i..end]) + SanitizedFrom(s, alnum, end)
      else [s[i]] + SanitizedFrom(s, alnum, i + 1)
  }

  function Sanitized(s: string, alnum: Alphanumerics): (r: string)
    ensures |r| == |s|
  {
    SanitizedFrom(s, alnum, 0)
  }

  // ---- The scanner ------------------------------------------------------------------------------

  /** Overwrites `output[start..end]` with blanks, newlines excepted. */
  method Blank(output: array<char>, start: nat, end: nat)
    requires start <= end <= output.Length
    modifies output
    ensures output[..start] == old(output[..start])
    ensures output[start..end] == Blanked(old(output[start..end]))
    ensures output[end..] == old(output[end..])
  {
    hide Blanked;
    ghost var was := output[..];
    for index := start to end
      invariant forall k | 0 <= k < output.Length ::
        output[k] == if start <= k < index && was[k] != '\n' then ' ' else was[k]
    {
      if output[index] != '\n' {
        output[index] := ' ';
      }
    }
    BlankedBetween(was, output[..], start, end);
  }

  lemma BlankedBetween(was: string, now: string, start: nat, end: nat)
    requires start <= end <= |was| == |now|
    requires forall k | 0 <= k < |was| :: now[k] == if start <= k < end && was[k] != '\n' then ' ' else was[k]
    ensures now[..start] == was[..start] && now[start..end] == Blanked(was[start..end]) && now[end..] == was[end..]
  {
    hide Blanked;
  }

  lemma StartsInside(s: string, part: string, i: nat)
    ensures StartsAt(s, part, i) ==> i + |part| <= |s|
  {
  }

  /** The scan over a block comment, from its opening delimiter at `start`. */
  method ScanBlockComment(source: string, start: nat) returns (index: nat)
    requires StartsAt(source, "/*", start)
    ensures index == BlockCommentEnd(source, start)
  {
    hide StartsAt;
    StartsInside(source, "/*", start);
    index := start + 2;
    var depth := 1;
    while index < |source| && depth > 0
      invariant index <= |source|
      invariant BlockScan(source, start + 2, 1) == BlockScan(source, index, depth)
      decreases |source| - index
    {
      StartsInside(source, "/*", index);
      StartsInside(source, "*/", index);
      if StartsAt(source, "/*", index) {
        depth := depth + 1;
        index := index + 2;
      } else if StartsAt(source, "*/", index) {
        depth := depth - 1;
        index := index + 2;
      } else {
        index := index + 1;
      }
    }
  }

  /** The scan over a string or character literal, from its opening quote at `start`. */
  method ScanQuoted(source: string, start: nat, quote: char) returns (index: nat)
    requires start < |source|
    ensures index == QuotedScan(source, start + 1, quote)
  {
    index := start + 1;
    while index < |source|
      invariant index <= |source| + 1
      invariant QuotedScan(source, start + 1, quote)
                == if index <= |source| then QuotedScan(source, index, quote) else |source|
    {
      if source[index] == '\\' {
        index := index + 2;
      } else if source[index] == quote {
        return index + 1;
      } else {
        index := index + 1;
      }
    }
    index := if index <= |source| then index else |source|;
  }

  lemma HashStep(s: string, i: nat)
    requires i <= |s|
    ensures HashCount(s, i) == if i < |s| && s[i] == '#' then 1 + HashCount(s, i + 1) else 0
  {
  }

  method CountHashes(source: string, start: nat) returns (hashes: nat)
    requires start <= |source|
    ensures hashes == HashCount(source, start)
  {
    hide HashCount, Hashes;
    hashes := 0;
    while start + hashes < |source| && source[start + hashes] == '#'
      invariant start + hashes <= |source|
      invariant HashCount(source, start) == hashes + HashCount(source, start + hashes)
    {
      HashStep(source, start + hashes);
      hashes := hashes + 1;
    }
    HashStep(source, start + hashes);
  }

  /** The opening of a raw string at `start`, if one is there. */
  method FindRawStringDelimiter(source: string, alnum: Alphanumerics, start: nat) returns (r: Option<(nat, string)>)
    requires start <= |source|
    ensures r == RawStringDelimiter(source, alnum, start)
  {
    hide StartsAt, HashCount, Hashes;
    StartsInside(source, "br", start);
    StartsInside(source, "r", start);
    var index := start;
    if StartsAt(source, "br", index) {
      index := index + 2;
    } else if StartsAt(source, "r", index) {
      index := index + 1;
    } else {
      return None;
    }
    var hashes := CountHashes(source, index);
    index := index + hashes;
    if index >= |source| || source[index] != '"' {
      return None;
    }
    if start > 0 && (source[start - 1] in alnum || source[start - 1] == '_') {
      return None;
    }
    r := Some((index + 1, "\"" + Hashes(hashes)));
  }

  /** `output` is done up to `i` and untouched from there on. */
  ghost predicate DoneTo(output: string, s: string, alnum: Alphanumerics, i: nat) {
    && i <= |s| == |output|
    && output[i..] == s[i..]
    && output[..i] == Sanitized(s, alnum)[..i]
    && SanitizedFrom(s, alnum, i) == Sanitized(s, alnum)[i..]
  }

  /** What one step of the scanner writes over `s[i..next]`. */
  function Written(s: string, alnum: Alphanumerics, i: nat): (r: string)
    requires i < |s|
    ensures 0 < |r| <= |s| - i
  {
    var end := RegionEnd(s, alnum, i);
    if end > i then Blanked(s[i..end]) else [s[i]]
  }

  lemma Unfold(s: string, alnum: Alphanumerics, i: nat)
    requires i < |s|
    ensures SanitizedFrom(s, alnum, i) == Written(s, alnum, i) + SanitizedFrom(s, alnum, i + |Written(s, alnum, i)|)
  {
    hide RegionEnd, Blanked;
    SanitizedUnfolds(s, alnum, i);
    hide SanitizedFrom;
    var end := RegionEnd(s, alnum, i);
    if end > i {
      assert |Blanked(s[i..end])| == end - i;
    }
  }

  lemma SanitizedUnfolds(s: string, alnum: Alphanumerics, i: nat)
    requires i < |s|
    ensures var end := RegionEnd(s, alnum, i);
            SanitizedFrom(s, alnum, i)
            == if end > i then Blanked(s[i..end]) + SanitizedFrom(s, alnum, end)
               else [s[i]] + SanitizedFrom(s, alnum, i + 1)
  {
    hide RegionEnd, Blanked;
  }

  lemma Peel(whole: string, i: nat, piece: string, rest: string)
    requires i <= |whole| && whole[i..] == piece + rest
    ensures |whole| == i + |piece| + |rest|
    ensures whole[i..i + |piece|] == piece && whole[i + |piece|..] == rest
    ensures whole[..i + |piece|] == whole[..i] + piece
  {
    assert whole == whole[..i] + (piece + rest);
  }

  lemma Step(was: string, output: string, s: string, alnum: Alphanumerics, i: nat)
    requires i < |s| && DoneTo(was, s, alnum, i)
    requires output == was[..i] + Written(s, alnum, i) + was[i + |Written(s, alnum, i)|..]
    ensures DoneTo(output, s, alnum, i + |Written(s, alnum, i)|)
  {
    hide Written, Sanitized, SanitizedFrom;
    var piece := Written(s, alnum, i);
    var rest := SanitizedFrom(s, alnum, i + |piece|);
    Unfold(s, alnum, i);
    Peel(Sanitized(s, alnum), i, piece, rest);
    Peel(was, i, s[i..i + |piece|], s[i + |piece|..]);
    assert output[..i + |piece|] == was[..i] + piece;
  }

  lemma StepWrites(was: string, s: string, alnum: Alphanumerics, i: nat)
    requires i < |s| && DoneTo(was, s, alnum, i)
    ensures var end := RegionEnd(s, alnum, i);
            if end > i then Written(s, alnum, i) == Blanked(was[i..end]) && |Written(s, alnum, i)| == end - i
            else Written(s, alnum, i) == [s[i]] && was == was[..i] + [s[i]] + was[i + 1..]
  {
    hide RegionEnd, SanitizedFrom, Sanitized;
    var end := RegionEnd(s, alnum, i);
    if end > i {
      Peel(was, i, s[i..end], s[end..]);
    } else {
      Peel(was, i, [s[i]], s[i + 1..]);
    }
  }

  /** Blanks every comment and literal of `source`, one after the other, in a copy of it. */
  method RustCodeWithoutCommentsOrLiterals(source: string, alnum: Alphanumerics) returns (code: string)
    ensures code == Sanitized(source, alnum)
  {
    hide SanitizedFrom, RegionEnd, Written, Blanked;
    var output := new char[|source|](i requires 0 <= i < |source| => source[i]);
    var index := 0;
    assert output[..] == source;
    while index < |source|
      invariant DoneTo(output[..], source, alnum, index)
      decreases |source| - index
    {
      var end := FindRegionEnd(source, alnum, index);
      ghost var was := output[..];
      StepWrites(was, source, alnum, index);
      if end > index {
        Blank(output, index, end);
        assert output[..] == output[..index] + output[index..end] + output[end..];
        Step(was, output[..], source, alnum, index);
        index := end;
      } else {
        Step(was, output[..], source, alnum, index);
        index := index + 1;
      }
    }
    code := output[..];
  }

  /** Which comment or literal starts at `index`, and where it ends. */
  method FindRegionEnd(source: string, alnum: Alphanumerics, index: nat) returns (end: nat)
    requires index < |source|
    ensures end == RegionEnd(source, alnum, index)
  {
    if StartsAt(source, "//", index) {
      var newline := Find(source, "\n", index + 2, |source|);
      return if newline.None? then |source| else newline.value;
    }
    if StartsAt(source, "/*", index) {
      end := ScanBlockComment(source, index);
      return;
    }
    var raw := FindRawStringDelimiter(source, alnum, index);
    if raw.Some? {
      var closing := Find(source, raw.value.1, raw.value.0, |source|);
      return if closing.None? then |source| else closing.value + |raw.value.1|;
    }
    if source[index] == '"' {
      end := ScanQuoted(source, index, '"');
      return;
    }
    if source[index] == '\'' && LooksLikeCharacterLiteral(source, index) {
      end := ScanQuoted(source, index, '\'');
      return;
    }
    end := index;
  }
}
