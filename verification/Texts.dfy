/** Text as the code compares and trims it: byte order on strings, whitespace, decimal digits. */
module Texts {
  import opened Wrappers

  /** Strict lexicographic order, the order of `str` in Rust. */
  predicate Before(a: string, b: string) {
    b != [] && (a == [] || a[0] < b[0] || (a[0] == b[0] && Before(a[1..], b[1..])))
  }

  predicate AtMost(a: string, b: string) {
    !Before(b, a)
  }

  lemma {:induction false} BeforeIsTotal(a: string, b: string)
    ensures !(Before(a, b) && Before(b, a))
    ensures a == b <==> !Before(a, b) && !Before(b, a)
  {
    if a != [] && b != [] {
      BeforeIsTotal(a[1..], b[1..]);
      assert a == [a[0]] + a[1..] && b == [b[0]] + b[1..];
    }
  }

  lemma {:induction false} BeforeIsTransitive(a: string, b: string, c: string)
    requires Before(a, b) && Before(b, c)
    ensures Before(a, c)
  {
    if a != [] && a[0] == b[0] == c[0] {
      BeforeIsTransitive(a[1..], b[1..], c[1..]);
    }
  }

  lemma AtMostIsTransitive(a: string, b: string, c: string)
    requires AtMost(a, b) && AtMost(b, c)
    ensures AtMost(a, c)
  {
    if Before(c, a) {
      BeforeIsTotal(a, b);
      BeforeIsTotal(b, c);
      if a != b {
        BeforeIsTransitive(c, a, b);
      }
    }
  }

  /** Texts that begin alike in length compare by their first parts, then by what follows. */
  lemma {:induction false} BeforeByParts(a: string, x: string, b: string, y: string)
    requires |a| == |b|
    ensures Before(a + x, b + y) <==> Before(a, b) || (a == b && Before(x, y))
    decreases |a|
  {
    if a == [] {
      assert a + x == x && b + y == y;
    } else {
      BeforeByParts(a[1..], x, b[1..], y);
      assert (a + x)[1..] == a[1..] + x && (b + y)[1..] == b[1..] + y;
      assert a == [a[0]] + a[1..] && b == [b[0]] + b[1..];
      BeforeIsTotal(a, b);
      BeforeIsTotal(a[1..], b[1..]);
    }
  }

  /** The characters with the Unicode White_Space property. */
  predicate IsSpace(c: char) {
    '\t' <= c <= '\r' || c == ' ' || c == '\U{85}' || c == '\U{A0}' || c == '\U{1680}'
    || '\U{2000}' <= c <= '\U{200A}' || c == '\U{2028}' || c == '\U{2029}' || c == '\U{202F}'
    || c == '\U{205F}' || c == '\U{3000}'
  }

  function TrimStart(s: string): string {
    if s != [] && IsSpace(s[0]) then TrimStart(s[1..]) else s
  }

  function TrimEnd(s: string): string {
    if s != [] && IsSpace(s[|s| - 1]) then TrimEnd(s[..|s| - 1]) else s
  }

  function Trim(s: string): string {
    TrimEnd(TrimStart(s))
  }

  lemma TrimKeeps(s: string)
    requires s != [] && !IsSpace(s[0]) && !IsSpace(s[|s| - 1])
    ensures Trim(s) == s
  {
  }

  lemma {:induction false} TrimStartEnds(s: string)
    ensures TrimStart(s) != [] ==> !IsSpace(TrimStart(s)[0])
  {
    if s != [] && IsSpace(s[0]) {
      TrimStartEnds(s[1..]);
    }
  }

  lemma {:induction false} TrimEndEnds(s: string)
    ensures TrimEnd(s) != [] ==> !IsSpace(TrimEnd(s)[|TrimEnd(s)| - 1]) && s != [] && TrimEnd(s)[0] == s[0]
  {
    if s != [] && IsSpace(s[|s| - 1]) {
      TrimEndEnds(s[..|s| - 1]);
    }
  }

  lemma TrimIsIdempotent(s: string)
    ensures Trim(Trim(s)) == Trim(s)
  {
    hide IsSpace;
    TrimStartEnds(s);
    TrimEndEnds(TrimStart(s));
    if Trim(s) != [] {
      TrimKeeps(Trim(s));
    }
  }

  /** The words of `s` joined by one space; a trailing space is left to `NonBlank`. */
  function CollapseSpaces(s: string): string {
    if s == [] then []
    else
      var init := CollapseSpaces(s[..|s| - 1]);
      var c := s[|s| - 1];
      if IsSpace(c) then
        (if init == [] || init[|init| - 1] == ' ' then init else init + " ")
      else init + [c]
  }

  function NonBlank(s: string): Option<string> {
    var t := Trim(s);
    if t == [] then None else Some(t)
  }

  predicate IsDigit(c: char) {
    '0' <= c <= '9'
  }

  predicate AllDigits(s: string) {
    forall i | 0 <= i < |s| :: IsDigit(s[i])
  }

  predicate StartsAt(s: string, part: string, i: nat) {
    i + |part| <= |s| && s[i..i + |part|] == part
  }

  predicate Contains(s: string, part: string) {
    exists i: nat | i <= |s| :: StartsAt(s, part, i)
  }

  /** The fields of `s` between separators; always at least one. */
  function Split(s: string, separator: char): (fields: seq<string>)
    ensures fields != []
    ensures forall f | f in fields :: separator !in f
  {
    if s == [] then [""]
    else
      var rest := Split(s[1..], separator);
      if s[0] == separator then [""] + rest else [[s[0]] + rest[0]] + rest[1..]
  }

  /** The parts with a comma between any two. */
  function Joined(parts: seq<string>): string {
    if parts == [] then ""
    else if |parts| == 1 then parts[0]
    else Joined(parts[..|parts| - 1]) + "," + parts[|parts| - 1]
  }

  /** The parts before and after the first separator. */
  function SplitOnce(s: string, separator: char): (r: Option<(string, string)>)
    ensures r.Some? ==> s == r.value.0 + [separator] + r.value.1 && separator !in r.value.0
    ensures r.None? ==> separator !in s
  {
    if s == [] then None
    else if s[0] == separator then Some(([], s[1..]))
    else
      match SplitOnce(s[1..], separator)
      case None => None
      case Some((before, after)) => Some(([s[0]] + before, after))
  }

  lemma {:induction false} SplitWithout(s: string, separator: char)
    requires separator !in s
    ensures Split(s, separator) == [s]
  {
    if s != [] {
      SplitWithout(s[1..], separator);
      assert s == [s[0]] + s[1..];
    }
  }

  /** The first field is what stands before the first separator. */
  lemma {:induction false} SplitFirst(first: string, separator: char, rest: string)
    requires separator !in first
    ensures Split(first + [separator] + rest, separator) == [first] + Split(rest, separator)
  {
    var whole := first + [separator] + rest;
    if first == [] {
      assert whole[1..] == rest;
    } else {
      assert whole[1..] == first[1..] + [separator] + rest;
      SplitFirst(first[1..], separator, rest);
      assert [first[0]] + first[1..] == first;
    }
  }

  lemma {:induction false} SplitOnceNowhere(s: string, separator: char)
    requires separator !in s
    ensures SplitOnce(s, separator).None?
  {
    if s != [] {
      SplitOnceNowhere(s[1..], separator);
    }
  }

  lemma {:induction false} SplitOnceAt(before: string, separator: char, after: string)
    requires separator !in before
    ensures SplitOnce(before + [separator] + after, separator) == Some((before, after))
  {
    var whole := before + [separator] + after;
    if before == [] {
      assert whole[1..] == after;
    } else {
      assert whole[1..] == before[1..] + [separator] + after;
      SplitOnceAt(before[1..], separator, after);
      assert [before[0]] + before[1..] == before;
    }
  }
}
