/** The validated texts of the market core: bounded printable text, HTTPS URLs, and form-encoded queries. */
module Validated {
  import opened Texts
  import opened Wrappers

  const MAX_TEXT_CHARS := 16_384
  const MAX_URL_CHARS := 4_096

  /** The control characters of Unicode. */
  predicate IsControl(c: char) {
    c < ' ' || '\U{7F}' <= c <= '\U{9F}'
  }

  predicate Printable(s: string) {
    forall i | 0 <= i < |s| :: !IsControl(s[i])
  }

  /** Text that is not blank, holds no control characters and is not too long; it is kept trimmed. */
  function NonEmptyText(value: string): Option<string> {
    var trimmed := Trim(value);
    if trimmed == [] || !Printable(trimmed) || |trimmed| > MAX_TEXT_CHARS then None else Some(trimmed)
  }

  // ---- URLs -----------------------------------------------------------------------------------------

  const SCHEME := "https://"

  predicate UrlChar(c: char) {
    !IsControl(c) && !IsSpace(c) && c != '\\'
  }

  predicate UrlChars(s: string) {
    forall i | 0 <= i < |s| :: UrlChar(s[i])
  }

  /** What stands before the first slash, question mark or hash. */
  function Authority(s: string): string {
    if s == [] || s[0] in {'/', '?', '#'} then [] else [s[0]] + Authority(s[1..])
  }

  predicate ValidAuthority(authority: string) {
    authority != [] && '@' !in authority && authority[0] != '.'
  }

  function HttpsUrl(value: string): Option<string> {
    var trimmed := Trim(value);
    if |trimmed| > MAX_URL_CHARS || !UrlChars(trimmed) || !StartsAt(trimmed, SCHEME, 0) then None
    else if !ValidAuthority(Authority(trimmed[|SCHEME|..])) then None
    else Some(trimmed)
  }

  lemma {:induction false} AuthorityOf(host: string, path: string)
    requires forall i | 0 <= i < |host| :: host[i] !in {'/', '?', '#'}
    requires path != [] && path[0] == '/'
    ensures Authority(host + path) == host
  {
    var whole := host + path;
    if host == [] {
      assert whole == path;
    } else {
      assert whole[1..] == host[1..] + path;
      AuthorityOf(host[1..], path);
    }
  }

  /** On a fixed good host, a URL is refused for its length or for a character of its path, and for nothing else. */
  lemma UrlsOnAHost(host: string, path: string)
    requires ValidAuthority(host) && UrlChars(host) && forall i | 0 <= i < |host| :: host[i] !in {'/', '?', '#'}
    requires path != [] && path[0] == '/' && !IsSpace(path[|path| - 1])
    ensures var url := SCHEME + host + path;
            HttpsUrl(url) == if |url| <= MAX_URL_CHARS && UrlChars(path) then Some(url) else None
  {
    hide Trim, Authority, UrlChars, IsSpace, ValidAuthority;
    var url := SCHEME + host + path;
    SchemeIsClean();
    assert url[|url| - 1] == path[|path| - 1] && url[0] == SCHEME[0];
    TrimKeeps(url);
    assert url == SCHEME + (host + path);
    AuthorityOf(host, path);
    JoinedUrlChars(SCHEME, host);
    JoinedUrlChars(SCHEME + host, path);
  }

  lemma JoinedUrlChars(a: string, b: string)
    ensures UrlChars(a + b) <==> UrlChars(a) && UrlChars(b)
  {
    hide UrlChar;
    var whole := a + b;
    assert forall i | 0 <= i < |a| :: a[i] == whole[i];
    assert forall i | 0 <= i < |b| :: b[i] == whole[|a| + i];
    assert forall i | 0 <= i < |whole| :: whole[i] == if i < |a| then a[i] else b[i - |a|];
  }

  lemma SchemeIsClean()
    ensures UrlChars(SCHEME) && !IsSpace(SCHEME[0])
  {
  }

  // ---- Form encoding -----------------------------------------------------------------------------------

  predicate Unreserved(c: char) {
    '0' <= c <= '9' || 'A' <= c <= 'Z' || 'a' <= c <= 'z' || c in {'*', '-', '.', '_'}
  }

  function HexDigit(d: nat): char
    requires d < 16
  {
    if d < 10 then ('0' as int + d) as char else ('A' as int + d - 10) as char
  }

  function PercentByte(b: nat): string
    requires b < 256
  {
    ['%', HexDigit(b / 16), HexDigit(b % 16)]
  }

  /** A character as its UTF-8 bytes, each percent-encoded. */
  function PercentEncoded(c: char): string {
    var n := c as int;
    if n < 0x80 then PercentByte(n)
    else if n < 0x800 then PercentByte(0xC0 + n / 64) + PercentByte(0x80 + n % 64)
    else if n < 0x1_0000 then PercentByte(0xE0 + n / 4096) + PercentByte(0x80 + n / 64 % 64) + PercentByte(0x80 + n % 64)
    else
      PercentByte(0xF0 + n / 262144) + PercentByte(0x80 + n / 4096 % 64) + PercentByte(0x80 + n / 64 % 64)
      + PercentByte(0x80 + n % 64)
  }

  function FormEncoded(s: string): string {
    if s == [] then []
    else (if Unreserved(s[0]) then [s[0]] else if s[0] == ' ' then "+" else PercentEncoded(s[0])) + FormEncoded(s[1..])
  }

  /** Form-encoded text never spoils a URL. */
  lemma {:induction false} FormEncodedIsClean(s: string)
    ensures UrlChars(FormEncoded(s))
  {
    if s != [] {
      FormEncodedIsClean(s[1..]);
      PercentEncodedIsClean(s[0]);
    }
  }

  lemma PercentEncodedIsClean(c: char)
    ensures UrlChars(PercentEncoded(c))
    ensures Unreserved(c) ==> UrlChar(c)
    ensures UrlChar('+')
  {
    hide PercentByte, UrlChars;
    var n := c as int;
    if n < 0x80 {
      PercentByteIsClean(n);
    } else if n < 0x800 {
      TwoBytesAreClean(0xC0 + n / 64, 0x80 + n % 64);
    } else if n < 0x1_0000 {
      TwoBytesAreClean(0xE0 + n / 4096, 0x80 + n / 64 % 64);
      OneMoreByte(PercentByte(0xE0 + n / 4096) + PercentByte(0x80 + n / 64 % 64), 0x80 + n % 64);
    } else {
      var first := PercentByte(0xF0 + n / 262144) + PercentByte(0x80 + n / 4096 % 64);
      TwoBytesAreClean(0xF0 + n / 262144, 0x80 + n / 4096 % 64);
      OneMoreByte(first, 0x80 + n / 64 % 64);
      OneMoreByte(first + PercentByte(0x80 + n / 64 % 64), 0x80 + n % 64);
    }
  }

  lemma PercentByteIsClean(b: nat)
    requires b < 256
    ensures UrlChars(PercentByte(b))
  {
  }

  lemma OneMoreByte(s: string, b: nat)
    requires UrlChars(s) && b < 256
    ensures UrlChars(s + PercentByte(b))
  {
    hide PercentByte, UrlChars;
    PercentByteIsClean(b);
    JoinedUrlChars(s, PercentByte(b));
  }

  lemma TwoBytesAreClean(a: nat, b: nat)
    requires a < 256 && b < 256
    ensures UrlChars(PercentByte(a) + PercentByte(b))
  {
    hide PercentByte, UrlChars;
    PercentByteIsClean(a);
    OneMoreByte(PercentByte(a), b);
  }
}
