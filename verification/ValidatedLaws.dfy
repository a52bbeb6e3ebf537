/** What the validated texts are, said of their characters. */
module ValidatedLaws {
  import opened TextLaws
  import opened Texts
  import opened Validated
  import opened Wrappers

  // ---- Texts ----------------------------------------------------------------------------------------------

  /** No character of the C0 and C1 control sets, nor a delete. */
  predicate IsPrintable(s: string) {
    forall i | 0 <= i < |s| :: ' ' <= s[i] && (s[i] < '\U{7F}' || '\U{9F}' < s[i])
  }

  /** A value is accepted exactly if what white space leaves of it is printable, has from 1 to 16384 characters, and
      is the text kept. */
  lemma TextsMean(value: string, text: string)
    ensures NonEmptyText(value) == Some(text)
            <==> IsCore(text, value) && 1 <= |text| <= 16384 && IsPrintable(text)
  {
    hide Trim, IsCore;
    TrimMeans(value);
    if IsCore(text, value) {
      CoreIsUnique(text, Trim(value), value);
    }
  }

  // ---- URLs -----------------------------------------------------------------------------------------------

  predicate EndsHost(c: char) {
    c == '/' || c == '?' || c == '#'
  }

  /** A host without credentials, and what follows it. */
  predicate IsSplit(host: string, rest: string, url: string) {
    && url == "https://" + host + rest
    && host != [] && host[0] != '.' && (forall i | 0 <= i < |host| :: !EndsHost(host[i]) && host[i] != '@')
    && (rest != [] ==> EndsHost(rest[0]))
  }

  predicate IsUrlText(url: string) {
    && |url| <= 4096 && IsPrintable(url)
    && forall i | 0 <= i < |url| :: !IsSpace(url[i]) && url[i] != '\\'
  }

  lemma {:induction false} AuthorityMeans(s: string) returns (rest: string)
    ensures s == Authority(s) + rest && (rest != [] ==> EndsHost(rest[0]))
    ensures forall i | 0 <= i < |Authority(s)| :: !EndsHost(Authority(s)[i])
  {
    if s == [] || s[0] in {'/', '?', '#'} {
      rest := s;
    } else {
      rest := AuthorityMeans(s[1..]);
      assert s == [s[0]] + s[1..];
    }
  }

  lemma AuthorityIsUnique(a: string, x: string, b: string, y: string)
    requires a + x == b + y && (x != [] ==> EndsHost(x[0])) && (y != [] ==> EndsHost(y[0]))
    requires (forall i | 0 <= i < |a| :: !EndsHost(a[i])) && (forall i | 0 <= i < |b| :: !EndsHost(b[i]))
    ensures a == b
  {
    var s := a + x;
    HostEnds(a, x, s);
    HostEnds(b, y, s);
    assert a == s[..|a|] && b == s[..|b|];
  }

  lemma HostEnds(a: string, x: string, s: string)
    requires s == a + x && (x != [] ==> EndsHost(x[0])) && forall i | 0 <= i < |a| :: !EndsHost(a[i])
    ensures |a| <= |s| && (forall i | 0 <= i < |a| :: !EndsHost(s[i])) && (|a| < |s| ==> EndsHost(s[|a|]))
  {
    assert forall i | 0 <= i < |a| :: s[i] == a[i];
    assert x != [] ==> s[|a|] == x[0];
  }

  /** A value is accepted exactly if what white space leaves of it is an https URL on a host without credentials, in
      at most 4096 characters that are neither white space nor controls nor backslashes; that is the URL kept. */
  lemma UrlsMean(value: string, url: string)
    ensures HttpsUrl(value) == Some(url)
            <==> IsCore(url, value) && IsUrlText(url) && exists host, rest :: IsSplit(host, rest, url)
  {
    hide Trim, IsCore, Authority, IsUrlText, UrlChars, IsSplit, ValidAuthority;
    TrimMeans(value);
    if IsCore(url, value) {
      CoreIsUnique(url, Trim(value), value);
      UrlTextMeans(url);
      if StartsAt(url, SCHEME, 0) {
        var host := Authority(url[|SCHEME|..]);
        var rest := AuthorityMeans(url[|SCHEME|..]);
        assert url == url[..8] + url[8..];
        HostMeans(url, host, rest);
      }
      forall host, rest | IsSplit(host, rest, url) ensures StartsAt(url, SCHEME, 0) {
        SplitStarts(host, rest, url);
      }
    }
  }

  lemma UrlTextMeans(url: string)
    ensures IsUrlText(url) <==> |url| <= 4096 && UrlChars(url)
  {
    hide IsSpace;
    assert forall c: char :: IsControl(c) <==> !(' ' <= c && (c < '\U{7F}' || '\U{9F}' < c));
  }

  lemma SplitStarts(host: string, rest: string, url: string)
    requires IsSplit(host, rest, url)
    ensures StartsAt(url, "https://", 0) && url[8..] == host + rest
  {
    assert url == "https://" + (host + rest);
  }

  lemma HostMeans(url: string, host: string, rest: string)
    requires StartsAt(url, "https://", 0) && url[8..] == host + rest && (rest != [] ==> EndsHost(rest[0]))
    requires forall i | 0 <= i < |host| :: !EndsHost(host[i])
    ensures ValidAuthority(host) <==> exists h, r :: IsSplit(h, r, url)
  {
    assert url == "https://" + (host + rest);
    assert url == "https://" + host + rest;
    if ValidAuthority(host) {
      assert IsSplit(host, rest, url);
    }
    forall h, r | IsSplit(h, r, url) ensures h == host {
      SplitStarts(h, r, url);
      AuthorityIsUnique(h, r, host, rest);
    }
  }

  // ---- Form encoding -------------------------------------------------------------------------------------------

  /** `bytes` are the UTF-8 form of code point `n` (section 3 of RFC 3629). */
  predicate IsUtf8Of(bytes: seq<nat>, n: nat) {
    || (|bytes| == 1 && n < 0x80 && bytes[0] == n)
    || (|bytes| == 2 && 0x80 <= n < 0x800 && 0xC0 <= bytes[0] < 0xE0 && 0x80 <= bytes[1] < 0xC0
        && n == (bytes[0] - 0xC0) * 64 + (bytes[1] - 0x80))
    || (|bytes| == 3 && 0x800 <= n < 0x1_0000 && 0xE0 <= bytes[0] < 0xF0 && 0x80 <= bytes[1] < 0xC0
        && 0x80 <= bytes[2] < 0xC0
        && n == (bytes[0] - 0xE0) * 4096 + (bytes[1] - 0x80) * 64 + (bytes[2] - 0x80))
    || (|bytes| == 4 && 0x1_0000 <= n && 0xF0 <= bytes[0] < 0xF8 && 0x80 <= bytes[1] < 0xC0
        && 0x80 <= bytes[2] < 0xC0 && 0x80 <= bytes[3] < 0xC0
        && n == (bytes[0] - 0xF0) * 262144 + (bytes[1] - 0x80) * 4096 + (bytes[2] - 0x80) * 64 + (bytes[3] - 0x80))
  }

  /** A percent sign and two capital hexadecimal digits for each byte. */
  predicate IsPercentForm(text: string, bytes: seq<nat>) {
    && |text| == 3 * |bytes|
    && forall i | 0 <= i < |bytes| ::
         && bytes[i] < 256 && text[3 * i] == '%'
         && text[3 * i + 1] == "0123456789ABCDEF"[bytes[i] / 16] && text[3 * i + 2] == "0123456789ABCDEF"[bytes[i] % 16]
  }

  lemma ByteMeans(b: nat)
    requires b < 256
    ensures IsPercentForm(PercentByte(b), [b])
  {
    assert forall d: nat | d < 16 :: HexDigit(d) == "0123456789ABCDEF"[d];
  }

  lemma MoreBytes(text: string, bytes: seq<nat>, b: nat)
    requires IsPercentForm(text, bytes) && b < 256
    ensures IsPercentForm(text + PercentByte(b), bytes + [b])
  {
    hide PercentByte;
    ByteMeans(b);
    var more, all := text + PercentByte(b), bytes + [b];
    forall i | 0 <= i < |all|
      ensures all[i] < 256 && more[3 * i] == '%'
      ensures more[3 * i + 1] == "0123456789ABCDEF"[all[i] / 16] && more[3 * i + 2] == "0123456789ABCDEF"[all[i] % 16]
    {
      if i < |bytes| {
        assert all[i] == bytes[i] && more[3 * i] == text[3 * i];
      } else {
        assert more[3 * i] == PercentByte(b)[0] && more[3 * i + 1] == PercentByte(b)[1] && more[3 * i + 2] == PercentByte(b)[2];
        assert [b][0] == b && PercentByte(b)[3 * 0] == '%';
      }
    }
  }

  lemma TwoUtf8Bytes(n: nat)
    requires 0x80 <= n < 0x800
    ensures IsUtf8Of([0xC0 + n / 64, 0x80 + n % 64], n)
  {
  }

  lemma Sixths(n: nat)
    ensures n == n / 4096 * 4096 + n / 64 % 64 * 64 + n % 64
    ensures n / 4096 == n / 262144 * 64 + n / 4096 % 64
  {
    assert n / 64 == n / 4096 * 64 + n / 64 % 64;
  }

  lemma ThreeUtf8Bytes(n: nat)
    requires 0x800 <= n < 0x1_0000
    ensures IsUtf8Of([0xE0 + n / 4096, 0x80 + n / 64 % 64, 0x80 + n % 64], n)
  {
    Sixths(n);
  }

  lemma FourUtf8Bytes(n: nat)
    requires 0x1_0000 <= n < 0x11_0000
    ensures IsUtf8Of([0xF0 + n / 262144, 0x80 + n / 4096 % 64, 0x80 + n / 64 % 64, 0x80 + n % 64], n)
  {
    Sixths(n);
  }

  lemma TwoBytes(a: nat, b: nat)
    requires a < 256 && b < 256
    ensures IsPercentForm(PercentByte(a) + PercentByte(b), [a, b])
  {
    hide PercentByte, IsPercentForm;
    ByteMeans(a);
    MoreBytes(PercentByte(a), [a], b);
    assert [a] + [b] == [a, b];
  }

  lemma ThreeBytes(a: nat, b: nat, c: nat)
    requires a < 256 && b < 256 && c < 256
    ensures IsPercentForm(PercentByte(a) + PercentByte(b) + PercentByte(c), [a, b, c])
  {
    hide PercentByte, IsPercentForm;
    TwoBytes(a, b);
    MoreBytes(PercentByte(a) + PercentByte(b), [a, b], c);
    assert [a, b] + [c] == [a, b, c];
  }

  lemma FourBytes(a: nat, b: nat, c: nat, d: nat)
    requires a < 256 && b < 256 && c < 256 && d < 256
    ensures IsPercentForm(PercentByte(a) + PercentByte(b) + PercentByte(c) + PercentByte(d), [a, b, c, d])
  {
    hide PercentByte, IsPercentForm;
    ThreeBytes(a, b, c);
    MoreBytes(PercentByte(a) + PercentByte(b) + PercentByte(c), [a, b, c], d);
    assert [a, b, c] + [d] == [a, b, c, d];
  }

  /** A character is written as the percent form of its UTF-8 bytes. */
  lemma CharactersMean(c: char) returns (bytes: seq<nat>)
    ensures IsUtf8Of(bytes, c as int) && IsPercentForm(PercentEncoded(c), bytes)
  {
    hide PercentByte, IsPercentForm, IsUtf8Of;
    var n: nat := c as int;
    if n < 0x80 {
      bytes := [n];
      OneUtf8Byte(n);
      ByteMeans(n);
    } else if n < 0x800 {
      bytes := [0xC0 + n / 64, 0x80 + n % 64];
      TwoUtf8Bytes(n);
      TwoBytes(bytes[0], bytes[1]);
    } else if n < 0x1_0000 {
      bytes := [0xE0 + n / 4096, 0x80 + n / 64 % 64, 0x80 + n % 64];
      ThreeUtf8Bytes(n);
      ThreeBytes(bytes[0], bytes[1], bytes[2]);
    } else {
      bytes := [0xF0 + n / 262144, 0x80 + n / 4096 % 64, 0x80 + n / 64 % 64, 0x80 + n % 64];
      FourUtf8Bytes(n);
      FourBytes(bytes[0], bytes[1], bytes[2], bytes[3]);
    }
  }

  lemma OneUtf8Byte(n: nat)
    requires n < 0x80
    ensures IsUtf8Of([n], n)
  {
  }

  predicate IsPlain(c: char) {
    || '0' <= c <= '9' || 'A' <= c <= 'Z' || 'a' <= c <= 'z'
    || c == '*' || c == '-' || c == '.' || c == '_'
  }

  /** Letters, digits and four marks stay, a space becomes a plus sign, and everything else is percent-encoded. */
  lemma FormsMean(c: char)
    ensures FormEncoded([c]) == if IsPlain(c) then [c] else if c == ' ' then "+" else PercentEncoded(c)
  {
    hide PercentEncoded;
    assert [c][1..] == [];
  }

  function FormOf(c: char): string {
    if Unreserved(c) then [c] else if c == ' ' then "+" else PercentEncoded(c)
  }

  lemma FormUnfolds(s: string)
    ensures FormEncoded(s) == if s == [] then [] else FormOf(s[0]) + FormEncoded(s[1..])
  {
    hide PercentEncoded, Unreserved;
  }

  /** Texts are encoded character by character. */
  lemma {:induction false} FormsJoin(s: string, t: string)
    ensures FormEncoded(s + t) == FormEncoded(s) + FormEncoded(t)
  {
    hide FormEncoded, FormOf;
    FormUnfolds(s);
    FormUnfolds(s + t);
    if s == [] {
      assert s + t == t;
    } else {
      FormsJoin(s[1..], t);
      assert (s + t)[1..] == s[1..] + t;
      assert FormOf(s[0]) + (FormEncoded(s[1..]) + FormEncoded(t)) == (FormOf(s[0]) + FormEncoded(s[1..])) + FormEncoded(t);
    }
  }
}
