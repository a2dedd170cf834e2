/** Input validation for the search box: IP address syntax, query
    classification, sanitising and country-name checks. Every operation is a
    total function of the input string. */
module Validators {
  import opened Js

  /** The classification a query receives; `None` stands for `null`. */
  datatype SearchType = Ip | Country

  // ===========================================================================
  // Decimal octets

  /** Reference reading of an IPv4 field: one to three decimal digits whose
      value is at most 255 (leading zeros allowed). */
  predicate DecimalOctet(t: string) {
    && 1 <= |t| <= 3
    && (forall i :: 0 <= i < |t| ==> IsDigit(t[i]))
    && DecimalValue(t) <= 255
  }

  /** The octet alternation of the IPv4 regex,
      `25[0-5] | 2[0-4][0-9] | [01]?[0-9][0-9]?`, matched against a whole field. */
  predicate OctetPattern(t: string) {
    || (|t| == 3 && t[0] == '2' && t[1] == '5' && '0' <= t[2] <= '5')
    || (|t| == 3 && t[0] == '2' && '0' <= t[1] <= '4' && IsDigit(t[2]))
    || (|t| == 1 && IsDigit(t[0]))
    || (|t| == 2 && IsDigit(t[0]) && IsDigit(t[1]))
    || (|t| == 2 && (t[0] == '0' || t[0] == '1') && IsDigit(t[1]))
    || (|t| == 3 && (t[0] == '0' || t[0] == '1') && IsDigit(t[1]) && IsDigit(t[2]))
  }

  lemma ThreeDigitValue(t: string)
    requires |t| == 3 && forall i :: 0 <= i < 3 ==> IsDigit(t[i])
    ensures DecimalValue(t) == 100 * DigitValue(t[0]) + 10 * DigitValue(t[1]) + DigitValue(t[2])
  {
    TwoDigitValue(t[..2]);
  }

  lemma TwoDigitValue(t: string)
    requires |t| == 2 && forall i :: 0 <= i < 2 ==> IsDigit(t[i])
    ensures DecimalValue(t) == 10 * DigitValue(t[0]) + DigitValue(t[1])
  {
    assert t[..1][..0] == [];
    assert DecimalValue(t[..1]) == DigitValue(t[0]);
  }

  /** The regex's octet alternation accepts exactly the decimal numbers
      0..255 written with one to three digits. */
  lemma OctetPatternIsDecimalOctet(t: string)
    ensures OctetPattern(t) <==> DecimalOctet(t)
  {
    if |t| == 3 && forall i :: 0 <= i < 3 ==> IsDigit(t[i]) {
      ThreeDigitValue(t);
    } else if |t| == 2 && forall i :: 0 <= i < 2 ==> IsDigit(t[i]) {
      TwoDigitValue(t);
    } else if |t| == 1 && IsDigit(t[0]) {
      assert t[..0] == [];
      assert DecimalValue(t) == DigitValue(t[0]);
    }
  }

  // ===========================================================================
  // isValidIPAddress

  /** `isValidIPAddress(ip)`: false for the empty string; otherwise the IPv4
      regex `^(?:O\.){3}O$`. An octet never contains a dot, so the regex
      matches exactly when the dot-separated fields are four octets. */
  predicate IsValidIPAddress(ip: string) {
    && ip != []
    && var fields := Split(ip, '.');
    && |fields| == 4
    && (forall i :: 0 <= i < 4 ==> OctetPattern(fields[i]))
  }

  /** Reference definition: four dot-separated decimal numbers, each at most
      255 and written with one to three digits. */
  predicate DottedQuad(ip: string) {
    var fields := Split(ip, '.');
    |fields| == 4 && forall i :: 0 <= i < 4 ==> DecimalOctet(fields[i])
  }

  lemma IPv4IsDottedQuad(ip: string)
    ensures IsValidIPAddress(ip) <==> DottedQuad(ip)
  {
    var fields := Split(ip, '.');
    forall i | 0 <= i < |fields| {
      OctetPatternIsDecimalOctet(fields[i]);
    }
    if DottedQuad(ip) && ip == [] {
      SplitNoSeparator(ip, '.');
    }
  }

  /** The usual rendering of an address from its four byte values. */
  function DottedDecimal(a: nat, b: nat, c: nat, d: nat): string {
    Join([NatToDecimal(a), NatToDecimal(b), NatToDecimal(c), NatToDecimal(d)], ".")
  }

  /** Every address rendered in dotted decimal is accepted, and its fields
      read back as the byte values it was rendered from. */
  lemma DottedDecimalAccepted(a: nat, b: nat, c: nat, d: nat)
    requires a <= 255 && b <= 255 && c <= 255 && d <= 255
    ensures IsValidIPAddress(DottedDecimal(a, b, c, d))
    ensures Split(DottedDecimal(a, b, c, d), '.')
         == [NatToDecimal(a), NatToDecimal(b), NatToDecimal(c), NatToDecimal(d)]
  {
    var xs := [NatToDecimal(a), NatToDecimal(b), NatToDecimal(c), NatToDecimal(d)];
    forall i | 0 <= i < 4 ensures '.' !in xs[i] && DecimalOctet(xs[i]) {
      assert forall k :: 0 <= k < |xs[i]| ==> IsDigit(xs[i][k]);
    }
    SplitJoin(xs, '.');
    var s := DottedDecimal(a, b, c, d);
    assert Split(s, '.') == xs;
    IPv4IsDottedQuad(s);
    assert |s| > 0 by {
      assert |xs[0]| >= 1;
      assert s == xs[0] + "." + Join(xs[1..], ".");
    }
  }

  /** Every character of a joined string comes from a field or the separator. */
  lemma {:induction false} JoinChars(xs: seq<string>, sep: string, c: char)
    requires c in Join(xs, sep)
    ensures c in sep || exists i :: 0 <= i < |xs| && c in xs[i]
    decreases |xs|
  {
    if |xs| > 1 {
      var r := Join(xs[1..], sep);
      assert Join(xs, sep) == xs[0] + sep + r;
      if c !in xs[0] && c !in sep {
        assert c in r;
        JoinChars(xs[1..], sep, c);
        var i :| 0 <= i < |xs[1..]| && c in xs[1..][i];
        assert c in xs[i + 1];
      }
    }
  }

  /** Every character of a field occurs in the joined string. */
  lemma {:induction false} JoinContainsField(xs: seq<string>, sep: string, i: nat, c: char)
    requires i < |xs| && c in xs[i]
    ensures c in Join(xs, sep)
    decreases |xs|
  {
    if |xs| > 1 {
      assert Join(xs, sep) == xs[0] + sep + Join(xs[1..], sep);
      if i > 0 {
        assert xs[1..][i - 1] == xs[i];
        JoinContainsField(xs[1..], sep, i - 1, c);
      }
    }
  }

  /** An accepted IPv4 address consists of digits and dots only, and has at
      least one digit. */
  lemma IPv4Chars(ip: string)
    requires IsValidIPAddress(ip)
    ensures forall c :: c in ip ==> IsDigit(c) || c == '.'
    ensures exists i :: 0 <= i < |ip| && IsDigit(ip[i])
  {
    var f := Split(ip, '.');
    forall c | c in ip ensures IsDigit(c) || c == '.' {
      JoinChars(f, ".", c);
      if c != '.' {
        var i :| 0 <= i < |f| && c in f[i];
        OctetPatternIsDecimalOctet(f[i]);
      }
    }
    OctetPatternIsDecimalOctet(f[0]);
    JoinContainsField(f, ".", 0, f[0][0]);
    var k :| 0 <= k < |ip| && ip[k] == f[0][0];
  }

  // ===========================================================================
  // isValidIPv6Address
  //
  // The IPv6 regex is an anchored alternation of twelve branches. In every
  // branch a hexadecimal group, a run of zeros, an embedded IPv4 address and a
  // zone identifier are free of ':', so a branch matches exactly when the
  // colon-separated fields of the input have the shape the branch describes.
  // Each predicate below states one branch as a shape of those fields; an
  // empty field stands for the empty text between the two colons of `::`.

  /** `[0-9a-fA-F]{1,4}` */
  predicate IsHexGroup(t: string) {
    1 <= |t| <= 4 && forall i :: 0 <= i < |t| ==> IsHexDigit(t[i])
  }

  predicate AllHexGroups(fs: seq<string>) {
    forall i :: 0 <= i < |fs| ==> IsHexGroup(fs[i])
  }

  /** `n` groups, then `::`, then groups to the end. */
  predicate CompressedAt(fs: seq<string>, n: nat) {
    && n < |fs|
    && AllHexGroups(fs[..n])
    && fs[n] == []
    && AllHexGroups(fs[n + 1..])
  }

  /** `(H:){lo,hi}(:H){mlo,mhi}`: a compressed address whose group counts
      before and after `::` lie in the given ranges. */
  predicate CompressedBranch(fs: seq<string>, lo: nat, hi: nat, mlo: nat, mhi: nat) {
    exists n | lo <= n <= hi :: mlo <= |fs| - 1 - n <= mhi && CompressedAt(fs, n)
  }

  /** Branch 1, `(H:){7}H`: eight groups. */
  predicate FullForm(fs: seq<string>) {
    |fs| == 8 && AllHexGroups(fs)
  }

  /** Branch 2, `(H:){1,7}:`: one to seven groups followed by `::`. */
  predicate TrailingDoubleColon(fs: seq<string>) {
    && 3 <= |fs| <= 9
    && AllHexGroups(fs[..|fs| - 2])
    && fs[|fs| - 2] == [] && fs[|fs| - 1] == []
  }

  /** Branches 3 to 8: `(H:){1,6}:H`, `(H:){1,5}(:H){1,2}`,
      `(H:){1,4}(:H){1,3}`, `(H:){1,3}(:H){1,4}`, `(H:){1,2}(:H){1,5}` and
      `H:((:H){1,6})`. */
  predicate InnerDoubleColon(fs: seq<string>) {
    || CompressedBranch(fs, 1, 6, 1, 1)
    || CompressedBranch(fs, 1, 5, 1, 2)
    || CompressedBranch(fs, 1, 4, 1, 3)
    || CompressedBranch(fs, 1, 3, 1, 4)
    || CompressedBranch(fs, 1, 2, 1, 5)
    || CompressedBranch(fs, 1, 1, 1, 6)
  }

  /** Branch 9, `:((:H){1,7}|:)`: `::` followed by one to seven groups, or `::` alone. */
  predicate LeadingDoubleColon(fs: seq<string>) {
    && |fs| >= 3 && fs[0] == [] && fs[1] == []
    && ((|fs| <= 9 && AllHexGroups(fs[2..])) || (|fs| == 3 && fs[2] == []))
  }

  /** `[0-9a-fA-F]{0,4}` */
  predicate IsShortHex(t: string) {
    |t| <= 4 && forall i :: 0 <= i < |t| ==> IsHexDigit(t[i])
  }

  /** `[0-9a-zA-Z]{1,}` */
  predicate IsZoneId(t: string) {
    |t| >= 1 && forall i :: 0 <= i < |t| ==> IsDigit(t[i]) || IsAsciiLetter(t[i])
  }

  /** Branch 10, `fe80:(:[0-9a-fA-F]{0,4}){0,4}%[0-9a-zA-Z]{1,}`: a
      link-local address with a zone index (section 11 of RFC 4007). After
      `fe80` come an empty field and up to four possibly empty short hex
      fields; the last field carries `%` and the zone. */
  predicate LinkLocalWithZone(fs: seq<string>) {
    && 2 <= |fs| <= 6
    && fs[0] == "fe80"
    && var parts := Split(fs[|fs| - 1], '%');
    && |parts| == 2
    && IsZoneId(parts[1])
    && var body := fs[1..|fs| - 1] + [parts[0]];
    && body[0] == []
    && forall i :: 1 <= i < |body| ==> IsShortHex(body[i])
  }

  /** The octet of the IPv4 part inside the IPv6 regex,
      `25[0-5] | (2[0-4] | 1{0,1}[0-9]){0,1}[0-9]`. */
  predicate EmbeddedOctetPattern(t: string) {
    || (|t| == 3 && t[0] == '2' && t[1] == '5' && '0' <= t[2] <= '5')
    || (|t| == 1 && IsDigit(t[0]))
    || (|t| == 2 && IsDigit(t[0]) && IsDigit(t[1]))
    || (|t| == 3 && t[0] == '2' && '0' <= t[1] <= '4' && IsDigit(t[2]))
    || (|t| == 3 && t[0] == '1' && IsDigit(t[1]) && IsDigit(t[2]))
  }

  /** Unlike the IPv4 validator, the embedded octet rejects a three-digit
      field with a leading zero such as "010". */
  lemma EmbeddedOctetIsDecimalOctet(t: string)
    ensures EmbeddedOctetPattern(t) <==> DecimalOctet(t) && !(|t| == 3 && t[0] == '0')
  {
    OctetPatternIsDecimalOctet(t);
    if |t| == 3 && forall i :: 0 <= i < 3 ==> IsDigit(t[i]) {
      ThreeDigitValue(t);
    }
  }

  /** `((O'\.){3,3}O')` with the embedded octet O'. */
  predicate IsEmbeddedIPv4(t: string) {
    var fields := Split(t, '.');
    |fields| == 4 && forall i :: 0 <= i < 4 ==> EmbeddedOctetPattern(fields[i])
  }

  /** `0{1,4}` */
  predicate IsZeroRun(t: string) {
    1 <= |t| <= 4 && forall i :: 0 <= i < |t| ==> t[i] == '0'
  }

  /** Branch 11, `::(ffff(:0{1,4}){0,1}:){0,1}V4`: an IPv4 address after
      `::`, optionally preceded by `ffff:` or `ffff:0:`-style prefixes. */
  predicate MappedIPv4(fs: seq<string>) {
    && 3 <= |fs| <= 5
    && fs[0] == [] && fs[1] == []
    && IsEmbeddedIPv4(fs[|fs| - 1])
    && (|fs| >= 4 ==> fs[2] == "ffff")
    && (|fs| == 5 ==> IsZeroRun(fs[3]))
  }

  /** Branch 12, `(H:){1,4}:V4`: one to four groups, `::`, then an IPv4 address. */
  predicate GroupsThenIPv4(fs: seq<string>) {
    && 3 <= |fs| <= 6
    && AllHexGroups(fs[..|fs| - 2])
    && fs[|fs| - 2] == []
    && IsEmbeddedIPv4(fs[|fs| - 1])
  }

  /** `isValidIPv6Address(ip)`: false for the empty string; otherwise some
      branch of the IPv6 regex matches the whole input. */
  predicate IsValidIPv6Address(ip: string) {
    && ip != []
    && var fs := Split(ip, ':');
    || FullForm(fs)
    || TrailingDoubleColon(fs)
    || InnerDoubleColon(fs)
    || LeadingDoubleColon(fs)
    || LinkLocalWithZone(fs)
    || MappedIPv4(fs)
    || GroupsThenIPv4(fs)
  }

  /** Branches 3 to 8 together accept exactly the addresses with at least one
      group on each side of `::` and at most seven groups in all, the
      compressed form of section 2.2 of RFC 4291. */
  lemma InnerDoubleColonIsRfcCompressed(fs: seq<string>)
    ensures InnerDoubleColon(fs) <==>
      exists n | 1 <= n < |fs| - 1 :: |fs| <= 8 && CompressedAt(fs, n)
  {
    if exists n | 1 <= n < |fs| - 1 :: |fs| <= 8 && CompressedAt(fs, n) {
      var n :| 1 <= n < |fs| - 1 && |fs| <= 8 && CompressedAt(fs, n);
      var m := |fs| - 1 - n;
      if m == 1 { assert CompressedBranch(fs, 1, 6, 1, 1); }
      else if m == 2 { assert CompressedBranch(fs, 1, 5, 1, 2); }
      else if m == 3 { assert CompressedBranch(fs, 1, 4, 1, 3); }
      else if m == 4 { assert CompressedBranch(fs, 1, 3, 1, 4); }
      else if m == 5 { assert CompressedBranch(fs, 1, 2, 1, 5); }
      else { assert CompressedBranch(fs, 1, 1, 1, 6); }
    }
  }

  /** Every branch needs at least one colon. */
  lemma IPv6HasColon(ip: string)
    requires IsValidIPv6Address(ip)
    ensures ':' in ip
  {
    if ':' !in ip {
      SplitNoSeparator(ip, ':');
    }
  }

  // ===========================================================================
  // detectSearchType

  predicate IsIpAddress(s: string) {
    IsValidIPAddress(s) || IsValidIPv6Address(s)
  }

  /** `/[a-zA-Z\s]/.test(s)` */
  predicate HasLetterOrSpace(s: string) {
    exists i :: 0 <= i < |s| && (IsAsciiLetter(s[i]) || IsWhitespace(s[i]))
  }

  /** `detectSearchType(query)`: null for a blank query; 'ip' when the
      trimmed query is an IPv4 or IPv6 address, tested first; 'country' when
      it contains an ASCII letter or whitespace; null otherwise. */
  function DetectSearchType(query: string): (r: Option<SearchType>)
    ensures (forall i :: 0 <= i < |query| ==> IsWhitespace(query[i])) ==> r == None
    ensures r == Some(Ip) <==> IsIpAddress(Trim(query))
    ensures r == Some(Country) <==> !IsIpAddress(Trim(query)) && HasLetterOrSpace(Trim(query))
  {
    TrimEmptyIffBlank(query);
    var trimmed := Trim(query);
    if query == [] || |trimmed| == 0 then None
    else if IsIpAddress(trimmed) then Some(Ip)
    else if HasLetterOrSpace(trimmed) then Some(Country)
    else None
  }

  /** Surrounding whitespace never changes the classification. */
  lemma DetectIgnoresPadding(a: string, q: string, b: string)
    requires forall i :: 0 <= i < |a| ==> IsWhitespace(a[i])
    requires forall i :: 0 <= i < |b| ==> IsWhitespace(b[i])
    ensures DetectSearchType(a + q + b) == DetectSearchType(q)
  {
    TrimPadding(a, q, b);
  }

  /** Any accepted IPv4 address is classified as an IP. */
  lemma DetectIPv4IsIp(ip: string)
    requires IsValidIPAddress(ip)
    ensures DetectSearchType(ip) == Some(Ip)
  {
    IPv4Chars(ip);
    assert ip[0] in ip && ip[|ip| - 1] in ip;
    TrimOfUnpadded(ip);
  }

  /** A string that neither starts nor ends with whitespace is its own trim. */
  lemma TrimOfUnpadded(s: string)
    requires s == [] || (!IsWhitespace(s[0]) && !IsWhitespace(s[|s| - 1]))
    ensures Trim(s) == s
  {
  }

  // ===========================================================================
  // sanitizeSearchInput

  /** The characters sanitising deletes: `<`, `>`, `'` and `"`. */
  predicate IsMarkupChar(c: char) {
    c == '<' || c == '>' || c == '\'' || c == '"'
  }

  predicate IsNotMarkup(c: char) { !IsMarkupChar(c) }

  /** Kept by `.replace(/[<>]/g, '')`. */
  predicate IsNotAngleBracket(c: char) { c != '<' && c != '>' }

  /** Kept by `.replace(/['"]/g, '')`. */
  predicate IsNotQuote(c: char) { c != '\'' && c != '"' }

  /** `sanitizeSearchInput(input)`: '' for the empty string; otherwise trim,
      delete angle brackets, delete quotes, keep the first 100 characters. */
  function SanitizeSearchInput(input: string): (r: string)
    ensures |r| <= 100
    ensures forall i :: 0 <= i < |r| ==> !IsMarkupChar(r[i])
    ensures IsSubsequence(r, input)
    ensures r == Take(Filter(Trim(input), IsNotMarkup), 100)
  {
    if input == [] then []
    else
      var trimmed := Trim(input);
      var noBrackets := Filter(trimmed, IsNotAngleBracket);
      var noQuotes := Filter(noBrackets, IsNotQuote);
      SanitizeFiltersCompose(trimmed);
      FilterIsSubsequence(trimmed, IsNotMarkup);
      PrefixIsSubsequence(Take(noQuotes, 100), noQuotes);
      SubsequenceTransitive(Take(noQuotes, 100), noQuotes, trimmed);
      SubsequenceTransitive(Take(noQuotes, 100), trimmed, input);
      Take(noQuotes, 100)
  }

  /** The two replace passes together delete exactly the markup characters. */
  lemma {:induction false} SanitizeFiltersCompose(s: string)
    ensures Filter(Filter(s, IsNotAngleBracket), IsNotQuote)
         == Filter(s, IsNotMarkup)
    decreases |s|
  {
    if s != [] {
      SanitizeFiltersCompose(s[1..]);
    }
  }

  /** A second pass only trims again: deleting characters can expose
      whitespace at the ends, so the function is not idempotent. */
  lemma SanitizeTwice(input: string)
    ensures SanitizeSearchInput(SanitizeSearchInput(input)) == Trim(SanitizeSearchInput(input))
  {
    var r := SanitizeSearchInput(input);
    if r != [] {
      var t := Trim(r);
      SubsequenceElements(t, r);
      assert forall i :: 0 <= i < |t| ==> !IsMarkupChar(t[i]) by {
        forall i | 0 <= i < |t| ensures !IsMarkupChar(t[i]) {
          assert t[i] in r;
        }
      }
      FilterKeepsAll(t, IsNotMarkup);
    }
  }

  /** Sanitising is not idempotent: when a markup character shields
      whitespace from the trim, deleting it leaves that whitespace at the
      front, and only the second pass trims it away. */
  lemma SanitizeNotIdempotent(c: char, w: string, x: string)
    requires IsMarkupChar(c)
    requires w != [] && forall i :: 0 <= i < |w| ==> IsWhitespace(w[i])
    requires x != [] && Trim(x) == x
    requires forall i :: 0 <= i < |x| ==> !IsMarkupChar(x[i])
    requires |w| + |x| <= 100
    ensures SanitizeSearchInput([c] + w + x) == w + x
    ensures SanitizeSearchInput(w + x) == x
    ensures SanitizeSearchInput(SanitizeSearchInput([c] + w + x)) != SanitizeSearchInput([c] + w + x)
  {
    SanitizeDropsShield(c, w, x);
    SanitizeTrimsExposed(w, x);
    assert |w + x| > |x|;
  }

  lemma SanitizeDropsShield(c: char, w: string, x: string)
    requires IsMarkupChar(c)
    requires forall i :: 0 <= i < |w| ==> IsWhitespace(w[i])
    requires x != [] && Trim(x) == x
    requires forall i :: 0 <= i < |x| ==> !IsMarkupChar(x[i])
    requires |w| + |x| <= 100
    ensures SanitizeSearchInput([c] + w + x) == w + x
  {
    var t := w + x;
    var s := [c] + t;
    assert s == [c] + w + x;
    CleanPaddedText(w, x);
    ShieldedTrim(c, t);
    FilterDropsMarkupHead(c, t);
    SanitizeKept(s, t);
  }

  lemma CleanPaddedText(w: string, x: string)
    requires forall i :: 0 <= i < |w| ==> IsWhitespace(w[i])
    requires x != [] && Trim(x) == x
    requires forall i :: 0 <= i < |x| ==> !IsMarkupChar(x[i])
    ensures forall i :: 0 <= i < |w + x| ==> !IsMarkupChar((w + x)[i])
    ensures !IsWhitespace((w + x)[|w + x| - 1])
  {
  }

  lemma ShieldedTrim(c: char, t: string)
    requires IsMarkupChar(c)
    requires t != [] && !IsWhitespace(t[|t| - 1])
    ensures Trim([c] + t) == [c] + t
  {
    TrimOfUnpadded([c] + t);
  }

  /** Sanitising yields `r` when the trimmed input filters to `r` and `r` is
      short enough to survive the cut. */
  lemma SanitizeKept(s: string, r: string)
    requires s != [] && Filter(Trim(s), IsNotMarkup) == r && |r| <= 100
    ensures SanitizeSearchInput(s) == r
  {
  }

  lemma FilterDropsMarkupHead(c: char, t: string)
    requires IsMarkupChar(c)
    requires forall i :: 0 <= i < |t| ==> !IsMarkupChar(t[i])
    ensures Filter([c] + t, IsNotMarkup) == t
  {
    assert ([c] + t)[1..] == t;
    FilterKeepsAll(t, IsNotMarkup);
  }

  lemma SanitizeTrimsExposed(w: string, x: string)
    requires forall i :: 0 <= i < |w| ==> IsWhitespace(w[i])
    requires Trim(x) == x
    requires forall i :: 0 <= i < |x| ==> !IsMarkupChar(x[i])
    requires |w| + |x| <= 100
    ensures w + x != [] ==> SanitizeSearchInput(w + x) == x
  {
    if w + x != [] {
      assert Trim(w + x) == x by {
        TrimPadding(w, x, []);
        assert w + x + [] == w + x;
      }
      FilterKeepsAll(x, IsNotMarkup);
      SanitizeKept(w + x, x);
    }
  }

  /** Clean, trimmed input of at most 100 characters passes unchanged. */
  lemma SanitizeFixpoint(input: string)
    requires Trim(input) == input
    requires forall i :: 0 <= i < |input| ==> !IsMarkupChar(input[i])
    requires |input| <= 100
    ensures SanitizeSearchInput(input) == input
  {
    FilterKeepsAll(input, IsNotMarkup);
  }

  // ===========================================================================
  // isValidCountryName

  /** `[a-zA-ZÀ-ÿ\s\-'.]` */
  predicate IsCountryNameChar(c: char) {
    || IsAsciiLetter(c)
    || ('\U{00C0}' <= c <= '\U{00FF}')
    || IsWhitespace(c)
    || c == '-' || c == '\'' || c == '.'
  }

  /** `isValidCountryName(name)`: false for the empty string and for a
      trimmed length below 2; otherwise every character of the trimmed name
      is allowed. */
  predicate IsValidCountryName(name: string) {
    && name != []
    && var trimmed := Trim(name);
    && |trimmed| >= 2
    && forall i :: 0 <= i < |trimmed| ==> IsCountryNameChar(trimmed[i])
  }

  /** Whitespace around a name does not change the verdict, and a name with
      a digit, or with fewer than two characters once trimmed, is refused. */
  lemma CountryNameIgnoresPadding(a: string, name: string, b: string)
    requires forall i :: 0 <= i < |a| ==> IsWhitespace(a[i])
    requires forall i :: 0 <= i < |b| ==> IsWhitespace(b[i])
    ensures IsValidCountryName(a + name + b) == IsValidCountryName(name)
  {
    TrimPadding(a, name, b);
    if name == [] {
      assert Trim(name) == [];
    }
  }

  lemma CountryNameRefusals(name: string)
    ensures |Trim(name)| < 2 ==> !IsValidCountryName(name)
    ensures (exists i :: 0 <= i < |Trim(name)| && IsDigit(Trim(name)[i])) ==> !IsValidCountryName(name)
  {
    var t := Trim(name);
    if exists i :: 0 <= i < |t| && IsDigit(t[i]) {
      var i :| 0 <= i < |t| && IsDigit(t[i]);
      assert !IsCountryNameChar(t[i]);
    }
  }

  /** No accepted country name is an IP address: country names have neither
      digits nor colons. */
  lemma CountryNameIsNotIp(name: string)
    requires IsValidCountryName(name)
    ensures !IsIpAddress(Trim(name))
  {
    var t := Trim(name);
    assert forall i :: 0 <= i < |t| ==> IsCountryNameChar(t[i]);
    NoDigitIsNotIPv4(t);
    NoColonIsNotIPv6(t);
  }

  lemma NoDigitIsNotIPv4(t: string)
    requires forall i :: 0 <= i < |t| ==> IsCountryNameChar(t[i])
    ensures !IsValidIPAddress(t)
  {
    forall i | 0 <= i < |t| ensures !IsDigit(t[i]) {
      assert IsCountryNameChar(t[i]);
    }
    if IsValidIPAddress(t) {
      IPv4Chars(t);
    }
  }

  lemma NoColonIsNotIPv6(t: string)
    requires forall i :: 0 <= i < |t| ==> IsCountryNameChar(t[i])
    ensures !IsValidIPv6Address(t)
  {
    assert ':' !in t by {
      forall i | 0 <= i < |t| ensures t[i] != ':' {
        assert IsCountryNameChar(t[i]);
      }
    }
    SplitNoSeparator(t, ':');
  }

  /** A valid country name containing an ASCII letter or a space is
      classified as a country search. */
  lemma CountryNameDetected(name: string)
    requires IsValidCountryName(name)
    requires HasLetterOrSpace(Trim(name))
    ensures DetectSearchType(name) == Some(Country)
  {
    CountryNameIsNotIp(name);
  }

  /** A valid name without ASCII letters or whitespace, such as one made only
      of accented letters like "\U{00C0}\U{00C0}", is not a country search:
      the letter test of the classifier is ASCII-only. */
  lemma AccentedNameUnclassified(name: string)
    requires IsValidCountryName(name)
    requires !HasLetterOrSpace(Trim(name))
    ensures DetectSearchType(name) == None
  {
    CountryNameIsNotIp(name);
  }

  // ===========================================================================
  // formatIPAddress and extractIPPattern

  /** `s.replace(pat, rep)` with a string pattern: only the first occurrence
      is replaced. */
  function ReplaceFirst(s: string, pat: string, rep: string): (r: string)
    requires pat != []
    ensures !Includes(s, pat) ==> r == s
    ensures Includes(s, pat) ==> |r| == |s| - |pat| + |rep|
    decreases |s|
  {
    if |s| < |pat| then s
    else if s[..|pat|] == pat then
      assert OccursAt(s, pat, 0);
      rep + s[|pat|..]
    else
      IncludesTail(s, pat);
      [s[0]] + ReplaceFirst(s[1..], pat, rep)
  }

  lemma IncludesTail(s: string, pat: string)
    requires pat != [] && |s| >= |pat| && s[..|pat|] != pat
    ensures Includes(s, pat) <==> Includes(s[1..], pat)
  {
    if Includes(s, pat) {
      var i :| 0 <= i <= |s| - |pat| && OccursAt(s, pat, i);
      assert i != 0;
      assert OccursAt(s[1..], pat, i - 1);
    }
    if Includes(s[1..], pat) {
      var i :| 0 <= i <= |s| - 1 - |pat| && OccursAt(s[1..], pat, i);
      assert OccursAt(s, pat, i + 1);
    }
  }

  /** `formatIPAddress(ip)`: '' for the empty string; for an address with a
      colon, the first `::` gets a space on each side; otherwise unchanged. */
  function FormatIPAddress(ip: string): (r: string)
    ensures ':' !in ip ==> r == ip
    ensures !Includes(ip, "::") ==> r == ip
    ensures |r| == |ip| + 2 <==> Includes(ip, "::")
    ensures |r| == |ip| || |r| == |ip| + 2
  {
    if ip == [] then []
    else if ':' in ip then ReplaceFirst(ip, "::", " :: ")
    else
      assert !Includes(ip, "::") by {
        forall i | 0 <= i <= |ip| - 2 ensures !OccursAt(ip, "::", i) {
          assert ip[i..i + 2][0] == ip[i];
        }
      }
      ip
  }

  predicate IsNotSpace(c: char) { c != ' ' }

  /** Formatting only inserts spaces: with spaces removed, the formatted
      address equals the input with spaces removed. */
  lemma FormatOnlyAddsSpaces(ip: string)
    ensures Filter(FormatIPAddress(ip), IsNotSpace) == Filter(ip, IsNotSpace)
  {
    if ip != [] && ':' in ip {
      ReplaceFirstSpaces(ip);
    }
  }

  lemma {:induction false} ReplaceFirstSpaces(s: string)
    ensures Filter(ReplaceFirst(s, "::", " :: "), IsNotSpace) == Filter(s, IsNotSpace)
    decreases |s|
  {
    if |s| < 2 {
    } else if s[..2] == "::" {
      assert s == "::" + s[2..];
      MarkerSpaces(s[2..]);
    } else {
      ReplaceFirstSpaces(s[1..]);
      assert s == [s[0]] + s[1..];
      FilterAppend([s[0]], s[1..], IsNotSpace);
      FilterAppend([s[0]], ReplaceFirst(s[1..], "::", " :: "), IsNotSpace);
    }
  }

  lemma MarkerSpaces(t: string)
    ensures Filter(" :: " + t, IsNotSpace) == Filter("::" + t, IsNotSpace)
  {
    FilterAppend(" :: ", t, IsNotSpace);
    FilterAppend("::", t, IsNotSpace);
    assert Filter(" :: ", IsNotSpace) == "::" by {
      assert " :: "[1..] == ":: ";
      assert ":: "[1..] == ": ";
      assert ": "[1..] == " ";
    }
    assert Filter("::", IsNotSpace) == "::" by {
      assert "::"[1..] == ":";
    }
  }

  /** The scan for `::` passes over a prefix in which no `::` starts. */
  lemma {:induction false} ReplaceFirstAfter(p: string, rest: string)
    requires |rest| >= 1
    requires forall i :: 0 <= i < |p| ==> !((p + rest)[i] == ':' && (p + rest)[i + 1] == ':')
    ensures ReplaceFirst(p + rest, "::", " :: ") == p + ReplaceFirst(rest, "::", " :: ")
    decreases |p|
  {
    if p != [] {
      var s := p + rest;
      assert s[..2] != "::" by {
        assert s[..2][0] == s[0] && s[..2][1] == s[1];
      }
      assert s[1..] == p[1..] + rest;
      forall i | 0 <= i < |p[1..]|
        ensures !((p[1..] + rest)[i] == ':' && (p[1..] + rest)[i + 1] == ':')
      {
        assert (p[1..] + rest)[i] == s[i + 1] && (p[1..] + rest)[i + 1] == s[i + 2];
      }
      ReplaceFirstAfter(p[1..], rest);
      assert ReplaceFirst(s, "::", " :: ") == [s[0]] + ReplaceFirst(s[1..], "::", " :: ");
      assert [p[0]] + p[1..] == p;
    } else {
      assert p + rest == rest;
    }
  }

  /** Formatting puts one space on each side of the first `::` and leaves
      the rest of the address as it was. */
  lemma FormatFirstDoubleColon(p: string, q: string)
    requires forall i :: 0 <= i < |p| ==> !((p + "::" + q)[i] == ':' && (p + "::" + q)[i + 1] == ':')
    ensures FormatIPAddress(p + "::" + q) == p + " :: " + q
  {
    var rest := "::" + q;
    assert p + "::" + q == p + rest;
    assert (p + rest)[|p|] == ':';
    ReplaceFirstAfter(p, rest);
    assert rest[..2] == "::" && rest[2..] == q;
  }

  /** Digits, dots and colons: what `extractIPPattern` keeps. */
  predicate IsIpPatternChar(c: char) {
    IsDigit(c) || c == '.' || c == ':'
  }

  /** `extractIPPattern(input)`: every character other than a digit, dot or
      colon deleted. */
  function ExtractIPPattern(input: string): (r: string)
    ensures forall i :: 0 <= i < |r| ==> IsIpPatternChar(r[i])
    ensures IsSubsequence(r, input)
    ensures forall c :: c in input && IsIpPatternChar(c) ==> c in r
    ensures forall c :: multiset(r)[c] == if IsIpPatternChar(c) then multiset(input)[c] else 0
  {
    FilterIsSubsequence(input, IsIpPatternChar);
    FilterCounts(input, IsIpPatternChar);
    if input == [] then [] else Filter(input, IsIpPatternChar)
  }

  lemma ExtractIdempotent(input: string)
    ensures ExtractIPPattern(ExtractIPPattern(input)) == ExtractIPPattern(input)
  {
    FilterIdempotent(input, IsIpPatternChar);
  }

  /** Extraction distributes over concatenation. */
  lemma ExtractAppend(a: string, b: string)
    ensures ExtractIPPattern(a + b) == ExtractIPPattern(a) + ExtractIPPattern(b)
  {
    FilterAppend(a, b, IsIpPatternChar);
  }

  /** An accepted IPv4 address is extracted unchanged. */
  lemma ExtractKeepsIPv4(ip: string)
    requires IsValidIPAddress(ip)
    ensures ExtractIPPattern(ip) == ip
  {
    IPv4Chars(ip);
    assert forall i :: 0 <= i < |ip| ==> IsIpPatternChar(ip[i]) by {
      forall i | 0 <= i < |ip| ensures IsIpPatternChar(ip[i]) {
        assert ip[i] in ip;
      }
    }
    FilterKeepsAll(ip, IsIpPatternChar);
  }

  // ===========================================================================
  // Documented examples

  /** An input is accepted by the IPv4 validator when it is the dot-join of
      four octet fields. */
  lemma IPv4FromFields(s: string, fs: seq<string>)
    requires |fs| == 4 && forall i :: 0 <= i < 4 ==> '.' !in fs[i]
    requires s == Join(fs, ".")
    ensures Split(s, '.') == fs
    ensures IsValidIPAddress(s) <==> s != [] && forall i :: 0 <= i < 4 ==> OctetPattern(fs[i])
  {
    SplitJoin(fs, '.');
  }

  lemma IPv4AcceptsPublicResolver(ip: string)
    requires ip == "8.8.8.8"
    ensures IsValidIPAddress(ip)
  {
    var fs := ["8", "8", "8", "8"];
    assert forall i :: 0 <= i < 4 ==> '.' !in fs[i];
    assert forall i :: 0 <= i < 4 ==> OctetPattern(fs[i]);
    assert Join(fs, ".") == ip;
    IPv4FromFields(ip, fs);
  }

  lemma IPv4AcceptsPrivateAddress(ip: string)
    requires ip == "192.168.1.1"
    ensures IsValidIPAddress(ip)
  {
    var fs := ["192", "168", "1", "1"];
    assert forall i :: 0 <= i < 4 ==> '.' !in fs[i];
    assert forall i :: 0 <= i < 4 ==> OctetPattern(fs[i]);
    assert Join(fs, ".") == ip;
    IPv4FromFields(ip, fs);
  }

  lemma IPv4AcceptsBroadcast(ip: string)
    requires ip == "255.255.255.255"
    ensures IsValidIPAddress(ip)
  {
    var fs := ["255", "255", "255", "255"];
    assert forall i :: 0 <= i < 4 ==> '.' !in fs[i];
    assert forall i :: 0 <= i < 4 ==> OctetPattern(fs[i]);
    assert Join(fs, ".") == ip;
    IPv4FromFields(ip, fs);
  }

  /** Leading zeros are accepted. */
  lemma IPv4AcceptsLeadingZero(ip: string)
    requires ip == "010.1.1.1"
    ensures IsValidIPAddress(ip)
  {
    var fs := ["010", "1", "1", "1"];
    assert forall i :: 0 <= i < 4 ==> '.' !in fs[i];
    assert forall i :: 0 <= i < 4 ==> OctetPattern(fs[i]);
    assert Join(fs, ".") == ip;
    IPv4FromFields(ip, fs);
  }

  lemma IPv4RejectsOctetAbove255(ip: string)
    requires ip == "256.1.1.1"
    ensures !IsValidIPAddress(ip)
  {
    var fs := ["256", "1", "1", "1"];
    assert forall i :: 0 <= i < 4 ==> '.' !in fs[i];
    assert !OctetPattern(fs[0]);
    assert Join(fs, ".") == ip;
    IPv4FromFields(ip, fs);
  }

  lemma IPv4RejectsLetters(ip: string)
    requires ip == "abc.def.ghi.jkl"
    ensures !IsValidIPAddress(ip)
  {
    var fs := ["abc", "def", "ghi", "jkl"];
    assert forall i :: 0 <= i < 4 ==> '.' !in fs[i];
    assert !OctetPattern(fs[0]);
    assert Join(fs, ".") == ip;
    IPv4FromFields(ip, fs);
  }

  lemma IPv4RejectsTwoFields(ip: string)
    requires ip == "192.168"
    ensures !IsValidIPAddress(ip)
  {
    var fs := ["192", "168"];
    assert forall i :: 0 <= i < 2 ==> '.' !in fs[i];
    assert Join(fs, ".") == ip;
    SplitJoin(fs, '.');
  }

  /** An input is accepted by the IPv6 validator when its colon-separated
      fields have the shape of some branch. */
  lemma IPv6FromFields(s: string, fs: seq<string>)
    requires |fs| >= 1 && forall i :: 0 <= i < |fs| ==> ':' !in fs[i]
    requires s == Join(fs, ":") && s != []
    requires FullForm(fs) || InnerDoubleColon(fs) || MappedIPv4(fs)
    ensures IsValidIPv6Address(s)
  {
    SplitJoin(fs, ':');
  }

  /** Any eight hexadecimal groups joined with colons are accepted. */
  lemma IPv6AcceptsFullForm(fs: seq<string>)
    requires |fs| == 8 && forall i :: 0 <= i < 8 ==> IsHexGroup(fs[i])
    ensures IsValidIPv6Address(Join(fs, ":"))
  {
    forall i | 0 <= i < 8 ensures ':' !in fs[i] {
      assert IsHexGroup(fs[i]);
    }
    assert Join(fs, ":") != [] by {
      assert Join(fs, ":") == fs[0] + ":" + Join(fs[1..], ":");
    }
    IPv6FromFields(Join(fs, ":"), fs);
  }

  lemma IPv6AcceptsCompressed(ip: string)
    requires ip == "2001:db8:85a3::8a2e:370:7334"
    ensures IsValidIPv6Address(ip)
  {
    var compressed := ["2001", "db8", "85a3", "", "8a2e", "370", "7334"];
    CompressedFields(compressed);
    CompressedJoin(ip, compressed);
    IPv6FromFields(ip, compressed);
  }

  lemma CompressedFields(fs: seq<string>)
    requires fs == ["2001", "db8", "85a3", "", "8a2e", "370", "7334"]
    ensures forall i :: 0 <= i < |fs| ==> ':' !in fs[i]
    ensures InnerDoubleColon(fs)
  {
    assert CompressedAt(fs, 3);
  }

  lemma CompressedJoin(ip: string, fs: seq<string>)
    requires fs == ["2001", "db8", "85a3", "", "8a2e", "370", "7334"]
    requires ip == "2001:db8:85a3::8a2e:370:7334"
    ensures Join(fs, ":") == ip
  {
  }

  lemma IPv6AcceptsMappedIPv4(ip: string)
    requires ip == "::ffff:192.168.1.1"
    ensures IsValidIPv6Address(ip)
  {
    var mapped := ["", "", "ffff", "192.168.1.1"];
    EmbeddedPrivateAddress(mapped[3]);
    MappedFields(mapped);
    MappedJoin(ip, mapped);
    IPv6FromFields(ip, mapped);
  }

  lemma EmbeddedPrivateAddress(v: string)
    requires v == "192.168.1.1"
    ensures IsEmbeddedIPv4(v)
  {
    var v4 := ["192", "168", "1", "1"];
    PrivateAddressFields(v4);
    PrivateAddressJoin(v, v4);
    EmbeddedFromFields(v, v4);
  }

  lemma PrivateAddressFields(fs: seq<string>)
    requires fs == ["192", "168", "1", "1"]
    ensures forall i :: 0 <= i < 4 ==> '.' !in fs[i]
    ensures forall i :: 0 <= i < 4 ==> EmbeddedOctetPattern(fs[i])
  {
  }

  lemma PrivateAddressJoin(v: string, fs: seq<string>)
    requires fs == ["192", "168", "1", "1"]
    requires v == "192.168.1.1"
    ensures Join(fs, ".") == v
  {
  }

  lemma MappedFields(fs: seq<string>)
    requires |fs| == 4 && fs[0] == "" && fs[1] == "" && fs[2] == "ffff"
    requires IsEmbeddedIPv4(fs[3])
    ensures forall i :: 0 <= i < |fs| ==> ':' !in fs[i]
    ensures MappedIPv4(fs)
  {
    EmbeddedIPv4Chars(fs[3]);
  }

  lemma MappedJoin(ip: string, fs: seq<string>)
    requires fs == ["", "", "ffff", "192.168.1.1"]
    requires ip == "::ffff:192.168.1.1"
    ensures Join(fs, ":") == ip
  {
  }

  /** An embedded IPv4 address has no colon. */
  lemma EmbeddedIPv4Chars(v: string)
    requires IsEmbeddedIPv4(v)
    ensures ':' !in v
  {
    var f := Split(v, '.');
    forall i | 0 <= i < |f| ensures ':' !in f[i] {
      assert EmbeddedOctetPattern(f[i]);
    }
    forall k | 0 <= k < |v| ensures v[k] != ':' {
      JoinChars(f, ".", v[k]);
    }
  }

  lemma EmbeddedFromFields(s: string, fs: seq<string>)
    requires |fs| == 4 && forall i :: 0 <= i < 4 ==> '.' !in fs[i]
    requires forall i :: 0 <= i < 4 ==> EmbeddedOctetPattern(fs[i])
    requires s == Join(fs, ".")
    ensures IsEmbeddedIPv4(s)
  {
    SplitJoin(fs, '.');
  }

  /** Blank input is unclassified. */
  lemma DetectBlank()
    ensures DetectSearchType("") == None
    ensures DetectSearchType("   ") == None
  {
  }

  /** A word of ASCII letters is a country search. */
  lemma LettersOnlyIsCountry(q: string)
    requires q != [] && forall i :: 0 <= i < |q| ==> IsAsciiLetter(q[i])
    ensures DetectSearchType(q) == Some(Country)
  {
    assert Trim(q) == q by {
      assert !IsWhitespace(q[0]) && !IsWhitespace(q[|q| - 1]);
      TrimOfUnpadded(q);
    }
    assert forall i :: 0 <= i < |q| ==> IsCountryNameChar(q[i]);
    NoDigitIsNotIPv4(q);
    NoColonIsNotIPv6(q);
    assert IsAsciiLetter(q[0]);
  }

  /** An IPv4 address with whitespace around it is still an IP search. */
  lemma PaddedIPv4IsIp(a: string, ip: string, b: string)
    requires forall i :: 0 <= i < |a| ==> IsWhitespace(a[i])
    requires forall i :: 0 <= i < |b| ==> IsWhitespace(b[i])
    requires IsValidIPAddress(ip)
    ensures DetectSearchType(a + ip + b) == Some(Ip)
  {
    DetectIPv4IsIp(ip);
    DetectIgnoresPadding(a, ip, b);
  }

  /** A string of digits alone is never an address: IPv4 needs dots and IPv6
      needs colons. So a bare number is left unclassified. */
  lemma DigitsOnlyUnclassified(q: string)
    requires q != [] && forall i :: 0 <= i < |q| ==> IsDigit(q[i])
    ensures DetectSearchType(q) == None
  {
    assert Trim(q) == q by {
      assert !IsWhitespace(q[0]) && !IsWhitespace(q[|q| - 1]);
      TrimOfUnpadded(q);
    }
    assert !HasLetterOrSpace(q);
    NoSeparatorIsNotIp(q);
    UnclassifiedQuery(q);
  }

  /** Text with neither a dot nor a colon is no address. */
  lemma NoSeparatorIsNotIp(q: string)
    requires forall i :: 0 <= i < |q| ==> IsDigit(q[i])
    ensures !IsIpAddress(q)
  {
    assert '.' !in q by {
      forall i | 0 <= i < |q| ensures q[i] != '.' { assert IsDigit(q[i]); }
    }
    assert ':' !in q by {
      forall i | 0 <= i < |q| ensures q[i] != ':' { assert IsDigit(q[i]); }
    }
    SplitNoSeparator(q, '.');
    SplitNoSeparator(q, ':');
  }

  /** A trimmed query that is no address and has no letter or space gets no
      classification. */
  lemma UnclassifiedQuery(q: string)
    requires Trim(q) == q && !IsIpAddress(q) && !HasLetterOrSpace(q)
    ensures DetectSearchType(q) == None
  {
  }
}
