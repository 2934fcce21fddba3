// Finding a link in a word of a chat message (src/common/LinkParser.cpp).

module Utf16 {
  type CodeUnit = c: int | 0 <= c < 0x1_0000
  type Text = seq<CodeUnit>
}

module Ipv4 {
  import opened Utf16

  newtype uint8 = x: int | 0 <= x < 0x100
  newtype uint16 = x: int | 0 <= x < 0x1_0000

  const DOT: CodeUnit := '.' as int

  predicate IsAsciiDigit(c: CodeUnit) {
    '0' as int <= c <= '9' as int
  }

  function Value(digits: Text): int {
    if digits == [] then 0
    else Value(digits[..|digits| - 1]) * 10 + (digits[|digits| - 1] - '0' as int)
  }

  predicate IsOctet(s: Text) {
    1 <= |s| <= 3 && (forall c :: c in s ==> IsAsciiDigit(c)) && Value(s) <= 255
  }

  // The groups between the dots of current + rest, of which current is known
  // to hold no dot.
  function Groups(current: Text, rest: Text): (gs: seq<Text>)
    ensures |gs| >= 1
    decreases rest
  {
    if rest == [] then [current]
    else if rest[0] == DOT then [current] + Groups([], rest[1..])
    else Groups(current + [rest[0]], rest[1..])
  }

  predicate IsDottedQuad(host: Text) {
    var gs := Groups([], host);
    |gs| == 4 && forall g :: g in gs ==> IsOctet(g)
  }

  function Join(gs: seq<Text>): Text
    requires gs != []
  {
    if |gs| == 1 then gs[0] else gs[0] + [DOT] + Join(gs[1..])
  }

  function DotCount(s: Text): nat {
    if s == [] then 0 else (if s[0] == DOT then 1 else 0) + DotCount(s[1..])
  }

  // Groups takes a text apart at its dots, and only there.
  lemma {:induction false} GroupsResult(current: Text, rest: Text)
    requires DOT !in current
    ensures Join(Groups(current, rest)) == current + rest
    ensures forall g :: g in Groups(current, rest) ==> DOT !in g
    ensures |Groups(current, rest)| == 1 + DotCount(rest)
    decreases rest
  {
    if rest == [] {
    } else if rest[0] == DOT {
      GroupsResult([], rest[1..]);
      var gs := Groups([], rest[1..]);
      assert ([current] + gs)[1..] == gs;
      assert current + [DOT] + rest[1..] == current + rest;
    } else {
      GroupsResult(current + [rest[0]], rest[1..]);
      assert current + [rest[0]] + rest[1..] == current + rest;
    }
  }

  lemma {:induction false} FirstGroup(current: Text, rest: Text)
    ensures current <= Groups(current, rest)[0]
    decreases rest
  {
    if rest != [] && rest[0] != DOT {
      FirstGroup(current + [rest[0]], rest[1..]);
    }
  }

  lemma {:induction false} ValueGrows(p: Text, s: Text)
    requires p <= s && forall c :: c in s ==> IsAsciiDigit(c)
    ensures 0 <= Value(p) <= Value(s)
  {
    if p == s {
      if p != [] {
        ValueGrows(p[..|p| - 1], p[..|p| - 1]);
        assert p[|p| - 1] in s;
      }
    } else {
      ValueGrows(p, s[..|s| - 1]);
      assert s[|s| - 1] in s;
    }
  }

  // A group that starts with too much is no octet.
  lemma NotAnOctet(p: Text, g: Text)
    requires p <= g
    requires |p| > 3 || (exists c :: c in p && !IsAsciiDigit(c)) || Value(p) > 255
    ensures !IsOctet(g)
  {
    if IsOctet(g) {
      ValueGrows(p, g);
    }
  }

  // After i characters the groups in done are complete and current is what has
  // been read of the next one.
  ghost predicate Scanned(host: Text, i: nat, done: seq<Text>, current: Text) {
    i <= |host| && Groups([], host) == done + Groups(current, host[i..])
  }

  lemma ScanDot(host: Text, i: nat, done: seq<Text>, current: Text)
    requires Scanned(host, i, done, current) && i < |host| && host[i] == DOT
    ensures Scanned(host, i + 1, done + [current], [])
    ensures var gs := Groups([], host); |gs| >= |done| + 2 && gs[|done|] == current && current in gs
  {
    var rest := host[i + 1..];
    assert host[i..][1..] == rest;
    assert Groups([], host) == done + ([current] + Groups([], rest));
    assert Groups([], host) == (done + [current]) + Groups([], rest);
  }

  lemma ScanCharacter(host: Text, i: nat, done: seq<Text>, current: Text)
    requires Scanned(host, i, done, current) && i < |host| && host[i] != DOT
    ensures Scanned(host, i + 1, done, current + [host[i]])
    ensures var gs := Groups([], host);
            |gs| > |done| && gs[|done|] in gs && current + [host[i]] <= gs[|done|]
  {
    var rest := host[i + 1..];
    assert host[i..][1..] == rest;
    FirstGroup(current + [host[i]], rest);
    assert Groups([], host)[|done|] == Groups(current + [host[i]], rest)[0];
  }

  lemma AllRead(host: Text, done: seq<Text>, current: Text)
    requires Scanned(host, |host|, done, current)
    requires forall g :: g in done ==> IsOctet(g)
    requires |current| <= 3 && (forall c :: c in current ==> IsAsciiDigit(c)) && Value(current) <= 255
    ensures IsDottedQuad(host) <==> |done| == 3 && current != []
  {
    NothingLeft(host);
    OctetsOf(done, current);
  }

  lemma NothingLeft(host: Text)
    ensures host[|host|..] == []
  {
  }

  lemma OctetsOf(done: seq<Text>, current: Text)
    requires forall g :: g in done ==> IsOctet(g)
    requires |current| <= 3 && (forall c :: c in current ==> IsAsciiDigit(c)) && Value(current) <= 255
    ensures (forall g :: g in done + [current] ==> IsOctet(g)) <==> current != []
  {
    assert current in done + [current];
  }

  // The accumulators have the widths of the source; that they never overflow
  // is part of what is verified.
  method IsValidIpv4(host: Text) returns (valid: bool)
    ensures valid <==> IsDottedQuad(host)
  {
    var sectionValue: uint16, octetNumber: uint8, sectionDigits: uint8 := 0, 0, 0;
    var lastWasDot := true;
    ghost var done: seq<Text>, current: Text := [], [];
    var i := 0;
    assert host[0..] == host;
    while i < |host|
      invariant Scanned(host, i, done, current)
      invariant |done| == octetNumber as int <= 3
      invariant forall g :: g in done ==> IsOctet(g)
      invariant lastWasDot <==> current == []
      invariant |current| == sectionDigits as int <= 3
      invariant forall c :: c in current ==> IsAsciiDigit(c)
      invariant Value(current) == sectionValue as int <= 255
    {
      var c := host[i];
      if c == DOT {
        ScanDot(host, i, done, current);
        if lastWasDot || octetNumber == 3 {
          return false;
        }
        lastWasDot := true;
        octetNumber := octetNumber + 1;
        sectionValue, sectionDigits := 0, 0;
        done, current := done + [current], [];
      } else {
        lastWasDot := false;
        ScanCharacter(host, i, done, current);
        ghost var longer := current + [c];
        ghost var g := Groups([], host)[|done|];
        assert longer[..|longer| - 1] == current && c in longer;
        if c > '9' as int || c < '0' as int {
          NotAnOctet(longer, g);
          return false;
        }
        sectionValue := sectionValue * 10 + (c - '0' as int) as uint16;
        sectionDigits := sectionDigits + 1;
        current := longer;
        if sectionValue >= 256 || sectionDigits > 3 {
          NotAnOctet(longer, g);
          return false;
        }
      }
      i := i + 1;
    }
    AllRead(host, done, current);
    return octetNumber == 3 && !lastWasDot;
  }
}

module LinkParser {
  import opened Options
  import opened Utf16
  import opened Ipv4

  // A QStringView into the source, by offsets.
  datatype View = View(begin: nat, end: nat) {
    predicate In(source: Text) {
      begin <= end <= |source|
    }

    function Of(source: Text): Text
      requires In(source)
    {
      source[begin..end]
    }
  }

  datatype Parsed = Parsed(protocol: View, host: View, rest: View, link: View)

  predicate IsLeading(c: CodeUnit) {
    || c == '<' as int || c == '*' as int || c == '_' as int || c == '~' as int || c == '(' as int
  }

  predicate IsTrailing(c: CodeUnit) {
    || c == '>' as int || c == '?' as int || c == '!' as int || c == '.' as int || c == ',' as int
    || c == ':' as int || c == '*' as int || c == '~' as int || c == ')' as int
  }

  predicate IsSeparator(c: CodeUnit) {
    c == '/' as int || c == '?' as int || c == '#' as int
  }

  predicate IsValidDomainChar(c: CodeUnit) {
    || c >= 0x80
    || '0' as int <= c <= '9' as int || 'A' as int <= c <= 'Z' as int || 'a' as int <= c <= 'z' as int
    || c == '_' as int || c == '-' as int || c == '.' as int
  }

  // Ends the host without being part of it.
  predicate IsDelimiter(c: CodeUnit) {
    c == ':' as int || IsSeparator(c)
  }

  // What strip leaves of the source.
  ghost predicate IsStripped(source: Text, link: View) {
    && link.In(source)
    && (forall k :: 0 <= k < link.begin ==> IsLeading(source[k]))
    && (link.begin < |source| ==> !IsLeading(source[link.begin]))
    && (forall k :: link.end <= k < |source| ==> IsTrailing(source[k]))
    && (link.begin < link.end ==> !IsTrailing(source[link.end - 1]))
  }

  method Strip(source: Text) returns (link: View)
    ensures IsStripped(source, link)
  {
    var b, e := 0, |source|;
    while b < e && IsLeading(source[b])
      invariant 0 <= b <= e == |source|
      invariant forall k :: 0 <= k < b ==> IsLeading(source[k])
    {
      b := b + 1;
    }
    while b < e && IsTrailing(source[e - 1])
      invariant b <= e <= |source|
      invariant forall k :: e <= k < |source| ==> IsTrailing(source[k])
    {
      e := e - 1;
    }
    return View(b, e);
  }

  // Up to five characters are looked at: digits, which a path, query or
  // fragment may follow.
  ghost predicate IsPort(s: Text, isDigit: CodeUnit -> bool) {
    exists k: nat :: IsPortOfLength(s, isDigit, k)
  }

  ghost predicate IsPortOfLength(s: Text, isDigit: CodeUnit -> bool, k: nat) {
    var n := if |s| < 5 then |s| else 5;
    k <= n && (forall i :: 0 <= i < k ==> isDigit(s[i])) && (k == n || (k >= 1 && IsSeparator(s[k])))
  }

  method StartsWithPort(s: Text, isDigit: CodeUnit -> bool) returns (ok: bool)
    ensures ok <==> IsPort(s, isDigit)
  {
    var n := if |s| < 5 then |s| else 5;
    var i := 0;
    while i < n
      invariant 0 <= i <= n
      invariant forall j :: 0 <= j < i ==> isDigit(s[j])
      invariant forall k :: 1 <= k < i ==> !IsSeparator(s[k])
    {
      if i >= 1 && IsSeparator(s[i]) {
        assert IsPortOfLength(s, isDigit, i);
        return true;
      }
      if !isDigit(s[i]) {
        forall k: nat ensures !IsPortOfLength(s, isDigit, k) {}
        return false;
      }
      i := i + 1;
    }
    assert IsPortOfLength(s, isDigit, n);
    return true;
  }

  function Lower(c: CodeUnit): CodeUnit {
    if 'A' as int <= c <= 'Z' as int then c + 32 else c
  }

  predicate SameIgnoringCase(s: Text, t: string) {
    |s| == |t| && forall i :: 0 <= i < |s| ==> Lower(s[i]) == t[i] as int
  }

  // The length of "http://" or "https://" at the start of the link, or 0.
  function ProtocolLength(link: Text): (n: nat)
    ensures n <= |link| && n in {0, 7, 8}
  {
    if |link| < 8 || !SameIgnoringCase(link[..4], "http") then 0
    else
      var s := if Lower(link[4]) == 's' as int then 5 else 4;
      if link[s] == ':' as int && link[s + 1] == '/' as int && link[s + 2] == '/' as int then s + 3 else 0
  }

  predicate DotsAreSingle(host: Text) {
    forall k :: 0 <= k < |host| && host[k] == DOT ==> k > 0 && host[k - 1] != DOT
  }

  ghost predicate IsLastDot(host: Text, d: nat) {
    d < |host| && host[d] == DOT && forall k :: d < k < |host| ==> host[k] != DOT
  }

  // The host is the part of the text that holds no delimiter.
  ghost predicate IsHostOf(text: Text, n: nat) {
    && n <= |text|
    && (forall k :: 0 <= k < n ==> !IsDelimiter(text[k]))
    && (n < |text| ==> IsDelimiter(text[n]))
  }

  ghost predicate EndsLikeAHost(host: Text, isTld: Text -> bool) {
    exists d: nat :: IsLastDot(host, d) && (IsDottedQuad(host) || isTld(host[d + 1..]))
  }

  ghost predicate IsAcceptedHost(host: Text, isTld: Text -> bool) {
    && (forall k :: 0 <= k < |host| ==> IsValidDomainChar(host[k]))
    && DotsAreSingle(host)
    && EndsLikeAHost(host, isTld)
  }

  // What makes a text behind the protocol a link, given its host's length.
  ghost predicate IsLinkText(text: Text, n: nat, isTld: Text -> bool, isDigit: CodeUnit -> bool) {
    && IsHostOf(text, n)
    && IsAcceptedHost(text[..n], isTld)
    && (n < |text| && text[n] == ':' as int ==> IsPort(text[n + 1..], isDigit))
  }

  // The clamped nesting depth of parentheses in source[from..k].
  function Depth(source: Text, from: nat, k: nat): nat
    requires from <= k <= |source|
    decreases k
  {
    if k == from then 0
    else
      var d := Depth(source, from, k - 1);
      if source[k - 1] == '(' as int then d + 1
      else if source[k - 1] == ')' as int && d > 0 then d - 1
      else d
  }

  // source[k] closes the outermost open parenthesis.
  predicate Closes(source: Text, from: nat, k: nat)
    requires from <= k < |source|
  {
    source[k] == ')' as int && Depth(source, from, k) == 1
  }

  // end is where a link that was cut off at stripped really ends: it reaches
  // over the last closed group of parentheses.
  ghost predicate IsExtension(source: Text, rest: View, stripped: nat, end: nat)
    requires rest.begin <= stripped <= |source|
  {
    if rest.begin == stripped then end == stripped
    else
      && stripped <= end <= |source|
      && (end > stripped ==> Closes(source, rest.begin, end - 1))
      && (forall k :: rest.begin <= k < |source| && Closes(source, rest.begin, k) ==> k < end)
  }

  // Everything parse promises about its result.
  ghost predicate IsParse(source: Text, p: Parsed, isTld: Text -> bool, isDigit: CodeUnit -> bool) {
    exists stripped: View :: IsParseOf(source, stripped, p) && IsLink(source, stripped, p, isTld, isDigit)
  }

  // The views have the right bounds ...
  ghost predicate IsParseOf(source: Text, stripped: View, p: Parsed) {
    && IsStripped(source, stripped)
    && p.protocol == View(stripped.begin, AfterProtocol(source, stripped))
    && p.host.begin == p.protocol.end <= p.host.end <= stripped.end
    && p.rest == View(p.host.end, p.link.end)
    && p.link.begin == stripped.begin
    && IsExtension(source, p.rest, stripped.end, p.link.end)
  }

  // ... and the text behind the protocol is a link.
  ghost predicate IsLink(source: Text, stripped: View, p: Parsed, isTld: Text -> bool, isDigit: CodeUnit -> bool)
    requires IsParseOf(source, stripped, p)
  {
    IsLinkText(source[p.host.begin..stripped.end], p.host.end - p.host.begin, isTld, isDigit)
  }

  function AfterProtocol(source: Text, stripped: View): (start: nat)
    requires stripped.In(source)
    ensures stripped.begin <= start <= stripped.end
  {
    stripped.begin + ProtocolLength(stripped.Of(source))
  }

  lemma {:induction false} DotCountAppend(s: Text, c: CodeUnit)
    ensures DotCount(s + [c]) == DotCount(s) + if c == DOT then 1 else 0
  {
    if s != [] {
      DotCountAppend(s[1..], c);
      assert (s + [c])[1..] == s[1..] + [c];
    }
  }

  // The host scan.  None is an early return of parse; otherwise the length of
  // the host, its number of dots and the position of its last dot (-1 if there
  // is none).
  datatype Host = Host(length: nat, nDots: nat, lastDotPos: int, lastWasDot: bool)

  ghost predicate IsScan(text: Text, i: nat, h: Host) {
    && i <= |text|
    && (forall k :: 0 <= k < i ==> !IsDelimiter(text[k]) && IsValidDomainChar(text[k]))
    && DotsAreSingle(text[..i])
    && h.nDots == DotCount(text[..i])
    && (if h.lastDotPos == -1 then forall k :: 0 <= k < i ==> text[k] != DOT
        else h.lastDotPos >= 0 && IsLastDot(text[..i], h.lastDotPos))
  }

  lemma ScanStep(text: Text, i: nat, h: Host)
    requires IsScan(text, i, h) && i < |text|
    requires !IsDelimiter(text[i]) && IsValidDomainChar(text[i])
    requires text[i] == DOT ==> i > 0 && text[i - 1] != DOT
    ensures IsScan(text, i + 1, if text[i] == DOT then h.(nDots := h.nDots + 1, lastDotPos := i) else h)
  {
    assert text[..i + 1] == text[..i] + [text[i]];
    DotCountAppend(text[..i], text[i]);
    var host := text[..i + 1];
    forall k | 0 <= k < |host| && host[k] == DOT ensures k > 0 && host[k - 1] != DOT {
      if k < i { assert text[..i][k] == DOT; }
    }
  }

  method ScanHost(text: Text, isDigit: CodeUnit -> bool) returns (r: Option<Host>)
    ensures r.Some? ==>
              && IsHostOf(text, r.value.length)
              && IsScan(text, r.value.length, r.value)
              && (r.value.lastWasDot <==>
                   r.value.length == |text| && (text == [] || text[|text| - 1] == DOT))
              && (r.value.length < |text| && text[r.value.length] == ':' as int ==>
                   IsPort(text[r.value.length + 1..], isDigit))
    ensures r.None? ==> forall isTld, n: nat :: !IsLinkText(text, n, isTld, isDigit)
  {
    var lastWasDot, lastDotPos, nDots := true, -1, 0;
    var i := 0;
    while i < |text|
      invariant 0 <= i <= |text|
      invariant IsScan(text, i, Host(i, nDots, lastDotPos, lastWasDot))
      invariant lastWasDot <==> i == 0 || text[i - 1] == DOT
    {
      var c := text[i];
      ghost var h := Host(i, nDots, lastDotPos, lastWasDot);
      if c == DOT {
        if lastWasDot {
          NoHost(text, i, isDigit);
          return None;
        }
        lastDotPos, lastWasDot, nDots := i, true, nDots + 1;
      } else {
        lastWasDot := false;
      }
      if c == ':' as int {
        var port := StartsWithPort(text[i + 1..], isDigit);
        if !port {
          NoHost(text, i, isDigit);
          return None;
        }
        return Some(Host(i, nDots, lastDotPos, lastWasDot));
      }
      if IsSeparator(c) {
        return Some(Host(i, nDots, lastDotPos, lastWasDot));
      }
      if !IsValidDomainChar(c) {
        NoHost(text, i, isDigit);
        return None;
      }
      ScanStep(text, i, h);
      i := i + 1;
    }
    return Some(Host(|text|, nDots, lastDotPos, lastWasDot));
  }

  // The early returns of the host scan.
  lemma NoHost(text: Text, i: nat, isDigit: CodeUnit -> bool)
    requires i < |text| && forall k :: 0 <= k < i ==> !IsDelimiter(text[k])
    requires || (text[i] == DOT && (i == 0 || text[i - 1] == DOT))
             || (text[i] == ':' as int && !IsPort(text[i + 1..], isDigit))
             || (!IsDelimiter(text[i]) && !IsValidDomainChar(text[i]))
    ensures forall isTld, n: nat :: !IsLinkText(text, n, isTld, isDigit)
  {
    forall isTld, n: nat ensures !IsLinkText(text, n, isTld, isDigit) {
    }
  }

  // Where the link ends once parentheses behind it are taken into account.
  method ExtendOverParentheses(source: Text, from: nat, stripped: nat) returns (end: nat)
    requires from < stripped <= |source|
    ensures IsExtension(source, View(from, end), stripped, end)
  {
    var nestingLevel := 0;
    end := stripped;
    var it := from;
    while it < |source|
      invariant from <= it <= |source|
      invariant nestingLevel == Depth(source, from, it)
      invariant stripped <= end <= |source|
      invariant end > stripped ==> end <= it && Closes(source, from, end - 1)
      invariant forall k :: from <= k < it && Closes(source, from, k) ==> k < end
    {
      if source[it] == '(' as int {
        nestingLevel := nestingLevel + 1;
      } else if nestingLevel != 0 && source[it] == ')' as int {
        nestingLevel := nestingLevel - 1;
        if nestingLevel == 0 && it + 1 > end {
          end := it + 1;
        }
      }
      it := it + 1;
    }
  }

  lemma {:induction false} LastGroup(current: Text, rest: Text)
    requires rest != [] && rest[|rest| - 1] == DOT
    ensures [] in Groups(current, rest)
    decreases rest
  {
    if |rest| == 1 {
      assert Groups([], rest[1..]) == [[]];
    } else if rest[0] == DOT {
      LastGroup([], rest[1..]);
    } else {
      LastGroup(current + [rest[0]], rest[1..]);
    }
  }

  // An address has three dots, none of them at its end.
  lemma QuadShape(host: Text)
    requires IsDottedQuad(host)
    ensures DotCount(host) == 3 && host != [] && host[|host| - 1] != DOT
  {
    GroupsResult([], host);
    if host != [] && host[|host| - 1] == DOT {
      LastGroup([], host);
    }
  }

  lemma AcceptedHostShape(host: Text, isTld: Text -> bool)
    requires IsAcceptedHost(host, isTld) && !isTld([])
    ensures IsPlausibleHost(host)
  {
    var d: nat :| IsLastDot(host, d) && (IsDottedQuad(host) || isTld(host[d + 1..]));
    assert host[d + 1..] == [] <==> d == |host| - 1;
    if IsDottedQuad(host) {
      QuadShape(host);
    }
  }

  method Parse(source: Text, isTld: Text -> bool, isDigit: CodeUnit -> bool) returns (result: Option<Parsed>)
    requires !isTld([])
    ensures result.Some? ==> IsParse(source, result.value, isTld, isDigit)
    ensures result.None? ==> forall p :: !IsParse(source, p, isTld, isDigit)
  {
    var stripped := Strip(source);
    var start := AfterProtocol(source, stripped);
    var n := HostLength(source[start..stripped.end], isTld, isDigit);
    if n.None? {
      NoParse(source, stripped, isTld, isDigit);
      return None;
    }
    var hostEnd := start + n.value;
    var end := stripped.end;
    if stripped.end != |source| && hostEnd != stripped.end {
      end := ExtendOverParentheses(source, hostEnd, stripped.end);
    } else if hostEnd != stripped.end {
      NoRestToExtend(source, hostEnd);
    }
    var p := Parsed(View(stripped.begin, start), View(start, hostEnd), View(hostEnd, end), View(stripped.begin, end));
    assert IsParseOf(source, stripped, p) && IsLink(source, stripped, p, isTld, isDigit);
    return Some(p);
  }

  // The checks on the host, in the order of the source.
  method HostLength(remaining: Text, isTld: Text -> bool, isDigit: CodeUnit -> bool) returns (length: Option<nat>)
    requires !isTld([])
    ensures length.Some? ==> IsLinkText(remaining, length.value, isTld, isDigit)
    ensures length.None? ==> forall k: nat :: !IsLinkText(remaining, k, isTld, isDigit)
  {
    var h := ScanHost(remaining, isDigit);
    if h.None? {
      return None;
    }
    var Host(n, nDots, lastDotPos, lastWasDot) := h.value;
    var host := remaining[..n];
    if lastWasDot || lastDotPos <= 0 {
      NotALink(remaining, h.value, isTld, isDigit);
      return None;
    }
    var valid := false;
    if nDots == 3 {
      valid := IsValidIpv4(host);
    }
    if !valid && !isTld(host[lastDotPos + 1..]) {
      NotALink(remaining, h.value, isTld, isDigit);
      return None;
    }
    assert EndsLikeAHost(host, isTld) by {
      assert IsLastDot(host, lastDotPos);
    }
    return Some(n);
  }

  lemma NoRestToExtend(source: Text, from: nat)
    requires from <= |source|
    ensures IsExtension(source, View(from, |source|), |source|, |source|)
  {
  }

  // The later returns of parse: no dot inside the host, a dot at its end, or
  // neither an address nor a known top level domain.
  lemma NotALink(text: Text, h: Host, isTld: Text -> bool, isDigit: CodeUnit -> bool)
    requires !isTld([])
    requires IsHostOf(text, h.length) && IsScan(text, h.length, h)
    requires h.lastWasDot <==> h.length == |text| && (text == [] || text[|text| - 1] == DOT)
    requires || h.lastWasDot || h.lastDotPos <= 0
             || ((h.nDots != 3 || !IsDottedQuad(text[..h.length])) && !isTld(text[..h.length][h.lastDotPos + 1..]))
    ensures forall n: nat :: !IsLinkText(text, n, isTld, isDigit)
  {
    forall n: nat ensures !IsLinkText(text, n, isTld, isDigit) {
      if IsLinkText(text, n, isTld, isDigit) {
        HostIsUnique(text, n, h.length);
        NotAccepted(text, h, isTld);
        assert false;
      }
    }
  }

  // What an accepted host has to do with what the scan found.
  lemma AcceptedScan(text: Text, h: Host, isTld: Text -> bool)
    requires !isTld([]) && IsScan(text, h.length, h) && IsAcceptedHost(text[..h.length], isTld)
    ensures h.length == |text| ==> text != [] && text[|text| - 1] != DOT
    ensures h.lastDotPos > 0
    ensures (h.nDots == 3 && IsDottedQuad(text[..h.length])) || isTld(text[..h.length][h.lastDotPos + 1..])
  {
    AcceptedEnd(text[..h.length], h.nDots, h.lastDotPos, isTld);
  }

  lemma AcceptedEnd(host: Text, nDots: nat, lastDotPos: int, isTld: Text -> bool)
    requires !isTld([]) && IsAcceptedHost(host, isTld) && nDots == DotCount(host)
    requires if lastDotPos == -1 then DOT !in host else lastDotPos >= 0 && IsLastDot(host, lastDotPos)
    ensures host != [] && host[|host| - 1] != DOT
    ensures lastDotPos > 0
    ensures (nDots == 3 && IsDottedQuad(host)) || isTld(host[lastDotPos + 1..])
  {
    AcceptedHostShape(host, isTld);
    var d: nat :| IsLastDot(host, d) && (IsDottedQuad(host) || isTld(host[d + 1..]));
    LastDotIsUnique(host, lastDotPos, d);
    if IsDottedQuad(host) {
      QuadShape(host);
    }
  }

  lemma LastDotIsUnique(host: Text, lastDotPos: int, d: nat)
    requires IsLastDot(host, d) && DotsAreSingle(host)
    requires if lastDotPos == -1 then DOT !in host else lastDotPos >= 0 && IsLastDot(host, lastDotPos)
    ensures d == lastDotPos > 0
  {
    assert host[d] in host;
  }

  lemma NotAccepted(text: Text, h: Host, isTld: Text -> bool)
    requires !isTld([]) && IsScan(text, h.length, h)
    requires || (h.length == |text| && (text == [] || text[|text| - 1] == DOT))
             || h.lastDotPos <= 0
             || ((h.nDots != 3 || !IsDottedQuad(text[..h.length])) && !isTld(text[..h.length][h.lastDotPos + 1..]))
    ensures !IsAcceptedHost(text[..h.length], isTld)
  {
    if IsAcceptedHost(text[..h.length], isTld) {
      AcceptedScan(text, h, isTld);
    }
  }

  // Stripping, the protocol, the host and the extension are each determined by
  // the source.
  lemma StrippedIsUnique(source: Text, v: View, w: View)
    requires IsStripped(source, v) && IsStripped(source, w)
    ensures v == w
  {
  }

  lemma HostIsUnique(text: Text, m: nat, n: nat)
    requires IsHostOf(text, m) && IsHostOf(text, n)
    ensures m == n
  {
  }

  lemma ExtensionIsUnique(source: Text, from: nat, stripped: nat, e: nat, f: nat)
    requires from <= stripped <= |source|
    requires IsExtension(source, View(from, e), stripped, e) && IsExtension(source, View(from, f), stripped, f)
    ensures e == f
  {
  }

  lemma NoParse(source: Text, stripped: View, isTld: Text -> bool, isDigit: CodeUnit -> bool)
    requires IsStripped(source, stripped)
    requires forall n: nat :: !IsLinkText(source[AfterProtocol(source, stripped)..stripped.end], n, isTld, isDigit)
    ensures forall p :: !IsParse(source, p, isTld, isDigit)
  {
    forall p ensures !IsParse(source, p, isTld, isDigit) {
      if IsParse(source, p, isTld, isDigit) {
        var v :| IsParseOf(source, v, p) && IsLink(source, v, p, isTld, isDigit);
        StrippedIsUnique(source, stripped, v);
        assert false;
      }
    }
  }

  lemma Witness(source: Text, p: Parsed, isTld: Text -> bool, isDigit: CodeUnit -> bool) returns (v: View)
    requires IsParse(source, p, isTld, isDigit)
    ensures IsParseOf(source, v, p)
    ensures IsHostOf(source[p.host.begin..v.end], p.host.end - p.host.begin)
    ensures p.host.In(source) && IsAcceptedHost(p.host.Of(source), isTld)
  {
    v :| IsParseOf(source, v, p) && IsLink(source, v, p, isTld, isDigit);
    HostOfLink(source, v, p, isTld, isDigit);
  }

  lemma HostOfLink(source: Text, v: View, p: Parsed, isTld: Text -> bool, isDigit: CodeUnit -> bool)
    requires IsParseOf(source, v, p) && IsLink(source, v, p, isTld, isDigit)
    ensures IsHostOf(source[p.host.begin..v.end], p.host.end - p.host.begin)
    ensures p.host.In(source) && IsAcceptedHost(p.host.Of(source), isTld)
  {
    PartOfPart(source, p.host.begin, p.host.end, v.end);
  }

  lemma PartOfPart(source: Text, from: nat, mid: nat, to: nat)
    requires from <= mid <= to <= |source|
    ensures source[from..to][..mid - from] == source[from..mid]
  {
  }

  lemma SameViews(source: Text, v: View, p: Parsed, w: View, q: Parsed)
    requires IsParseOf(source, v, p) && IsHostOf(source[p.host.begin..v.end], p.host.end - p.host.begin)
    requires IsParseOf(source, w, q) && IsHostOf(source[q.host.begin..w.end], q.host.end - q.host.begin)
    ensures p == q
  {
    StrippedIsUnique(source, v, w);
    HostIsUnique(source[p.host.begin..v.end], p.host.end - p.host.begin, q.host.end - q.host.begin);
    ExtensionIsUnique(source, p.host.end, v.end, p.link.end, q.link.end);
  }

  // A source has at most one parse.
  lemma ParseIsUnique(source: Text, p: Parsed, q: Parsed, isTld: Text -> bool, isDigit: CodeUnit -> bool)
    requires IsParse(source, p, isTld, isDigit) && IsParse(source, q, isTld, isDigit)
    ensures p == q
  {
    var v := Witness(source, p, isTld, isDigit);
    var w := Witness(source, q, isTld, isDigit);
    SameViews(source, v, p, w, q);
  }

  lemma Pieces(source: Text, v: View, p: Parsed)
    requires IsParseOf(source, v, p)
    ensures p.protocol.In(source) && p.host.In(source) && p.rest.In(source) && p.link.In(source)
    ensures source == source[..p.link.begin] + p.link.Of(source) + source[p.link.end..]
    ensures p.link.Of(source) == p.protocol.Of(source) + p.host.Of(source) + p.rest.Of(source)
    ensures |p.protocol.Of(source)| in {0, 7, 8}
    ensures forall k :: 0 <= k < p.link.begin ==> IsLeading(source[k])
  {
    Parts(source, 0, p.link.begin, p.link.end, |source|);
    Parts(source, p.protocol.begin, p.host.begin, p.rest.begin, p.rest.end);
  }

  lemma Parts(source: Text, a: nat, b: nat, c: nat, d: nat)
    requires a <= b <= c <= d <= |source|
    ensures source[a..d] == source[a..b] + source[b..c] + source[c..d]
    ensures source[0..d] == source[..d] && source[c..|source|] == source[c..] && source[0..|source|] == source
  {
  }

  // What a caller sees: the pieces make up the source and the link ...
  lemma ParseDecomposes(source: Text, p: Parsed, isTld: Text -> bool, isDigit: CodeUnit -> bool)
    requires IsParse(source, p, isTld, isDigit)
    ensures p.protocol.In(source) && p.host.In(source) && p.rest.In(source) && p.link.In(source)
    ensures source == source[..p.link.begin] + p.link.Of(source) + source[p.link.end..]
    ensures p.link.Of(source) == p.protocol.Of(source) + p.host.Of(source) + p.rest.Of(source)
    ensures |p.protocol.Of(source)| in {0, 7, 8}
    ensures forall k :: 0 <= k < p.link.begin ==> IsLeading(source[k])
  {
    var v := Witness(source, p, isTld, isDigit);
    Pieces(source, v, p);
  }

  // ... and the host is a plausible one.
  predicate IsPlausibleHost(host: Text) {
    && (forall k :: 0 <= k < |host| ==> IsValidDomainChar(host[k]))
    && DotsAreSingle(host)
    && DOT in host && host[|host| - 1] != DOT
  }

  lemma ParsedHostIsPlausible(source: Text, p: Parsed, isTld: Text -> bool, isDigit: CodeUnit -> bool)
    requires IsParse(source, p, isTld, isDigit) && !isTld([])
    ensures p.host.In(source) && IsPlausibleHost(p.host.Of(source))
  {
    var v := Witness(source, p, isTld, isDigit);
    AcceptedHostShape(p.host.Of(source), isTld);
  }
}
