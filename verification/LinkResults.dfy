// Which sources hold a link, and how it is taken apart
// (src/common/LinkParser.cpp).

module LinkResults {
  import opened Sequences
  import opened Utf16
  import opened Ipv4
  import opened LinkParser

  // s is written in these lower or upper case letters.
  predicate Spells(s: Text, lower: string, upper: string)
    requires |lower| == |upper|
  {
    |s| == |lower| && forall i :: 0 <= i < |s| ==> s[i] == lower[i] as int || s[i] == upper[i] as int
  }

  predicate IsProtocol(s: Text) {
    Spells(s, "http://", "HTTP://") || Spells(s, "https://", "HTTPS://")
  }

  // The first k units of the link are its protocol.
  predicate HasProtocol(link: Text, k: nat) {
    k <= |link| && IsProtocol(link[..k])
  }

  lemma ProtocolIsFound(link: Text, k: nat)
    requires HasProtocol(link, k) && |link| >= 8
    ensures ProtocolLength(link) == k
  {
    var p := link[..k];
    assert p[0] == link[0] && p[1] == link[1] && p[2] == link[2] && p[3] == link[3];
    assert p[4] == link[4] && p[5] == link[5] && p[6] == link[6];
    assert k == 8 ==> p[7] == link[7];
    var head := link[..4];
    assert head[0] == link[0] && head[1] == link[1] && head[2] == link[2] && head[3] == link[3];
  }

  lemma FoundIsProtocol(link: Text)
    ensures var k := ProtocolLength(link); k > 0 ==> HasProtocol(link, k)
  {
    var k := ProtocolLength(link);
    if k > 0 {
      var head, p := link[..4], link[..k];
      assert head[0] == link[0] && head[1] == link[1] && head[2] == link[2] && head[3] == link[3];
      assert p[0] == link[0] && p[1] == link[1] && p[2] == link[2] && p[3] == link[3];
      assert p[4] == link[4] && p[5] == link[5] && p[6] == link[6];
      assert k == 8 ==> p[7] == link[7];
    }
  }

  // Where the last group of parentheses closes in front of k.
  function LastClosed(source: Text, from: nat, k: nat): (e: nat)
    requires from <= k <= |source|
    ensures e == 0 || (from < e <= k && Closes(source, from, e - 1))
    ensures forall j :: from <= j < k && Closes(source, from, j) ==> j < e
    decreases k
  {
    if k == from then 0
    else if Closes(source, from, k - 1) then k
    else LastClosed(source, from, k - 1)
  }

  // The link is k units of protocol (none, if it has none) in front of a text
  // that begins with a host of n units.
  ghost predicate IsLinkAt(source: Text, v: View, k: nat, n: nat, isTld: Text -> bool, isDigit: CodeUnit -> bool) {
    && IsStripped(source, v)
    && v.begin + k + n <= v.end
    && (if k == 0 then forall j: nat :: !HasProtocol(v.Of(source), j) else HasProtocol(v.Of(source), k))
    && IsLinkText(source[v.begin + k..v.end], n, isTld, isDigit)
  }

  lemma LinkTextIsLong(text: Text, n: nat, isTld: Text -> bool, isDigit: CodeUnit -> bool)
    requires IsLinkText(text, n, isTld, isDigit)
    ensures |text| >= n >= 1
  {
    var d: nat :| IsLastDot(text[..n], d);
  }

  lemma ProtocolOfLink(source: Text, v: View, k: nat, n: nat, isTld: Text -> bool, isDigit: CodeUnit -> bool)
    requires IsLinkAt(source, v, k, n, isTld, isDigit)
    ensures AfterProtocol(source, v) == v.begin + k
  {
    var link := v.Of(source);
    LinkTextIsLong(source[v.begin + k..v.end], n, isTld, isDigit);
    FoundIsProtocol(link);
    if k > 0 {
      ProtocolIsFound(link, k);
    }
  }

  // Such a source is parsed into this protocol and this host ...
  lemma LinkIsParsed(source: Text, v: View, k: nat, n: nat, isTld: Text -> bool, isDigit: CodeUnit -> bool)
    returns (p: Parsed)
    requires IsLinkAt(source, v, k, n, isTld, isDigit)
    ensures IsParse(source, p, isTld, isDigit)
    ensures p.protocol == View(v.begin, v.begin + k) && p.host == View(v.begin + k, v.begin + k + n)
  {
    ProtocolOfLink(source, v, k, n, isTld, isDigit);
    var hostEnd := v.begin + k + n;
    var closed := if hostEnd == v.end then 0 else LastClosed(source, hostEnd, |source|);
    var end := if closed > v.end then closed else v.end;
    p := Parsed(View(v.begin, v.begin + k), View(v.begin + k, hostEnd), View(hostEnd, end), View(v.begin, end));
    assert IsExtension(source, p.rest, v.end, end);
    assert IsParseOf(source, v, p);
    assert IsLink(source, v, p, isTld, isDigit);
  }

  // ... and no other source is parsed.
  lemma ParsedIsLink(source: Text, p: Parsed, isTld: Text -> bool, isDigit: CodeUnit -> bool)
    returns (v: View, k: nat, n: nat)
    requires IsParse(source, p, isTld, isDigit)
    ensures IsLinkAt(source, v, k, n, isTld, isDigit)
    ensures p.protocol == View(v.begin, v.begin + k) && p.host == View(v.begin + k, v.begin + k + n)
  {
    v :| IsParseOf(source, v, p) && IsLink(source, v, p, isTld, isDigit);
    var link := v.Of(source);
    k, n := p.protocol.end - v.begin, p.host.end - p.host.begin;
    FoundIsProtocol(link);
    if k == 0 {
      NoProtocol(source, v, n, isTld, isDigit);
    }
  }

  // What is left of a protocol alone is no link.
  lemma NoProtocol(source: Text, v: View, n: nat, isTld: Text -> bool, isDigit: CodeUnit -> bool)
    requires IsStripped(source, v) && ProtocolLength(v.Of(source)) == 0
    requires IsLinkText(source[v.begin..v.end], n, isTld, isDigit)
    ensures forall j: nat :: !HasProtocol(v.Of(source), j)
  {
    var link := v.Of(source);
    forall j: nat ensures !HasProtocol(link, j) {
      if HasProtocol(link, j) {
        if |link| >= 8 {
          ProtocolIsFound(link, j);
        } else {
          ShortIsNoLink(link, n, isTld, isDigit);
        }
      }
    }
  }

  lemma ShortIsNoLink(link: Text, n: nat, isTld: Text -> bool, isDigit: CodeUnit -> bool)
    requires HasProtocol(link, |link|) && |link| == 7
    ensures !IsLinkText(link, n, isTld, isDigit)
  {
    assert link[..7] == link;
    forall i | 0 <= i < 7 ensures link[i] != DOT {
      assert link[..7][i] != DOT;
    }
    NoDotNoLink(link, n, isTld, isDigit);
  }

  lemma NoDotNoLink(text: Text, n: nat, isTld: Text -> bool, isDigit: CodeUnit -> bool)
    requires forall i :: 0 <= i < |text| ==> text[i] != DOT
    ensures !IsLinkText(text, n, isTld, isDigit)
  {
    assert n <= |text| ==> forall d: nat :: !IsLastDot(text[..n], d);
  }

  // A source is a link exactly if, without the punctuation around it, it is a
  // link text, behind "http://" or "https://" in any case or without them.
  lemma ParseExactly(source: Text, isTld: Text -> bool, isDigit: CodeUnit -> bool)
    ensures (exists p :: IsParse(source, p, isTld, isDigit)) <==>
            (exists v, k: nat, n: nat :: IsLinkAt(source, v, k, n, isTld, isDigit))
  {
    if p :| IsParse(source, p, isTld, isDigit) {
      var v, k, n := ParsedIsLink(source, p, isTld, isDigit);
    }
    if v, k: nat, n: nat :| IsLinkAt(source, v, k, n, isTld, isDigit) {
      var p := LinkIsParsed(source, v, k, n, isTld, isDigit);
    }
  }

  predicate IsOneOf(c: CodeUnit, s: string) {
    exists i :: 0 <= i < |s| && c == s[i] as int
  }

  // The punctuation that is taken off, and what a host and its end consist of.
  lemma Characters(c: CodeUnit)
    ensures IsLeading(c) <==> IsOneOf(c, "<*_~(")
    ensures IsTrailing(c) <==> IsOneOf(c, ">?!.,:*~)")
    ensures IsDelimiter(c) <==> IsOneOf(c, ":/?#")
    ensures c < 128 ==> (IsValidDomainChar(c) <==>
              'a' <= c as char <= 'z' || 'A' <= c as char <= 'Z' || '0' <= c as char <= '9' || IsOneOf(c, "_-."))
    ensures c >= 128 ==> IsValidDomainChar(c)
  {
    var leading, trailing, ends, inner := "<*_~(", ">?!.,:*~)", ":/?#", "_-.";
    assert leading[0] == '<' && leading[1] == '*' && leading[2] == '_' && leading[3] == '~' && leading[4] == '(';
    assert trailing[0] == '>' && trailing[1] == '?' && trailing[2] == '!' && trailing[3] == '.';
    assert trailing[4] == ',' && trailing[5] == ':' && trailing[6] == '*' && trailing[7] == '~' && trailing[8] == ')';
    assert inner[0] == '_' && inner[1] == '-' && inner[2] == '.';
    assert ends[0] == ':' && ends[1] == '/' && ends[2] == '?' && ends[3] == '#';
  }

  // ----- addresses and ports -----

  // One to three decimal digits of at most 255.
  predicate IsByte(s: Text) {
    && 1 <= |s| <= 3
    && (forall i :: 0 <= i < |s| ==> '0' as int <= s[i] <= '9' as int)
    && (|s| == 3 ==>
          100 * (s[0] - '0' as int) + 10 * (s[1] - '0' as int) + (s[2] - '0' as int) <= 255)
  }

  lemma DigitsByPlace(s: Text)
    ensures (forall c :: c in s ==> IsAsciiDigit(c)) <==>
            forall i :: 0 <= i < |s| ==> '0' as int <= s[i] <= '9' as int
  {
    assert forall i :: 0 <= i < |s| ==> s[i] in s;
  }

  lemma ByteIsOctet(s: Text)
    ensures IsOctet(s) <==> IsByte(s)
  {
    if 1 <= |s| <= 3 {
      DigitsByPlace(s);
      var a, b := s[..1], if |s| >= 2 then s[..2] else s;
      assert a[..0] == [];
      assert Value(a) == s[0] - '0' as int;
      assert |s| == 1 ==> a == s;
      assert |s| >= 2 ==> b[..1] == a && Value(b) == 10 * (s[0] - '0' as int) + (s[1] - '0' as int);
      assert |s| == 2 ==> b == s;
      assert |s| == 3 ==> s[..2] == b;
    }
  }

  lemma {:induction false} GroupsAtDot(current: Text, a: Text, rest: Text)
    requires DOT !in a
    ensures Groups(current, a + [DOT] + rest) == [current + a] + Groups([], rest)
    ensures Groups(current, a) == [current + a]
    decreases |a|
  {
    var all := a + [DOT] + rest;
    if a == [] {
      assert all[0] == DOT && all[1..] == rest;
      assert current + a == current;
    } else {
      assert all[0] == a[0] && all[1..] == a[1..] + [DOT] + rest;
      assert a[0] in a;
      GroupsAtDot(current + [a[0]], a[1..], rest);
      assert current + [a[0]] + a[1..] == current + a;
    }
  }

  function Dotted(a: Text, b: Text, c: Text, d: Text): Text {
    a + ['.' as int] + (b + ['.' as int] + (c + ['.' as int] + d))
  }

  lemma ByteHasNoDot(s: Text)
    requires IsByte(s)
    ensures DOT !in s
  {
  }

  // An address is four bytes with dots between them, and nothing else is.
  lemma QuadExactly(host: Text)
    ensures IsDottedQuad(host) <==>
            exists a, b, c, d :: IsByte(a) && IsByte(b) && IsByte(c) && IsByte(d) && host == Dotted(a, b, c, d)
  {
    if IsDottedQuad(host) {
      var gs := Groups([], host);
      GroupsResult([], host);
      ByteIsOctet(gs[0]);
      ByteIsOctet(gs[1]);
      ByteIsOctet(gs[2]);
      ByteIsOctet(gs[3]);
      JoinFour(gs);
      assert host == [] + host;
    }
    if a, b, c, d :| IsByte(a) && IsByte(b) && IsByte(c) && IsByte(d) && host == Dotted(a, b, c, d) {
      FourGroups(a, b, c, d);
    }
  }

  lemma JoinFour(gs: seq<Text>)
    requires |gs| == 4
    ensures Join(gs) == Dotted(gs[0], gs[1], gs[2], gs[3])
  {
    var t := gs[1..];
    var u := t[1..];
    assert t[0] == gs[1] && u[0] == gs[2] && u[1..] == [gs[3]];
    assert Join([gs[3]]) == gs[3];
    assert Join(u) == gs[2] + [DOT] + gs[3];
    assert Join(t) == gs[1] + [DOT] + (gs[2] + [DOT] + gs[3]);
  }

  lemma FourGroups(a: Text, b: Text, c: Text, d: Text)
    requires IsByte(a) && IsByte(b) && IsByte(c) && IsByte(d)
    ensures IsDottedQuad(Dotted(a, b, c, d))
  {
    ByteIsOctet(a);
    ByteIsOctet(b);
    ByteIsOctet(c);
    ByteIsOctet(d);
    ByteHasNoDot(a);
    ByteHasNoDot(b);
    ByteHasNoDot(c);
    ByteHasNoDot(d);
    GroupsAtDot([], a, b + [DOT] + (c + [DOT] + d));
    GroupsAtDot([], b, c + [DOT] + d);
    GroupsAtDot([], c, d);
    GroupsAtDot([], d, []);
    NothingBehind(a);
    NothingBehind(b);
    NothingBehind(c);
    NothingBehind(d);
    assert Groups([], Dotted(a, b, c, d)) == [a] + ([b] + ([c] + [d]));
  }

  // A port is up to five digits, or fewer of them in front of a path, a query
  // or a fragment.
  lemma PortExactly(s: Text, isDigit: CodeUnit -> bool)
    ensures IsPort(s, isDigit) <==>
      || (forall i :: 0 <= i < |s| && i < 5 ==> isDigit(s[i]))
      || (exists k :: 1 <= k < 5 && k < |s| && IsOneOf(s[k], "/?#") && forall i :: 0 <= i < k ==> isDigit(s[i]))
  {
    var separators := "/?#";
    assert separators[0] == '/' && separators[1] == '?' && separators[2] == '#';
    var n := if |s| < 5 then |s| else 5;
    if IsPort(s, isDigit) {
      var k: nat :| IsPortOfLength(s, isDigit, k);
      assert k < n ==> IsOneOf(s[k], separators);
    }
    if forall i :: 0 <= i < |s| && i < 5 ==> isDigit(s[i]) {
      assert IsPortOfLength(s, isDigit, n);
    }
    if k :| 1 <= k < 5 && k < |s| && IsOneOf(s[k], separators) && forall i :: 0 <= i < k ==> isDigit(s[i]) {
      assert IsPortOfLength(s, isDigit, k);
    }
  }
}
