// The characters of a word and where it can be broken
// (src/messages/MessageElement.cpp).

module WordClusters {
  import opened Utf16

  // Widths are whole units. No glyph is narrower than nothing.
  type Metrics = Text -> nat

  predicate IsHighSurrogate(c: CodeUnit) {
    0xD800 <= c <= 0xDBFF
  }

  // How many units the loop takes at once.
  function FirstLength(word: Text): (n: nat)
    requires word != []
    ensures 1 <= n <= 2 && n <= |word|
  {
    if |word| > 1 && IsHighSurrogate(word[0]) then 2 else 1
  }

  // What the loop takes at i.
  function ClusterAt(word: Text, i: nat): (c: Text)
    requires i < |word|
    ensures 1 <= |c| && i + |c| <= |word| && c == word[i..i + |c|]
  {
    if |word| > i + 1 && IsHighSurrogate(word[i]) then word[i..i + 2] else word[i..i + 1]
  }

  function Clusters(word: Text): seq<Text> {
    if word == [] then []
    else
      var n := FirstLength(word);
      [word[..n]] + Clusters(word[n..])
  }

  // One character, or what a high surrogate starts.
  predicate IsCluster(c: Text) {
    |c| == 1 || (|c| == 2 && IsHighSurrogate(c[0]))
  }

  function Joined(clusters: seq<Text>): Text {
    if clusters == [] then [] else clusters[0] + Joined(clusters[1..])
  }

  function Width(metrics: Metrics, clusters: seq<Text>): nat {
    if clusters == [] then 0 else metrics(clusters[0]) + Width(metrics, clusters[1..])
  }

  lemma {:induction false} JoinedAppend(a: seq<Text>, b: seq<Text>)
    ensures Joined(a + b) == Joined(a) + Joined(b)
  {
    if a == [] {
      assert a + b == b;
    } else {
      assert (a + b)[0] == a[0] && (a + b)[1..] == a[1..] + b;
      JoinedAppend(a[1..], b);
    }
  }

  lemma {:induction false} WidthAppend(metrics: Metrics, a: seq<Text>, b: seq<Text>)
    ensures Width(metrics, a + b) == Width(metrics, a) + Width(metrics, b)
  {
    if a == [] {
      assert a + b == b;
    } else {
      assert (a + b)[0] == a[0] && (a + b)[1..] == a[1..] + b;
      WidthAppend(metrics, a[1..], b);
    }
  }

  lemma {:induction false} ClustersResult(word: Text)
    ensures Joined(Clusters(word)) == word
    ensures forall c :: c in Clusters(word) ==> IsCluster(c)
  {
    if word != [] {
      var n := FirstLength(word);
      ClustersResult(word[n..]);
      assert word == word[..n] + word[n..];
    }
  }

  // A place at which the word can be broken.
  ghost predicate IsBoundary(word: Text, p: int) {
    exists j: nat :: j <= |Clusters(word)| && |Joined(Clusters(word)[..j])| == p
  }

  ghost predicate BreaksAfterHigh(word: Text, p: int) {
    0 < p < |word| && IsBoundary(word, p) && IsHighSurrogate(word[p - 1])
  }

  // Two high surrogates side by side, and more behind them.
  predicate DoubleHigh(word: Text, r: int) {
    0 <= r && r + 2 < |word| && IsHighSurrogate(word[r]) && IsHighSurrogate(word[r + 1])
  }

  lemma BoundaryBehindFirst(word: Text, p: int)
    requires word != []
    ensures IsBoundary(word, p) <==> p == 0 || IsBoundary(word[FirstLength(word)..], p - FirstLength(word))
  {
    var n := FirstLength(word);
    var rest := Clusters(word[n..]);
    var all := Clusters(word);
    forall j: nat | 1 <= j <= |all| ensures |Joined(all[..j])| == n + |Joined(rest[..j - 1])| {
      assert all[..j][1..] == rest[..j - 1] && all[..j][0] == word[..n];
    }
    if IsBoundary(word, p) {
      var j: nat :| j <= |all| && |Joined(all[..j])| == p;
      assert j > 0 ==> |Joined(rest[..j - 1])| == p - n;
    }
    if p == 0 {
      assert Joined(all[..0]) == [];
    } else if IsBoundary(word[n..], p - n) {
      var j: nat :| j <= |rest| && |Joined(rest[..j])| == p - n;
      assert |Joined(all[..j + 1])| == p;
    }
  }

  lemma {:induction false} HighBreakHasDouble(word: Text, p: int)
    requires BreaksAfterHigh(word, p)
    ensures DoubleHigh(word, p - 2)
  {
    var n := FirstLength(word);
    BoundaryBehindFirst(word, p);
    var rest := word[n..];
    if p > n {
      assert rest[p - n - 1] == word[p - 1];
      HighBreakHasDouble(rest, p - n);
      assert rest[p - n - 2] == word[p - 2];
    } else if p < n {
      BoundaryIsNatural(rest, p - n);
    }
  }

  lemma BoundaryIsNatural(word: Text, p: int)
    requires IsBoundary(word, p)
    ensures 0 <= p
  {
  }

  lemma {:induction false} DoubleHasHighBreak(word: Text, r: int) returns (p: int)
    requires DoubleHigh(word, r)
    ensures BreaksAfterHigh(word, p)
  {
    var n := FirstLength(word);
    var rest := word[n..];
    if r >= n {
      assert rest[r - n] == word[r] && rest[r - n + 1] == word[r + 1];
      p := DoubleHasHighBreak(rest, r - n);
      BoundaryBehindFirst(word, p + n);
      assert rest[p - 1] == word[p + n - 1];
      p := p + n;
    } else {
      p := n;
      BoundaryBehindFirst(word, n);
      BoundaryStart(rest);
    }
  }

  lemma BoundaryStart(word: Text)
    ensures IsBoundary(word, 0)
  {
    assert Joined(Clusters(word)[..0]) == [];
  }

  // A word can be broken behind a high surrogate exactly when it has two of
  // them in a row in front of something else. Well-formed text has none.
  lemma BreaksAfterHighExactly(word: Text)
    ensures (exists p :: BreaksAfterHigh(word, p)) <==> (exists r :: DoubleHigh(word, r))
  {
    if p :| BreaksAfterHigh(word, p) {
      HighBreakHasDouble(word, p);
    }
    if r :| DoubleHigh(word, r) {
      var p := DoubleHasHighBreak(word, r);
    }
  }

  // The high surrogates are the 1024 code units that begin with the bits 110110.
  lemma HighSurrogates(c: CodeUnit)
    ensures IsHighSurrogate(c) <==> c / 1024 == 54
  {
  }
}
