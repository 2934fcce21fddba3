// How similar two messages are: the length of their longest common substring
// relative to the longer one (src/messages/MessageSimilarity.cpp).

module MessageSimilarity {
  import opened Sequences

  // n characters of s from position i on are the same as those of t from j on.
  predicate Common<T(==)>(s: seq<T>, t: seq<T>, i: nat, j: nat, n: nat) {
    i + n <= |s| && j + n <= |t| && s[i..i + n] == t[j..j + n]
  }

  // The independent meaning of the table's maximum.
  ghost predicate IsLongestCommon<T>(s: seq<T>, t: seq<T>, z: nat) {
    && (exists i: nat, j: nat :: Common(s, t, i, j, z))
    && (forall i: nat, j: nat, n: nat :: Common(s, t, i, j, n) ==> n <= z)
  }

  // The longest common run that ends in front of s[i] and t[j].
  ghost function RunLength<T>(s: seq<T>, t: seq<T>, i: nat, j: nat): (n: nat)
    requires i <= |s| && j <= |t|
    ensures n <= i && n <= j
  {
    if i > 0 && j > 0 && s[i - 1] == t[j - 1] then RunLength(s, t, i - 1, j - 1) + 1 else 0
  }

  // A run is common to both strings ...
  lemma {:induction false} RunIsCommon<T>(s: seq<T>, t: seq<T>, i: nat, j: nat)
    requires i <= |s| && j <= |t|
    ensures var n := RunLength(s, t, i, j); s[i - n..i] == t[j - n..j]
  {
    if i > 0 && j > 0 && s[i - 1] == t[j - 1] {
      RunIsCommon(s, t, i - 1, j - 1);
      var n := RunLength(s, t, i - 1, j - 1);
      SliceStep(s, i - 1 - n, i - 1);
      SliceStep(t, j - 1 - n, j - 1);
    }
  }

  // ... and there is no longer one.
  lemma {:induction false} RunIsLongest<T>(s: seq<T>, t: seq<T>, i: nat, j: nat, n: nat)
    requires Common(s, t, i, j, n)
    ensures n <= RunLength(s, t, i + n, j + n)
  {
    if n > 0 {
      CommonInit(s, t, i, j, n - 1);
      RunIsLongest(s, t, i, j, n - 1);
    }
  }

  lemma CommonInit<T>(s: seq<T>, t: seq<T>, i: nat, j: nat, n: nat)
    requires Common(s, t, i, j, n + 1)
    ensures Common(s, t, i, j, n) && s[i + n] == t[j + n]
  {
    var a, b := s[i..i + n + 1], t[j..j + n + 1];
    SliceStep(s, i, i + n);
    SliceStep(t, j, j + n);
    assert a[..n] == s[i..i + n] && b[..n] == t[j..j + n];
    assert a[n] == s[i + n] && b[n] == t[j + n];
  }

  // A bound on all runs that is reached by one of them is the longest length.
  lemma LongestFromRuns<T>(s: seq<T>, t: seq<T>, z: nat)
    requires forall i, j :: 0 <= i <= |s| && 0 <= j <= |t| ==> RunLength(s, t, i, j) <= z
    requires z == 0 || exists i, j :: 0 <= i <= |s| && 0 <= j <= |t| && RunLength(s, t, i, j) == z
    ensures IsLongestCommon(s, t, z)
  {
    if z == 0 {
      assert Common(s, t, 0, 0, 0);
    } else {
      var i, j :| 0 <= i <= |s| && 0 <= j <= |t| && RunLength(s, t, i, j) == z;
      RunIsAttained(s, t, i, j, z);
    }
    forall i: nat, j: nat, n: nat | Common(s, t, i, j, n) ensures n <= z {
      RunIsLongest(s, t, i, j, n);
    }
  }

  lemma RunIsAttained<T>(s: seq<T>, t: seq<T>, i: nat, j: nat, n: nat)
    requires i <= |s| && j <= |t| && RunLength(s, t, i, j) == n
    ensures Common(s, t, i - n, j - n, n)
  {
    RunIsCommon(s, t, i, j);
  }

  // The dynamic program.
  method LongestCommon<T(==)>(str1: seq<T>, str2: seq<T>) returns (z: nat)
    ensures IsLongestCommon(str1, str2, z)
  {
    var tree := new nat[|str1|, |str2|]((i, j) => 0);
    z := 0;
    ghost var at: (nat, nat) := (0, 0);
    var i := 0;
    while i < |str1|
      invariant i <= |str1|
      invariant forall a :: 0 <= a < i ==> RowIsFilled(str1, str2, tree, a, |str2|, z)
      invariant at.0 <= |str1| && at.1 <= |str2| && RunLength(str1, str2, at.0, at.1) == z
    {
      ghost var z0 := z;
      label Before:
      z, at := FillRow(str1, str2, tree, i, z, at);
      forall a | 0 <= a < i ensures RowIsFilled(str1, str2, tree, a, |str2|, z) {
        assert old@Before(RowIsFilled(str1, str2, tree, a, |str2|, z0));
      }
      i := i + 1;
    }
    forall a, b | 0 <= a <= |str1| && 0 <= b <= |str2| ensures RunLength(str1, str2, a, b) <= z {
      if a > 0 && b > 0 {
        assert RowIsFilled(str1, str2, tree, a - 1, |str2|, z);
        assert tree[a - 1, b - 1] == RunLength(str1, str2, a - 1 + 1, b - 1 + 1);
      }
    }
    LongestFromRuns(str1, str2, z);
  }

  // The first m cells of row i hold the length of the run that ends there,
  // which is at most z.
  ghost predicate RowIsFilled<T>(s: seq<T>, t: seq<T>, tree: array2<nat>, i: nat, m: nat, z: nat)
    requires tree.Length0 == |s| && tree.Length1 == |t|
    requires i < |s| && m <= |t|
    reads tree
  {
    forall b :: 0 <= b < m ==> tree[i, b] == RunLength(s, t, i + 1, b + 1) <= z
  }

  // The inner loop.  at is where a run of length z ends.
  method FillRow<T(==)>(str1: seq<T>, str2: seq<T>, tree: array2<nat>, i: nat, z0: nat, ghost at0: (nat, nat))
    returns (z: nat, ghost at: (nat, nat))
    requires tree.Length0 == |str1| && tree.Length1 == |str2| && i < |str1|
    requires i > 0 ==> RowIsFilled(str1, str2, tree, i - 1, |str2|, z0)
    requires at0.0 <= |str1| && at0.1 <= |str2| && RunLength(str1, str2, at0.0, at0.1) == z0
    modifies tree
    ensures z >= z0 && RowIsFilled(str1, str2, tree, i, |str2|, z)
    ensures forall a, b :: 0 <= a < |str1| && 0 <= b < |str2| && a != i ==> tree[a, b] == old(tree[a, b])
    ensures at.0 <= |str1| && at.1 <= |str2| && RunLength(str1, str2, at.0, at.1) == z
  {
    z, at := z0, at0;
    var j := 0;
    while j < |str2|
      invariant j <= |str2| && z >= z0
      invariant RowIsFilled(str1, str2, tree, i, j, z)
      invariant forall a, b :: 0 <= a < |str1| && 0 <= b < |str2| && a != i ==> tree[a, b] == old(tree[a, b])
      invariant at.0 <= |str1| && at.1 <= |str2| && RunLength(str1, str2, at.0, at.1) == z
    {
      ghost var run, least := RunLength(str1, str2, i + 1, j + 1), z;
      label Before:
      if str1[i] == str2[j] {
        if i == 0 || j == 0 {
          tree[i, j] := 1;
        } else {
          assert old(RowIsFilled(str1, str2, tree, i - 1, |str2|, z0));
          assert tree[i - 1, j - 1] == old(tree[i - 1, j - 1]) == RunLength(str1, str2, i - 1 + 1, j - 1 + 1);
          tree[i, j] := tree[i - 1, j - 1] + 1;
        }
        if tree[i, j] > z {
          z, at := tree[i, j], (i + 1, j + 1);
        }
      } else {
        tree[i, j] := 0;
      }
      assert tree[i, j] == run <= z && least <= z;
      forall b | 0 <= b < j + 1 ensures tree[i, b] == RunLength(str1, str2, i + 1, b + 1) <= z {
        assert b < j ==> tree[i, b] == old@Before(tree[i, b]) <= least;
      }
      assert RowIsFilled(str1, str2, tree, i, j + 1, z);
      j := j + 1;
    }
  }

  lemma LongestIsUnique<T>(s: seq<T>, t: seq<T>, z: nat, y: nat)
    requires IsLongestCommon(s, t, z) && IsLongestCommon(s, t, y)
    ensures z == y
  {
    var i: nat, j: nat :| Common(s, t, i, j, z);
    var k: nat, l: nat :| Common(s, t, k, l, y);
  }

  lemma LongestIsSymmetric<T>(s: seq<T>, t: seq<T>, z: nat)
    requires IsLongestCommon(s, t, z)
    ensures IsLongestCommon(t, s, z)
  {
    var i: nat, j: nat :| Common(s, t, i, j, z);
    assert Common(t, s, j, i, z);
    forall a: nat, b: nat, n: nat | Common(t, s, a, b, n) ensures n <= z {
      assert Common(s, t, b, a, n);
    }
  }

  lemma LongestExists<T>(s: seq<T>, t: seq<T>) returns (z: nat)
    ensures IsLongestCommon(s, t, z)
  {
    z := MaxRun(s, t, |s|, |t|);
    LongestFromRuns(s, t, z);
  }

  lemma {:induction false} MaxRun<T>(s: seq<T>, t: seq<T>, m: nat, n: nat) returns (z: nat)
    requires m <= |s| && n <= |t|
    ensures forall i, j :: 0 <= i <= m && 0 <= j <= n ==> RunLength(s, t, i, j) <= z
    ensures exists i, j :: 0 <= i <= m && 0 <= j <= n && RunLength(s, t, i, j) == z
    decreases m + n
  {
    if m == 0 || n == 0 {
      z := 0;
      assert RunLength(s, t, 0, 0) == 0;
    } else {
      var a := MaxRun(s, t, m - 1, n);
      var b := MaxRun(s, t, m, n - 1);
      var c := RunLength(s, t, m, n);
      z := if a >= b && a >= c then a else if b >= c then b else c;
    }
  }

  ghost function Longest<T(!new)>(s: seq<T>, t: seq<T>): (z: nat)
    ensures IsLongestCommon(s, t, z)
  {
    assert exists z: nat :: IsLongestCommon(s, t, z) by {
      var z := LongestExists(s, t);
    }
    var z: nat :| IsLongestCommon(s, t, z);
    z
  }

  function Longer(m: nat, n: nat): (d: nat)
    ensures d >= 1 && d >= m && d >= n && d in {1, m, n}
  {
    if m >= n && m >= 1 then m else if n >= 1 then n else 1
  }

  ghost function Similarity<T(!new)>(s: seq<T>, t: seq<T>): real {
    Longest(s, t) as real / Longer(|s|, |t|) as real
  }

  method RelativeSimilarity<T(==, !new)>(str1: seq<T>, str2: seq<T>) returns (r: real)
    ensures r == Similarity(str1, str2)
  {
    var z := LongestCommon(str1, str2);
    LongestIsUnique(str1, str2, z, Longest(str1, str2));
    if z == 0 {
      return 0.0;
    }
    var div := Longer(|str1|, |str2|);
    return z as real / div as real;
  }

  // Similarity is a proper similarity measure.
  lemma SimilarityResult<T(!new)>(s: seq<T>, t: seq<T>)
    ensures Similarity(s, t) == Similarity(t, s)
    ensures 0.0 <= Similarity(s, t) <= 1.0
    ensures Similarity(s, t) == 1.0 <==> s == t && s != []
    ensures Similarity(s, t) == 0.0 <==> forall x :: x in s ==> x !in t
  {
    var z, d := Longest(s, t), Longer(|s|, |t|);
    LongestIsSymmetric(s, t, z);
    LongestIsUnique(t, s, z, Longest(t, s));
    var i: nat, j: nat :| Common(s, t, i, j, z);
    assert z <= d;
    if z == d {
      assert i == 0 && j == 0 && s[0..z] == s && t[0..z] == t;
    }
    if s == t && s != [] {
      assert Common(s, t, 0, 0, |s|);
    }
    if z > 0 {
      assert s[i] == s[i..i + z][0] == t[j..j + z][0] == t[j];
      assert s[i] in t;
    }
    if x :| x in s && x in t {
      var a :| 0 <= a < |s| && s[a] == x;
      var b :| 0 <= b < |t| && t[b] == x;
      assert Common(s, t, a, b, 1);
    }
    Quotient(z, d);
  }

  lemma Quotient(z: nat, d: nat)
    requires z <= d && d >= 1
    ensures 0.0 <= z as real / d as real <= 1.0
    ensures z as real / d as real == 1.0 <==> z == d
    ensures z as real / d as real == 0.0 <==> z == 0
  {
    var q := z as real / d as real;
    assert q * d as real == z as real;
  }

  // The similarity is the length of the longest common part, measured by the
  // longer of the two.
  lemma SimilarityExactly<T(!new)>(s: seq<T>, t: seq<T>, z: nat)
    requires IsLongestCommon(s, t, z) && (s != [] || t != [])
    ensures Similarity(s, t) * (if |s| < |t| then |t| else |s|) as real == z as real
  {
    LongestIsUnique(s, t, z, Longest(s, t));
    var d := Longer(|s|, |t|);
    assert d == if |s| < |t| then |t| else |s|;
    assert z as real / d as real * d as real == z as real;
  }

  datatype ChatMessage = ChatMessage(loginName: string, messageText: string, receivedMs: int)

  datatype Settings = Settings(maxMessagesToCheck: nat, maxDelay: int, bySameUser: bool)

  // QDateTime::secsTo drops the fraction of a second, towards zero.
  function SecsTo(fromMs: int, toMs: int): int {
    var d := toMs - fromMs;
    if d >= 0 then d / 1000 else -(-d / 1000)
  }

  predicate TooOld(msg: ChatMessage, prev: ChatMessage, maxDelay: int) {
    SecsTo(prev.receivedMs, msg.receivedMs) >= maxDelay
  }

  // How many messages in front of position e are compared: at most n, up to
  // the latest one that is too old.
  function Window(msg: ChatMessage, messages: seq<ChatMessage>, e: nat, n: nat, maxDelay: int): (w: nat)
    requires e <= |messages|
    ensures w <= n && w <= e
    decreases n
  {
    if n == 0 || e == 0 || TooOld(msg, messages[e - 1], maxDelay) then 0
    else 1 + Window(msg, messages, e - 1, n - 1, maxDelay)
  }

  // Everything inside the window is recent enough and the window is as large
  // as it can be.
  lemma {:induction false} WindowResult(msg: ChatMessage, messages: seq<ChatMessage>, e: nat, n: nat, maxDelay: int)
    requires e <= |messages|
    ensures var w := Window(msg, messages, e, n, maxDelay);
            && (forall k :: e - w <= k < e ==> !TooOld(msg, messages[k], maxDelay))
            && (w < n && w < e ==> TooOld(msg, messages[e - 1 - w], maxDelay))
    decreases n
  {
    if n > 0 && e > 0 && !TooOld(msg, messages[e - 1], maxDelay) {
      WindowResult(msg, messages, e - 1, n - 1, maxDelay);
    }
  }

  predicate Compared(msg: ChatMessage, prev: ChatMessage, bySameUser: bool) {
    bySameUser ==> msg.loginName == prev.loginName
  }

  // r is the largest similarity to any compared message from position k on.
  ghost predicate IsBest(r: real, msg: ChatMessage, messages: seq<ChatMessage>, k: nat, bySameUser: bool) {
    && r >= 0.0
    && (forall j :: k <= j < |messages| && Compared(msg, messages[j], bySameUser) ==>
         Similarity(msg.messageText, messages[j].messageText) <= r)
    && (r == 0.0 || IsAttained(r, msg, messages, k, bySameUser))
  }

  ghost predicate IsAttained(r: real, msg: ChatMessage, messages: seq<ChatMessage>, k: nat, bySameUser: bool) {
    exists j :: k <= j < |messages| && Compared(msg, messages[j], bySameUser) &&
                Similarity(msg.messageText, messages[j].messageText) == r
  }

  ghost function Better(r: real, msg: ChatMessage, prev: ChatMessage, bySameUser: bool): real {
    var s := Similarity(msg.messageText, prev.messageText);
    if Compared(msg, prev, bySameUser) && s > r then s else r
  }

  lemma BestWithOneMore(r: real, msg: ChatMessage, messages: seq<ChatMessage>, k: nat, bySameUser: bool)
    requires k < |messages| && IsBest(r, msg, messages, k + 1, bySameUser)
    ensures IsBest(Better(r, msg, messages[k], bySameUser), msg, messages, k, bySameUser)
  {
    if r != 0.0 {
      var j :| k + 1 <= j < |messages| && Compared(msg, messages[j], bySameUser) &&
               Similarity(msg.messageText, messages[j].messageText) == r;
    }
  }

  method InMessages(msg: ChatMessage, messages: seq<ChatMessage>, settings: Settings) returns (percent: real)
    ensures var w := Window(msg, messages, |messages|, settings.maxMessagesToCheck, settings.maxDelay);
            IsBest(percent, msg, messages, |messages| - w, settings.bySameUser)
  {
    ghost var w := Window(msg, messages, |messages|, settings.maxMessagesToCheck, settings.maxDelay);
    percent := 0.0;
    var i, n := |messages|, settings.maxMessagesToCheck;
    while i > 0 && n > 0 && !TooOld(msg, messages[i - 1], settings.maxDelay)
      invariant 0 <= i <= |messages|
      invariant w == |messages| - i + Window(msg, messages, i, n, settings.maxDelay)
      invariant IsBest(percent, msg, messages, i, settings.bySameUser)
    {
      i, n := i - 1, n - 1;
      BestWithOneMore(percent, msg, messages, i, settings.bySameUser);
      percent := CompareWith(percent, msg, messages[i], settings.bySameUser);
    }
  }

  // The rest of the loop body.
  method CompareWith(percent: real, msg: ChatMessage, prev: ChatMessage, bySameUser: bool) returns (r: real)
    ensures r == Better(percent, msg, prev, bySameUser)
  {
    if bySameUser && msg.loginName != prev.loginName {
      return percent;
    }
    var similarity := RelativeSimilarity(msg.messageText, prev.messageText);
    r := if similarity > percent then similarity else percent;
  }

  // The message as it would be if it said nothing, unless it is from that user.
  function Silenced(loginName: string, m: ChatMessage): ChatMessage {
    if m.loginName == loginName then m else m.(messageText := "")
  }

  function AllSilenced(loginName: string, messages: seq<ChatMessage>): (r: seq<ChatMessage>)
    ensures |r| == |messages|
  {
    seq(|messages|, i requires 0 <= i < |messages| => Silenced(loginName, messages[i]))
  }

  // Comparing with the messages of the same user is comparing with all, if the
  // others said nothing.
  lemma OthersDoNotCount(r: real, msg: ChatMessage, messages: seq<ChatMessage>, k: nat)
    ensures IsBest(r, msg, messages, k, true) <==> IsBest(r, msg, AllSilenced(msg.loginName, messages), k, false)
  {
    var silenced := AllSilenced(msg.loginName, messages);
    SimilarityResult(msg.messageText, "");
    if r > 0.0 && IsAttained(r, msg, messages, k, true) {
      var j :| k <= j < |messages| && Compared(msg, messages[j], true) &&
               Similarity(msg.messageText, messages[j].messageText) == r;
      assert silenced[j] == messages[j];
    }
    if r > 0.0 && IsAttained(r, msg, silenced, k, false) {
      var j :| k <= j < |silenced| && Compared(msg, silenced[j], false) &&
               Similarity(msg.messageText, silenced[j].messageText) == r;
      assert silenced[j] == messages[j];
    }
    if IsBest(r, msg, messages, k, true) {
      forall j | k <= j < |silenced|
        ensures Similarity(msg.messageText, silenced[j].messageText) <= r
      {
        assert silenced[j].messageText == "" || silenced[j] == messages[j];
      }
    }
    if IsBest(r, msg, silenced, k, false) {
      forall j | k <= j < |messages| && Compared(msg, messages[j], true)
        ensures Similarity(msg.messageText, messages[j].messageText) <= r
      {
        assert Compared(msg, silenced[j], false);
      }
    }
  }

  // Without the setting it does not matter who wrote what.
  lemma NamesDoNotCount(r: real, msg: ChatMessage, messages: seq<ChatMessage>, others: seq<ChatMessage>, k: nat)
    requires |others| == |messages|
    requires forall j :: 0 <= j < |messages| ==> others[j].messageText == messages[j].messageText
    requires IsBest(r, msg, messages, k, false)
    ensures IsBest(r, msg, others, k, false)
  {
    if r != 0.0 {
      var j :| k <= j < |messages| && Compared(msg, messages[j], false) &&
               Similarity(msg.messageText, messages[j].messageText) == r;
      assert Compared(msg, others[j], false);
    }
    forall j | k <= j < |others|
      ensures Similarity(msg.messageText, others[j].messageText) <= r
    {
      assert Compared(msg, messages[j], false);
    }
  }

  // How many milliseconds make a message too old.
  lemma TooOldExactly(msg: ChatMessage, prev: ChatMessage, maxDelay: int)
    ensures var age := msg.receivedMs - prev.receivedMs;
            TooOld(msg, prev, maxDelay) <==>
            if maxDelay > 0 then age >= 1000 * maxDelay else age > 1000 * (maxDelay - 1)
  {
  }
}
