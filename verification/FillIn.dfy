// Filling in missed messages on a bounded buffer, as it is done, and when that
// is what was meant (src/common/Channel.cpp).

module FillRuns {
  import opened Messages
  import opened Sequences
  import opened LimitedQueues
  import opened FillOrder

  // What the buffer holds, and the message that is taken for its end.
  datatype Filling = Filling(contents: seq<Message>, last: Message)

  // One missing message: in front of the first copy of its anchor that the
  // buffer still holds, or behind the first copy of the last message.
  function Placed(snapshot: seq<Message>, f: Filling, m: Message, limit: nat): Filling {
    var a := Anchor(snapshot, m.time);
    if a < |snapshot| then Filling(InsertedBefore(f.contents, limit, snapshot[a], m), f.last)
    else Filling(InsertedAfter(f.contents, limit, f.last, m), m)
  }

  function Steps(snapshot: seq<Message>, missing: seq<Message>, limit: nat): Filling
    requires snapshot != []
  {
    if missing == [] then Filling(snapshot, snapshot[|snapshot| - 1])
    else Placed(snapshot, Steps(snapshot, missing[..|missing| - 1], limit), missing[|missing| - 1], limit)
  }

  // What a buffer that holds the snapshot ends up with.
  function FillRun(snapshot: seq<Message>, batch: seq<Message>, limit: nat): seq<Message> {
    if snapshot == [] then LastN(batch, limit) else Steps(snapshot, Fresh(snapshot, batch), limit).contents
  }

  // The same on a buffer without a limit, where everything goes where it belongs.
  predicate IsRight(snapshot: seq<Message>, batch: seq<Message>, limit: nat) {
    FillRun(snapshot, batch, limit) == LastN(Filled(snapshot, batch), limit)
  }

  lemma StepsAppend(snapshot: seq<Message>, missing: seq<Message>, m: Message, limit: nat)
    requires snapshot != []
    ensures Steps(snapshot, missing + [m], limit) == Placed(snapshot, Steps(snapshot, missing, limit), m, limit)
  {
    assert (missing + [m])[..|missing|] == missing;
  }

  // ----- two places for one message -----

  // Nothing but m stands between the positions i and q.
  predicate OnlyBetween(c: seq<Message>, i: nat, q: nat, m: Message) {
    forall j :: 0 <= j < |c| && (i <= j < q || q <= j < i) ==> c[j] == m
  }

  lemma {:induction false} SameUpTo(c: seq<Message>, i: nat, q: nat, m: Message)
    requires i <= q <= |c| && Insert(c, i, m) == Insert(c, q, m)
    ensures OnlyBetween(c, i, q, m)
    decreases q - i
  {
    if i < q {
      var a, b := Insert(c, i, m), Insert(c, q, m);
      assert a[i] == m && b[i] == c[i];
      InsertMoves(c, i, m);
      SameUpTo(c, i + 1, q, m);
    }
  }

  // An equal item in front makes no difference.
  lemma InsertMoves(c: seq<Message>, i: nat, m: Message)
    requires i < |c| && c[i] == m
    ensures Insert(c, i, m) == Insert(c, i + 1, m)
  {
  }

  lemma {:induction false} OnlyBetweenSuffices(c: seq<Message>, i: nat, q: nat, m: Message)
    requires i <= q <= |c| && OnlyBetween(c, i, q, m)
    ensures Insert(c, i, m) == Insert(c, q, m)
    decreases q - i
  {
    if i < q {
      InsertMoves(c, i, m);
      OnlyBetweenSuffices(c, i + 1, q, m);
    }
  }

  // On a full buffer the oldest item makes way; in front of it nothing is inserted.
  lemma KeptInserts(c: seq<Message>, limit: nat, i: nat, q: nat, m: Message)
    requires |c| <= limit && i <= q <= |c|
    ensures LastN(Insert(c, i, m), limit) == LastN(Insert(c, q, m), limit) <==>
            Insert(c, i, m) == Insert(c, q, m)
  {
    var a, b := Insert(c, i, m), Insert(c, q, m);
    if |c| == limit {
      assert LastN(a, limit) == a[1..] && LastN(b, limit) == b[1..];
      if i > 0 {
        assert a[0] == c[0] == b[0];
        assert a == [a[0]] + a[1..] && b == [b[0]] + b[1..];
      } else if q > 0 && a[1..] == b[1..] {
        FirstIsSame(c, q, m);
      }
    }
  }

  lemma FirstIsSame(c: seq<Message>, q: nat, m: Message)
    requires 0 < q <= |c| && Insert(c, 0, m)[1..] == Insert(c, q, m)[1..]
    ensures Insert(c, 0, m) == Insert(c, q, m)
  {
    var a, b := Insert(c, 0, m), Insert(c, q, m);
    forall j | 0 <= j < q ensures c[j] == a[1..][j] == b[1..][j] {
      assert a[1..][j] == a[j + 1];
    }
    AllEqualBelow(c, q, m);
    OnlyBetweenSuffices(c, 0, q, m);
  }

  lemma {:induction false} AllDown(c: seq<Message>, q: nat, m: Message, j: nat)
    requires 0 < q <= |c| && j < q
    requires forall k :: 0 <= k < q ==> c[k] == Insert(c, q, m)[1..][k]
    ensures forall k :: j <= k < q ==> c[k] == m
    decreases q - j
  {
    var b := Insert(c, q, m);
    assert c[j] == b[1..][j] == b[j + 1];
    if j < q - 1 {
      AllDown(c, q, m, j + 1);
      assert b[j + 1] == c[j + 1];
    }
  }

  lemma AllEqualBelow(c: seq<Message>, q: nat, m: Message)
    requires 0 < q <= |c|
    requires forall k :: 0 <= k < q ==> c[k] == Insert(c, q, m)[1..][k]
    ensures OnlyBetween(c, 0, q, m)
  {
    AllDown(c, q, m, 0);
  }

  // Two places for m are as good as each other exactly if nothing but m stands
  // between them.
  lemma InsertionsAgree(c: seq<Message>, limit: nat, i: nat, q: nat, m: Message)
    requires |c| <= limit && i <= |c| && q <= |c|
    ensures LastN(Insert(c, i, m), limit) == LastN(Insert(c, q, m), limit) <==> OnlyBetween(c, i, q, m)
  {
    var low, high := if i <= q then i else q, if i <= q then q else i;
    KeptInserts(c, limit, low, high, m);
    if Insert(c, low, m) == Insert(c, high, m) {
      SameUpTo(c, low, high, m);
    }
    if OnlyBetween(c, low, high, m) {
      OnlyBetweenSuffices(c, low, high, m);
    }
    assert OnlyBetween(c, low, high, m) <==> OnlyBetween(c, i, q, m);
  }

  // ----- one step -----

  function Last(s: seq<Message>): Message
    requires s != []
  {
    s[|s| - 1]
  }

  lemma WeaveIsNotEmpty(snapshot: seq<Message>, missing: seq<Message>)
    requires snapshot != []
    ensures Weave(snapshot, missing, 0) != []
  {
    PositionOfAnchor(snapshot, missing, 0, 0);
  }

  // Where m belongs among the newest messages of w (in front, if its place is
  // not kept any more).
  function KeptPlace(w: seq<Message>, limit: nat, p: nat): (q: nat)
    requires p <= |w|
    ensures q <= |LastN(w, limit)|
  {
    var dropped := |w| - |LastN(w, limit)|;
    if p < dropped then 0 else p - dropped
  }

  // The newest messages are searched for w[p]. If a copy of it is there, then
  // only copies of m stand between where m goes and where it belongs.
  predicate FindsAt(w: seq<Message>, limit: nat, p: nat, m: Message)
    requires p < |w|
  {
    var c := LastN(w, limit);
    w[p] in c ==> OnlyBetween(c, IndexOf(c, w[p]), KeptPlace(w, limit, p), m)
  }

  // The same for the last message, and a place behind it.
  predicate FindsEnd(w: seq<Message>, limit: nat, m: Message)
    requires w != []
  {
    var c := LastN(w, limit);
    Last(w) in c ==> OnlyBetween(c, IndexOf(c, Last(w)) + 1, |c|, m)
  }

  predicate Finds(snapshot: seq<Message>, missing: seq<Message>, m: Message, limit: nat)
    requires snapshot != []
  {
    var w, a := Weave(snapshot, missing, 0), Anchor(snapshot, m.time);
    WeaveIsNotEmpty(snapshot, missing);
    PositionOfAnchor(snapshot, missing, 0, a);
    if a < |snapshot| then FindsAt(w, limit, Position(snapshot, missing, 0, a), m) else FindsEnd(w, limit, m)
  }

  lemma LastIsKept(w: seq<Message>, limit: nat)
    requires w != [] && limit >= 1
    ensures LastN(w, limit) != [] && Last(LastN(w, limit)) == Last(w) && Last(w) in LastN(w, limit)
  {
    var c := LastN(w, limit);
    assert c[|c| - 1] == w[|w| - 1];
  }

  lemma InsertAtKeptPlace(w: seq<Message>, limit: nat, p: nat, m: Message)
    requires p <= |w|
    ensures LastN(Insert(w, p, m), limit) == LastN(Insert(LastN(w, limit), KeptPlace(w, limit, p), m), limit)
  {
    InsertThenLast(w, limit, p, m);
    var c := LastN(w, limit);
    if p < |w| - |c| && limit > 0 {
      assert Insert(c, 0, m)[1..] == c;
    }
  }

  lemma BeforeExactly(w: seq<Message>, limit: nat, p: nat, m: Message)
    requires p < |w|
    ensures var c := LastN(w, limit);
            InsertedBefore(c, limit, w[p], m) == LastN(Insert(w, p, m), limit) <==> FindsAt(w, limit, p, m)
  {
    var c := LastN(w, limit);
    InsertAtKeptPlace(w, limit, p, m);
    if w[p] in c {
      InsertionsAgree(c, limit, IndexOf(c, w[p]), KeptPlace(w, limit, p), m);
    } else {
      KeptItem(w, limit, p);
      InsertThenLast(w, limit, p, m);
    }
  }

  lemma KeptItem<T>(w: seq<T>, limit: nat, p: nat)
    requires p < |w|
    ensures var c := LastN(w, limit);
            p >= |w| - |c| ==> p - (|w| - |c|) < |c| && c[p - (|w| - |c|)] == w[p] && w[p] in c
  {
    var c := LastN(w, limit);
    var dropped := |w| - |c|;
    assert p >= dropped ==> c[p - dropped] == w[p];
  }

  lemma AfterExactly(w: seq<Message>, limit: nat, m: Message)
    requires w != [] && limit >= 1
    ensures var c := LastN(w, limit);
            InsertedAfter(c, limit, Last(w), m) == LastN(Insert(w, |w|, m), limit) <==> FindsEnd(w, limit, m)
  {
    var c := LastN(w, limit);
    LastIsKept(w, limit);
    InsertAtKeptPlace(w, limit, |w|, m);
    InsertionsAgree(c, limit, IndexOf(c, Last(w)) + 1, |c|, m);
  }

  // From the newest messages of the unbounded result, one more message leads to
  // the newest messages of the next one exactly if its place is found.
  lemma StepExactly(snapshot: seq<Message>, missing: seq<Message>, m: Message, limit: nat)
    requires snapshot != [] && limit >= 1
    ensures Weave(snapshot, missing, 0) != []
    ensures var w := Weave(snapshot, missing, 0);
            Placed(snapshot, Filling(LastN(w, limit), Last(w)), m, limit).contents ==
            LastN(Weave(snapshot, missing + [m], 0), limit) <==>
            Finds(snapshot, missing, m, limit)
  {
    var w, a := Weave(snapshot, missing, 0), Anchor(snapshot, m.time);
    WeaveIsNotEmpty(snapshot, missing);
    PositionOfAnchor(snapshot, missing, 0, a);
    WeaveAppend(snapshot, missing, m, 0);
    if a < |snapshot| {
      BeforeExactly(w, limit, Position(snapshot, missing, 0, a), m);
    } else {
      AfterExactly(w, limit, m);
    }
  }

  lemma WeaveLast(snapshot: seq<Message>, missing: seq<Message>, m: Message)
    requires Weave(snapshot, missing, 0) != []
    ensures Weave(snapshot, missing + [m], 0) != []
    ensures Last(Weave(snapshot, missing + [m], 0)) ==
            if Anchor(snapshot, m.time) < |snapshot| then Last(Weave(snapshot, missing, 0)) else m
  {
    var w, a := Weave(snapshot, missing, 0), Anchor(snapshot, m.time);
    WeaveAppend(snapshot, missing, m, 0);
    PositionOfAnchor(snapshot, missing, 0, a);
    LastOfInsert(w, Position(snapshot, missing, 0, a), m);
  }

  lemma LastOfInsert(w: seq<Message>, p: nat, m: Message)
    requires p <= |w|
    ensures Last(Insert(w, p, m)) == if p < |w| then Last(w) else m
  {
  }

  // What is taken for the end of the history is the end of the unbounded result.
  lemma {:induction false} LastFollows(snapshot: seq<Message>, missing: seq<Message>, limit: nat)
    requires snapshot != []
    ensures Weave(snapshot, missing, 0) != []
    ensures Steps(snapshot, missing, limit).last == Last(Weave(snapshot, missing, 0))
  {
    if missing == [] {
      WeaveNothing(snapshot, 0);
    } else {
      var n, m := missing[..|missing| - 1], missing[|missing| - 1];
      SplitLast(missing);
      LastFollows(snapshot, n, limit);
      WeaveLast(snapshot, n, m);
    }
  }

  predicate IsRightFor(snapshot: seq<Message>, missing: seq<Message>, limit: nat)
    requires snapshot != []
  {
    Steps(snapshot, missing, limit).contents == LastN(Weave(snapshot, missing, 0), limit)
  }

  lemma NextIsRight(snapshot: seq<Message>, missing: seq<Message>, m: Message, limit: nat)
    requires snapshot != [] && limit >= 1 && IsRightFor(snapshot, missing, limit)
    ensures IsRightFor(snapshot, missing + [m], limit) <==> Finds(snapshot, missing, m, limit)
  {
    LastFollows(snapshot, missing, limit);
    StepsAppend(snapshot, missing, m, limit);
    StepExactly(snapshot, missing, m, limit);
  }

  lemma NothingMissing(snapshot: seq<Message>, limit: nat)
    requires snapshot != [] && |snapshot| <= limit
    ensures IsRightFor(snapshot, [], limit)
  {
    WeaveNothing(snapshot, 0);
  }

  // ----- every input -----

  // Each message of the batch that is missing is put where it belongs.
  predicate FindsAll(snapshot: seq<Message>, batch: seq<Message>, limit: nat)
    requires limit >= 1
  {
    snapshot != [] ==>
      forall k :: 0 <= k < |batch| && !Known(snapshot, batch[k]) ==>
        Finds(snapshot, Fresh(snapshot, batch[..k]), batch[k], limit)
  }

  predicate IsRightThroughout(snapshot: seq<Message>, batch: seq<Message>, limit: nat) {
    forall k :: 0 <= k <= |batch| ==> IsRight(snapshot, batch[..k], limit)
  }

  lemma FreshNext(snapshot: seq<Message>, batch: seq<Message>, k: nat)
    requires k < |batch|
    ensures Fresh(snapshot, batch[..k + 1]) ==
            Fresh(snapshot, batch[..k]) + (if Known(snapshot, batch[k]) then [] else [batch[k]])
    ensures Known(snapshot, batch[k]) ==> Fresh(snapshot, batch[..k + 1]) == Fresh(snapshot, batch[..k])
  {
    assert batch[..k + 1] == batch[..k] + [batch[k]];
    FreshAppend(snapshot, batch[..k], batch[k]);
  }

  lemma NextInBatch(snapshot: seq<Message>, batch: seq<Message>, k: nat, limit: nat)
    requires snapshot != [] && limit >= 1 && k < |batch| && IsRight(snapshot, batch[..k], limit)
    ensures IsRight(snapshot, batch[..k + 1], limit) <==>
            (!Known(snapshot, batch[k]) ==> Finds(snapshot, Fresh(snapshot, batch[..k]), batch[k], limit))
  {
    FreshNext(snapshot, batch, k);
    if !Known(snapshot, batch[k]) {
      NextIsRight(snapshot, Fresh(snapshot, batch[..k]), batch[k], limit);
    }
  }

  lemma StartIsRight(snapshot: seq<Message>, limit: nat)
    requires |snapshot| <= limit
    ensures IsRight(snapshot, [], limit)
  {
    assert Fresh(snapshot, []) == [];
    if snapshot != [] {
      NothingMissing(snapshot, limit);
    } else {
      FilledFromNothing([]);
    }
  }

  // For every history, every batch and every limit: the buffer holds the newest
  // messages of the unbounded result all through the pass exactly if every
  // place is found.
  lemma RightThroughoutExactly(snapshot: seq<Message>, batch: seq<Message>, limit: nat)
    requires limit >= 1 && |snapshot| <= limit
    ensures IsRightThroughout(snapshot, batch, limit) <==> FindsAll(snapshot, batch, limit)
  {
    if snapshot == [] {
      forall k | 0 <= k <= |batch| ensures IsRight(snapshot, batch[..k], limit) {
        FilledFromNothing(batch[..k]);
      }
    } else {
      if IsRightThroughout(snapshot, batch, limit) {
        forall k | 0 <= k < |batch| && !Known(snapshot, batch[k])
          ensures Finds(snapshot, Fresh(snapshot, batch[..k]), batch[k], limit)
        {
          assert IsRight(snapshot, batch[..k], limit) && IsRight(snapshot, batch[..k + 1], limit);
          NextInBatch(snapshot, batch, k, limit);
        }
      }
      if FindsAll(snapshot, batch, limit) {
        forall k | 0 <= k <= |batch| ensures IsRight(snapshot, batch[..k], limit) {
          RightUpTo(snapshot, batch, limit, k);
        }
      }
    }
  }

  lemma {:induction false} RightUpTo(snapshot: seq<Message>, batch: seq<Message>, limit: nat, k: nat)
    requires snapshot != [] && limit >= 1 && |snapshot| <= limit && k <= |batch|
    requires FindsAll(snapshot, batch, limit)
    ensures IsRight(snapshot, batch[..k], limit)
  {
    if k == 0 {
      StartIsRight(snapshot, limit);
    } else {
      var i := k - 1;
      RightUpTo(snapshot, batch, limit, i);
      assert !Known(snapshot, batch[i]) ==> Finds(snapshot, Fresh(snapshot, batch[..i]), batch[i], limit);
      NextInBatch(snapshot, batch, i, limit);
    }
  }

  // ----- distinct messages -----

  lemma LastIsDistinct(w: seq<Message>, limit: nat)
    requires Distinct(w)
    ensures Distinct(LastN(w, limit))
  {
  }

  // In a sequence without repeats every copy that is found is the right one.
  lemma DistinctFinds(w: seq<Message>, limit: nat, p: nat, m: Message)
    requires Distinct(w) && p < |w|
    ensures FindsAt(w, limit, p, m)
    ensures p == |w| - 1 ==> FindsEnd(w, limit, m)
  {
    var c := LastN(w, limit);
    var dropped := |w| - |c|;
    LastIsDistinct(w, limit);
    if p >= dropped {
      KeptItem(w, limit, p);
      DistinctIndex(c, p - dropped);
    } else {
      NotInLast(w, limit, p);
    }
  }

  lemma NotInLast(w: seq<Message>, limit: nat, p: nat)
    requires Distinct(w) && p < |w| - |LastN(w, limit)|
    ensures w[p] !in LastN(w, limit)
  {
    var c := LastN(w, limit);
    forall i | 0 <= i < |c| ensures c[i] != w[p] {
      assert c[i] == w[|w| - |c| + i];
    }
  }

  lemma WholeIsDistinct(snapshot: seq<Message>, batch: seq<Message>, k: nat)
    requires Distinct(snapshot + batch) && k <= |batch|
    ensures Distinct(Weave(snapshot, Fresh(snapshot, batch[..k]), 0))
  {
    var part := snapshot + batch[..k];
    assert part == (snapshot + batch)[..|part|];
    var missing := Fresh(snapshot, batch[..k]);
    SelectDistinct(snapshot, batch[..k], m => !Known(snapshot, m));
    WeaveConserves(snapshot, missing);
    DistinctByCounts(snapshot + missing, Weave(snapshot, missing, 0));
  }

  lemma DistinctByCounts(s: seq<Message>, t: seq<Message>)
    requires Distinct(s) && multiset(s) == multiset(t)
    ensures Distinct(t)
  {
    forall i, j | 0 <= i < j < |t| ensures t[i] != t[j] {
      if t[i] == t[j] {
        assert t == t[..i] + [t[i]] + t[i + 1..j] + [t[j]] + t[j + 1..];
        assert multiset(t)[t[i]] >= 2;
        assert t[i] in multiset(s);
        CountOnce([], s, t[i]);
      }
    }
  }

  // If no message is there twice, the pass does what was meant, in whatever
  // order the batch comes and whatever is evicted on the way.
  lemma DistinctIsRight(snapshot: seq<Message>, batch: seq<Message>, limit: nat)
    requires limit >= 1 && |snapshot| <= limit && Distinct(snapshot + batch)
    ensures IsRight(snapshot, batch, limit)
  {
    if snapshot != [] {
      forall k | 0 <= k < |batch| && !Known(snapshot, batch[k])
        ensures Finds(snapshot, Fresh(snapshot, batch[..k]), batch[k], limit)
      {
        DistinctStep(snapshot, batch, k, limit);
      }
    }
    RightThroughoutExactly(snapshot, batch, limit);
    assert batch[..|batch|] == batch;
  }

  lemma DistinctStep(snapshot: seq<Message>, batch: seq<Message>, k: nat, limit: nat)
    requires snapshot != [] && k < |batch| && Distinct(snapshot + batch)
    ensures Finds(snapshot, Fresh(snapshot, batch[..k]), batch[k], limit)
  {
    var missing, a := Fresh(snapshot, batch[..k]), Anchor(snapshot, batch[k].time);
    var w := Weave(snapshot, missing, 0);
    WholeIsDistinct(snapshot, batch, k);
    WeaveIsNotEmpty(snapshot, missing);
    PositionOfAnchor(snapshot, missing, 0, a);
    DistinctFinds(w, limit, if a < |snapshot| then Position(snapshot, missing, 0, a) else |w| - 1, batch[k]);
  }

  // ----- a batch in ascending order of time -----

  predicate GoInside(snapshot: seq<Message>, missing: seq<Message>) {
    forall i :: 0 <= i < |missing| ==> Anchor(snapshot, missing[i].time) < |snapshot|
  }

  predicate GoBehind(snapshot: seq<Message>, missing: seq<Message>) {
    forall i :: 0 <= i < |missing| ==> Anchor(snapshot, missing[i].time) == |snapshot|
  }

  // The missing messages that go in front of snapshot[i] or of a later message.
  function From(snapshot: seq<Message>, missing: seq<Message>, i: nat): seq<Message> {
    Select(missing, (m: Message) => i <= Anchor(snapshot, m.time) < |snapshot|)
  }

  lemma {:induction false} WeaveLength(snapshot: seq<Message>, inside: seq<Message>, i: nat)
    requires i <= |snapshot| && GoInside(snapshot, inside)
    ensures |Weave(snapshot, inside, i)| == |snapshot| - i + |From(snapshot, inside, i)|
  {
    if inside == [] {
      WeaveNothing(snapshot, i);
    } else {
      var n, m := inside[..|inside| - 1], inside[|inside| - 1];
      SplitLast(inside);
      WeaveLength(snapshot, n, i);
      SelectAppend(n, [m], (m: Message) => i <= Anchor(snapshot, m.time) < |snapshot|);
      if Anchor(snapshot, m.time) < i {
        WeaveAppendBehind(snapshot, n, m, i);
      } else {
        WeaveAppend(snapshot, n, m, i);
      }
    }
  }

  // How many messages there are from snapshot[i] on, before any go to the end.
  function Reach(snapshot: seq<Message>, missing: seq<Message>, i: nat): nat
    requires i < |snapshot|
  {
    |snapshot| - i + |From(snapshot, missing, i + 1)|
  }

  lemma {:induction false} ReachFromEnd(snapshot: seq<Message>, inside: seq<Message>, j: nat, i: nat)
    requires j <= i < |snapshot| && GoInside(snapshot, inside)
    ensures Position(snapshot, inside, j, i) + Reach(snapshot, inside, i) == |Weave(snapshot, inside, j)|
    decreases i - j
  {
    WeaveUnfold(snapshot, inside, j);
    if j == i {
      WeaveLength(snapshot, inside, i + 1);
    } else {
      ReachFromEnd(snapshot, inside, j + 1, i);
    }
  }

  lemma SoFar(snapshot: seq<Message>, missing: seq<Message>, m: Message)
    requires Ascending(missing + [m])
    ensures Ascending(missing)
    ensures forall x :: x in missing ==> x.time <= m.time && Anchor(snapshot, x.time) <= Anchor(snapshot, m.time)
  {
    var all := missing + [m];
    assert forall i :: 0 <= i < |missing| ==> all[i] == missing[i];
    forall x | x in missing ensures x.time <= m.time && Anchor(snapshot, x.time) <= Anchor(snapshot, m.time) {
      EarlierInBatch(snapshot, missing, m, x);
    }
  }

  lemma InsideSoFar(snapshot: seq<Message>, missing: seq<Message>, m: Message)
    requires GoInside(snapshot, missing + [m])
    ensures GoInside(snapshot, missing) && Anchor(snapshot, m.time) < |snapshot|
  {
    var all := missing + [m];
    assert all[|missing|] == m;
    assert forall i :: 0 <= i < |missing| ==> all[i] == missing[i];
  }

  // What is in front of an anchor is older, so its first copy is the right one.
  lemma AnchorIsFirst(snapshot: seq<Message>, missing: seq<Message>, m: Message, k: nat)
    requires Ascending(missing + [m]) && Anchor(snapshot, m.time) < |snapshot|
    requires k < Position(snapshot, missing, 0, Anchor(snapshot, m.time))
    ensures k < |Weave(snapshot, missing, 0)|
    ensures Weave(snapshot, missing, 0)[k] != snapshot[Anchor(snapshot, m.time)]
  {
    var a := Anchor(snapshot, m.time);
    InFront(snapshot, missing, 0, a, k);
    SoFar(snapshot, missing, m);
  }

  // In an ascending batch no anchor is ever evicted, and each is found.
  lemma InsideFinds(snapshot: seq<Message>, missing: seq<Message>, m: Message, limit: nat)
    requires |snapshot| <= limit && Ascending(missing + [m]) && GoInside(snapshot, missing + [m])
    ensures snapshot != [] && Finds(snapshot, missing, m, limit)
  {
    var a := Anchor(snapshot, m.time);
    InsideSoFar(snapshot, missing, m);
    SoFar(snapshot, missing, m);
    var w, p := Weave(snapshot, missing, 0), Position(snapshot, missing, 0, a);
    PositionOfAnchor(snapshot, missing, 0, a);
    ReachFromEnd(snapshot, missing, 0, a);
    SelectNone(missing, (x: Message) => a + 1 <= Anchor(snapshot, x.time) < |snapshot|);
    forall k | 0 <= k < p ensures w[k] != w[p] {
      AnchorIsFirst(snapshot, missing, m, k);
    }
    FirstCopyFinds(w, limit, p, m);
  }

  // The first copy is found where it is, if it is kept.
  lemma FirstCopyFinds(w: seq<Message>, limit: nat, p: nat, m: Message)
    requires p < |w| && p >= |w| - |LastN(w, limit)|
    requires forall k :: 0 <= k < p ==> w[k] != w[p]
    ensures FindsAt(w, limit, p, m)
  {
    FirstOfKept(w, limit, p);
  }

  lemma {:induction false} InsideIsRight(snapshot: seq<Message>, inside: seq<Message>, limit: nat)
    requires snapshot != [] && |snapshot| <= limit && Ascending(inside) && GoInside(snapshot, inside)
    ensures IsRightFor(snapshot, inside, limit)
  {
    if inside == [] {
      NothingMissing(snapshot, limit);
    } else {
      var n, m := inside[..|inside| - 1], inside[|inside| - 1];
      SplitLast(inside);
      SoFar(snapshot, n, m);
      InsideSoFar(snapshot, n, m);
      InsideIsRight(snapshot, n, limit);
      InsideFinds(snapshot, n, m, limit);
      NextIsRight(snapshot, n, m, limit);
    }
  }

  // ----- and then the messages that go to the end -----

  // The messages are new: none is there twice, and none was there before.
  ghost predicate AreNew(snapshot: seq<Message>, batch: seq<Message>) {
    Distinct(batch) && forall m :: m in batch ==> m !in snapshot
  }

  // The last message of the kept ones is there only once.
  predicate LastIsOnce(w: seq<Message>, limit: nat)
    requires w != [] && limit >= 1
  {
    var c := LastN(w, limit);
    LastIsKept(w, limit);
    IndexOf(c, Last(w)) == |c| - 1
  }

  lemma OnceFinds(w: seq<Message>, limit: nat, m: Message)
    requires w != [] && limit >= 1 && LastIsOnce(w, limit)
    ensures FindsEnd(w, limit, m)
  {
  }

  lemma NewLastIsOnce(w: seq<Message>, m: Message, limit: nat)
    requires limit >= 1 && m !in w
    ensures LastIsOnce(w + [m], limit)
  {
    var c := LastN(w + [m], limit);
    assert c[|c| - 1] == m;
    forall j | 0 <= j < |c| - 1 ensures c[j] != m {
      assert c[j] == w[|w| + 1 - |c| + j];
    }
  }

  lemma BehindAppends(snapshot: seq<Message>, missing: seq<Message>, m: Message)
    requires Anchor(snapshot, m.time) == |snapshot|
    ensures Weave(snapshot, missing + [m], 0) == Weave(snapshot, missing, 0) + [m]
  {
    WeaveAppend(snapshot, missing, m, 0);
    PositionOfAnchor(snapshot, missing, 0, |snapshot|);
  }

  lemma {:induction false} WeaveBehind(snapshot: seq<Message>, inside: seq<Message>, behind: seq<Message>)
    requires GoBehind(snapshot, behind)
    ensures Weave(snapshot, inside + behind, 0) == Weave(snapshot, inside, 0) + behind
  {
    var w := Weave(snapshot, inside, 0);
    if behind == [] {
      NothingBehind(inside);
      NothingBehind(w);
    } else {
      var n, m := behind[..|behind| - 1], behind[|behind| - 1];
      Regroup(inside, n, [m]);
      Regroup(w, n, [m]);
      SplitLast(behind);
      WeaveBehind(snapshot, inside, n);
      BehindAppends(snapshot, inside + n, m);
    }
  }

  lemma NotThereYet(w: seq<Message>, n: seq<Message>, m: Message)
    requires AreNew(w, n + [m])
    ensures AreNew(w, n) && m !in w + n
  {
    var all := n + [m];
    assert all[|n|] == m;
    assert forall i :: 0 <= i < |n| ==> all[i] == n[i];
    assert forall x :: x in n ==> x in all;
  }

  lemma OneBehind(snapshot: seq<Message>, inside: seq<Message>, n: seq<Message>, m: Message)
    requires GoBehind(snapshot, n + [m]) && AreNew(Weave(snapshot, inside, 0), n + [m])
    ensures GoBehind(snapshot, n) && AreNew(Weave(snapshot, inside, 0), n)
    ensures var w := Weave(snapshot, inside, 0) + n;
            && inside + (n + [m]) == (inside + n) + [m]
            && Weave(snapshot, inside + n, 0) == w && m !in w
            && Weave(snapshot, (inside + n) + [m], 0) == w + [m]
    ensures Anchor(snapshot, m.time) == |snapshot|
  {
    var all := n + [m];
    assert all[|n|] == m;
    assert forall i :: 0 <= i < |n| ==> all[i] == n[i];
    Regroup(inside, n, [m]);
    NotThereYet(Weave(snapshot, inside, 0), n, m);
    WeaveBehind(snapshot, inside, n);
    BehindAppends(snapshot, inside + n, m);
  }

  lemma BehindFinds(snapshot: seq<Message>, missing: seq<Message>, m: Message, limit: nat)
    requires snapshot != [] && limit >= 1 && Anchor(snapshot, m.time) == |snapshot|
    requires IsRightFor(snapshot, missing, limit)
    requires Weave(snapshot, missing, 0) != [] && LastIsOnce(Weave(snapshot, missing, 0), limit)
    ensures IsRightFor(snapshot, missing + [m], limit)
  {
    OnceFinds(Weave(snapshot, missing, 0), limit, m);
    NextIsRight(snapshot, missing, m, limit);
  }

  lemma {:induction false} BehindIsRight(snapshot: seq<Message>, inside: seq<Message>, behind: seq<Message>, limit: nat)
    requires snapshot != [] && limit >= 1 && IsRightFor(snapshot, inside, limit)
    requires GoBehind(snapshot, behind) && AreNew(Weave(snapshot, inside, 0), behind)
    requires Weave(snapshot, inside, 0) != [] && LastIsOnce(Weave(snapshot, inside, 0), limit)
    ensures IsRightFor(snapshot, inside + behind, limit)
    ensures Weave(snapshot, inside + behind, 0) != [] && LastIsOnce(Weave(snapshot, inside + behind, 0), limit)
  {
    if behind == [] {
      NothingBehind(inside);
    } else {
      var n, m := behind[..|behind| - 1], behind[|behind| - 1];
      SplitLast(behind);
      OneBehind(snapshot, inside, n, m);
      BehindIsRight(snapshot, inside, n, limit);
      BehindFinds(snapshot, inside + n, m, limit);
      NewLastIsOnce(Weave(snapshot, inside, 0) + n, m, limit);
    }
  }

  lemma InsertKeepsLast(c: seq<Message>, limit: nat, k: nat, m: Message)
    requires k < |c| <= limit
    ensures var r := LastN(Insert(c, k, m), limit); r != [] && Last(r) == Last(c)
  {
    var r := Insert(c, k, m);
    assert r[|r| - 1] == c[|c| - 1];
  }

  lemma AfterEarlierCopy(c: seq<Message>, limit: nat, x: Message, m: Message)
    requires c != [] && |c| <= limit && (x in c ==> IndexOf(c, x) < |c| - 1)
    ensures var r := InsertedAfter(c, limit, x, m); r != [] && |r| <= limit && Last(r) == Last(c)
  {
    if x in c {
      InsertKeepsLast(c, limit, IndexOf(c, x) + 1, m);
    }
  }

  // Where the end of the history is taken to be is not the end of the buffer.
  predicate EndIsLost(f: Filling, x: Message, limit: nat) {
    && f.contents != [] && |f.contents| <= limit && Last(f.contents) == x
    && (f.last in f.contents ==> IndexOf(f.contents, f.last) < |f.contents| - 1)
  }

  lemma EndStaysLost(snapshot: seq<Message>, f: Filling, x: Message, m: Message, limit: nat)
    requires EndIsLost(f, x, limit) && Anchor(snapshot, m.time) == |snapshot| && m != x
    ensures EndIsLost(Placed(snapshot, f, m, limit), x, limit)
  {
    AfterEarlierCopy(f.contents, limit, f.last, m);
    NotAtEnd(Placed(snapshot, f, m, limit).contents, m);
  }

  lemma NotAtEnd(c: seq<Message>, m: Message)
    requires c != [] && Last(c) != m
    ensures m in c ==> IndexOf(c, m) < |c| - 1
  {
  }

  lemma EndIsLostAtOnce(snapshot: seq<Message>, inside: seq<Message>, limit: nat)
    requires snapshot != [] && limit >= 1 && IsRightFor(snapshot, inside, limit)
    requires Weave(snapshot, inside, 0) != [] && !LastIsOnce(Weave(snapshot, inside, 0), limit)
    ensures EndIsLost(Steps(snapshot, inside, limit), Last(Weave(snapshot, inside, 0)), limit)
  {
    LastFollows(snapshot, inside, limit);
    LastIsKept(Weave(snapshot, inside, 0), limit);
  }

  // Once a message went behind an earlier copy of the last one, that one stays last.
  lemma {:induction false} BehindIsWrong(snapshot: seq<Message>, inside: seq<Message>, behind: seq<Message>, limit: nat)
    requires snapshot != [] && limit >= 1 && IsRightFor(snapshot, inside, limit)
    requires GoBehind(snapshot, behind) && AreNew(Weave(snapshot, inside, 0), behind)
    requires Weave(snapshot, inside, 0) != [] && !LastIsOnce(Weave(snapshot, inside, 0), limit)
    ensures EndIsLost(Steps(snapshot, inside + behind, limit), Last(Weave(snapshot, inside, 0)), limit)
  {
    if behind == [] {
      NothingBehind(inside);
      EndIsLostAtOnce(snapshot, inside, limit);
    } else {
      var w, n, m := Weave(snapshot, inside, 0), behind[..|behind| - 1], behind[|behind| - 1];
      SplitLast(behind);
      OneBehind(snapshot, inside, n, m);
      BehindIsWrong(snapshot, inside, n, limit);
      StepsAppend(snapshot, inside + n, m, limit);
      assert Last(w) in w + n;
      EndStaysLost(snapshot, Steps(snapshot, inside + n, limit), Last(w), m, limit);
    }
  }

  // With the messages inside done, those for the end come right exactly if the
  // last message is there once.
  lemma BehindExactly(snapshot: seq<Message>, inside: seq<Message>, behind: seq<Message>, limit: nat)
    requires snapshot != [] && limit >= 1 && IsRightFor(snapshot, inside, limit)
    requires GoBehind(snapshot, behind) && AreNew(Weave(snapshot, inside, 0), behind)
    requires Weave(snapshot, inside, 0) != []
    ensures IsRightFor(snapshot, inside + behind, limit) <==>
            behind == [] || LastIsOnce(Weave(snapshot, inside, 0), limit)
  {
    var w := Weave(snapshot, inside, 0);
    if behind == [] {
      NothingBehind(inside);
    } else if LastIsOnce(w, limit) {
      BehindIsRight(snapshot, inside, behind, limit);
    } else {
      BehindIsWrong(snapshot, inside, behind, limit);
      WeaveBehind(snapshot, inside, behind);
      LastIsKept(w + behind, limit);
      NewIsNotLast(w, behind);
    }
  }

  lemma NewIsNotLast(w: seq<Message>, behind: seq<Message>)
    requires w != [] && behind != [] && AreNew(w, behind)
    ensures Last(w + behind) != Last(w)
  {
    assert Last(w + behind) == behind[|behind| - 1] && behind[|behind| - 1] in behind;
  }

  // ----- the condition on the history -----

  // An earlier copy of the last message stands close enough to the end to be
  // kept until a message goes there.
  predicate LastIsShadowed(snapshot: seq<Message>, missing: seq<Message>, limit: nat) {
    exists i :: 0 <= i < |snapshot| - 1 && snapshot[i] == snapshot[|snapshot| - 1] &&
                Reach(snapshot, missing, i) <= limit
  }

  lemma {:induction false} FromSnapshot(snapshot: seq<Message>, missing: seq<Message>, j: nat, k: nat) returns (i: nat)
    requires j <= |snapshot| && k < |Weave(snapshot, missing, j)| && Weave(snapshot, missing, j)[k] !in missing
    ensures j <= i < |snapshot| && k == Position(snapshot, missing, j, i)
    ensures Weave(snapshot, missing, j)[k] == snapshot[i]
    decreases |snapshot| - j
  {
    var g := Group(snapshot, missing, j);
    GroupMember(snapshot, missing, j);
    assert forall q :: 0 <= q < |g| ==> g[q] in g && Weave(snapshot, missing, j)[q] == g[q];
    if k == |g| {
      i := j;
    } else {
      WeaveUnfold(snapshot, missing, j);
      i := FromSnapshot(snapshot, missing, j + 1, k - |g| - 1);
    }
  }

  lemma LastOfInside(snapshot: seq<Message>, inside: seq<Message>)
    requires snapshot != [] && GoInside(snapshot, inside)
    ensures Weave(snapshot, inside, 0) != [] && Last(Weave(snapshot, inside, 0)) == Last(snapshot)
    ensures Reach(snapshot, inside, |snapshot| - 1) == 1
  {
    var i := |snapshot| - 1;
    PositionOfAnchor(snapshot, inside, 0, i);
    ReachFromEnd(snapshot, inside, 0, i);
    SelectNone(inside, (m: Message) => i + 1 <= Anchor(snapshot, m.time) < |snapshot|);
  }

  lemma ShadowSpoils(snapshot: seq<Message>, inside: seq<Message>, limit: nat)
    requires snapshot != [] && limit >= 1 && GoInside(snapshot, inside)
    requires LastIsShadowed(snapshot, inside, limit)
    ensures Weave(snapshot, inside, 0) != [] && !LastIsOnce(Weave(snapshot, inside, 0), limit)
  {
    var w, x := Weave(snapshot, inside, 0), Last(snapshot);
    var i: nat :| i < |snapshot| - 1 && snapshot[i] == x && Reach(snapshot, inside, i) <= limit;
    LastOfInside(snapshot, inside);
    PositionOfAnchor(snapshot, inside, 0, i);
    ReachFromEnd(snapshot, inside, 0, i);
    KeptItem(w, limit, Position(snapshot, inside, 0, i));
  }

  lemma SpoiledByShadow(snapshot: seq<Message>, inside: seq<Message>, limit: nat)
    requires snapshot != [] && limit >= 1 && GoInside(snapshot, inside) && Last(snapshot) !in inside
    requires Weave(snapshot, inside, 0) != [] && !LastIsOnce(Weave(snapshot, inside, 0), limit)
    ensures LastIsShadowed(snapshot, inside, limit)
  {
    var w, x := Weave(snapshot, inside, 0), Last(snapshot);
    LastOfInside(snapshot, inside);
    var k := EarlierKept(w, limit);
    var i := FromSnapshot(snapshot, inside, 0, k);
    ReachFromEnd(snapshot, inside, 0, i);
    assert snapshot[i] == x && Reach(snapshot, inside, i) == |w| - k;
  }

  lemma EarlierKept(w: seq<Message>, limit: nat) returns (k: nat)
    requires w != [] && limit >= 1 && !LastIsOnce(w, limit)
    ensures k < |w| - 1 && |w| - k <= limit && w[k] == Last(w)
  {
    var c := LastN(w, limit);
    LastIsKept(w, limit);
    k := |w| - |c| + IndexOf(c, Last(w));
  }

  lemma {:induction false} AscendingSplits(snapshot: seq<Message>, missing: seq<Message>)
    returns (inside: seq<Message>, behind: seq<Message>)
    requires Ascending(missing)
    ensures missing == inside + behind && GoInside(snapshot, inside) && GoBehind(snapshot, behind)
    ensures Ascending(inside)
  {
    if missing == [] {
      inside, behind := [], [];
    } else {
      var n, m := missing[..|missing| - 1], missing[|missing| - 1];
      SplitLast(missing);
      SoFar(snapshot, n, m);
      if Anchor(snapshot, m.time) < |snapshot| {
        inside, behind := missing, [];
        forall i | 0 <= i < |missing| ensures Anchor(snapshot, missing[i].time) < |snapshot| {
          assert i < |n| ==> missing[i] == n[i] && n[i] in n;
        }
      } else {
        inside, behind := AscendingSplits(snapshot, n);
        behind := behind + [m];
      }
    }
  }

  // Only what goes inside counts for the reach.
  lemma ReachOfInside(snapshot: seq<Message>, inside: seq<Message>, behind: seq<Message>, i: nat)
    requires i < |snapshot| && GoBehind(snapshot, behind)
    ensures Reach(snapshot, inside + behind, i) == Reach(snapshot, inside, i)
  {
    var p := (m: Message) => i + 1 <= Anchor(snapshot, m.time) < |snapshot|;
    SelectAppend(inside, behind, p);
    SelectNone(behind, p);
  }

  lemma ShadowOfInside(snapshot: seq<Message>, inside: seq<Message>, behind: seq<Message>, limit: nat)
    requires GoBehind(snapshot, behind)
    ensures LastIsShadowed(snapshot, inside + behind, limit) <==> LastIsShadowed(snapshot, inside, limit)
  {
    forall i | 0 <= i < |snapshot|
      ensures Reach(snapshot, inside + behind, i) == Reach(snapshot, inside, i)
    {
      ReachOfInside(snapshot, inside, behind, i);
    }
  }

  lemma SplitIsNew(snapshot: seq<Message>, inside: seq<Message>, behind: seq<Message>)
    requires snapshot != [] && AreNew(snapshot, inside + behind)
    ensures AreNew(Weave(snapshot, inside, 0), behind)
    ensures Last(snapshot) !in inside
  {
    var all := inside + behind;
    WeaveMembers(snapshot, inside);
    assert forall x :: x in behind ==> x in all;
    assert forall x :: x in inside ==> x in all;
    forall i, j | 0 <= i < j < |behind| ensures behind[i] != behind[j] {
      assert all[|inside| + i] == behind[i] && all[|inside| + j] == behind[j];
    }
    forall x | x in behind ensures x !in inside {
      var j :| 0 <= j < |behind| && behind[j] == x;
      assert all[|inside| + j] == x;
      forall i | 0 <= i < |inside| ensures inside[i] != x { assert all[i] == inside[i]; }
    }
  }

  predicate AnyGoesBehind(snapshot: seq<Message>, missing: seq<Message>) {
    exists i :: 0 <= i < |missing| && Anchor(snapshot, missing[i].time) == |snapshot|
  }

  lemma NewMissing(snapshot: seq<Message>, batch: seq<Message>)
    requires Ascending(batch) && AreNew(snapshot, batch)
    ensures Ascending(Fresh(snapshot, batch)) && AreNew(snapshot, Fresh(snapshot, batch))
  {
    SelectAscending(batch, m => !Known(snapshot, m));
    assert [] + batch == batch;
    SelectDistinct([], batch, m => !Known(snapshot, m));
    assert [] + Fresh(snapshot, batch) == Fresh(snapshot, batch);
    forall m | m in Fresh(snapshot, batch) ensures m !in snapshot {
      FreshMember(snapshot, batch, m);
    }
  }

  // The documented use: a batch of new messages in ascending order. Whatever the
  // history, the pass goes wrong exactly if a message goes to the end and an
  // earlier copy of the history's last message is kept until then.
  lemma FillInExactly(snapshot: seq<Message>, batch: seq<Message>, limit: nat)
    requires limit >= 1 && |snapshot| <= limit && Ascending(batch) && AreNew(snapshot, batch)
    ensures var missing := Fresh(snapshot, batch);
            IsRight(snapshot, batch, limit) <==>
            !(AnyGoesBehind(snapshot, missing) && LastIsShadowed(snapshot, missing, limit))
  {
    if snapshot == [] {
      FilledFromNothing(batch);
    } else {
      NewMissing(snapshot, batch);
      MissingExactly(snapshot, Fresh(snapshot, batch), limit);
    }
  }

  lemma MissingExactly(snapshot: seq<Message>, missing: seq<Message>, limit: nat)
    requires snapshot != [] && limit >= 1 && |snapshot| <= limit
    requires Ascending(missing) && AreNew(snapshot, missing)
    ensures IsRightFor(snapshot, missing, limit) <==>
            !(AnyGoesBehind(snapshot, missing) && LastIsShadowed(snapshot, missing, limit))
  {
    var inside, behind := AscendingSplits(snapshot, missing);
    WeaveIsNotEmpty(snapshot, inside);
    InsideIsRight(snapshot, inside, limit);
    SplitIsNew(snapshot, inside, behind);
    BehindExactly(snapshot, inside, behind, limit);
    ShadowOfInside(snapshot, inside, behind, limit);
    if LastIsShadowed(snapshot, inside, limit) {
      ShadowSpoils(snapshot, inside, limit);
    } else if !LastIsOnce(Weave(snapshot, inside, 0), limit) {
      SpoiledByShadow(snapshot, inside, limit);
    }
    AnyBehind(snapshot, inside, behind);
  }

  lemma AnyBehind(snapshot: seq<Message>, inside: seq<Message>, behind: seq<Message>)
    requires GoInside(snapshot, inside) && GoBehind(snapshot, behind)
    ensures AnyGoesBehind(snapshot, inside + behind) <==> behind != []
  {
    var all := inside + behind;
    if behind != [] {
      assert all[|inside|] == behind[0];
    }
  }

  // ----- the bounded and the unbounded pass -----

  // The place the unbounded buffer finds is one the bounded buffer still has.
  predicate Aligned(u: Filling, b: Filling, limit: nat) {
    && b.contents == LastN(u.contents, limit) && b.last == u.last
    && u.last in u.contents && IndexOf(u.contents, u.last) >= |u.contents| - |b.contents|
  }

  lemma AlignedIndex(u: seq<Message>, limit: nat, x: Message)
    requires x in u && IndexOf(u, x) >= |u| - |LastN(u, limit)|
    ensures var c := LastN(u, limit); x in c && IndexOf(c, x) == IndexOf(u, x) - (|u| - |c|)
  {
    var c := LastN(u, limit);
    var dropped, k := |u| - |c|, IndexOf(u, x);
    KeptItem(u, limit, k);
    FirstOfKept(u, limit, k);
  }

  lemma FirstOfKept(w: seq<Message>, limit: nat, p: nat)
    requires |w| - |LastN(w, limit)| <= p < |w|
    requires forall k :: 0 <= k < p ==> w[k] != w[p]
    ensures var c := LastN(w, limit);
            var q := p - (|w| - |c|);
            q < |c| && c[q] == w[p] && IndexOf(c, w[p]) == q
  {
    var c := LastN(w, limit);
    var dropped := |w| - |c|;
    KeptItem(w, limit, p);
    forall k | 0 <= k < p - dropped ensures c[k] != c[p - dropped] {
      assert c[k] == w[dropped + k];
    }
    FirstIndex(c, p - dropped);
  }

  lemma NewIndex(u: seq<Message>, k: nat, m: Message)
    requires k <= |u| && m !in u
    ensures m in Insert(u, k, m) && IndexOf(Insert(u, k, m), m) == k
  {
    var r := Insert(u, k, m);
    assert r[k] == m;
    forall j | 0 <= j < k ensures r[j] != m {
      assert r[j] == u[j];
    }
    FirstIndex(r, k);
  }

  lemma AlignedInsert(u: seq<Message>, limit: nat, k: nat, q: nat, m: Message)
    requires limit >= 1 && |u| - |LastN(u, limit)| < k <= |u|
    requires q == k - (|u| - |LastN(u, limit)|)
    ensures var r := Insert(u, k, m);
            LastN(r, limit) == LastN(Insert(LastN(u, limit), q, m), limit)
  {
    InsertThenLast(u, limit, k, m);
  }

  // With room for one more, nothing is evicted.
  lemma UnboundedAfter(u: seq<Message>, x: Message, m: Message, room: nat)
    requires x in u && m !in u && |u| < room
    ensures var k := IndexOf(u, x) + 1;
            && InsertedAfter(u, room, x, m) == Insert(u, k, m)
            && m in Insert(u, k, m) && IndexOf(Insert(u, k, m), m) == k
  {
    NewIndex(u, IndexOf(u, x) + 1, m);
  }

  lemma StaysAligned(u: Filling, b: Filling, m: Message, limit: nat, room: nat)
    requires Aligned(u, b, limit) && limit >= 1 && m !in u.contents && |u.contents| < room
    ensures Aligned(Filling(InsertedAfter(u.contents, room, u.last, m), m),
                    Filling(InsertedAfter(b.contents, limit, b.last, m), m), limit)
  {
    BothInsert(u.contents, u.last, m, limit, room);
  }

  lemma BothInsert(u: seq<Message>, x: Message, m: Message, limit: nat, room: nat)
    requires x in u && IndexOf(u, x) >= |u| - |LastN(u, limit)|
    requires limit >= 1 && m !in u && |u| < room
    ensures var u', c' := InsertedAfter(u, room, x, m), InsertedAfter(LastN(u, limit), limit, x, m);
            c' == LastN(u', limit) && m in u' && IndexOf(u', m) >= |u'| - |c'|
  {
    BoundedAfter(u, x, m, limit);
    UnboundedAfter(u, x, m, room);
    StillKept(u, limit, IndexOf(u, x) + 1, m);
  }

  lemma StillKept(u: seq<Message>, limit: nat, k: nat, m: Message)
    requires |u| - |LastN(u, limit)| < k <= |u|
    ensures k >= |Insert(u, k, m)| - |LastN(Insert(u, k, m), limit)|
  {
  }

  lemma BoundedAfter(u: seq<Message>, x: Message, m: Message, limit: nat)
    requires x in u && IndexOf(u, x) >= |u| - |LastN(u, limit)| && limit >= 1
    ensures InsertedAfter(LastN(u, limit), limit, x, m) == LastN(Insert(u, IndexOf(u, x) + 1, m), limit)
  {
    var c := LastN(u, limit);
    AlignedIndex(u, limit, x);
    AlignedAfter(u, c, IndexOf(u, x) + 1, IndexOf(c, x) + 1, x, m, limit);
  }

  lemma AlignedAfter(u: seq<Message>, c: seq<Message>, k: nat, q: nat, x: Message, m: Message, limit: nat)
    requires c == LastN(u, limit) && x in c && q == IndexOf(c, x) + 1
    requires limit >= 1 && |u| - |c| < k <= |u| && q == k - (|u| - |c|)
    ensures InsertedAfter(c, limit, x, m) == LastN(Insert(u, k, m), limit)
  {
    calc {
      InsertedAfter(c, limit, x, m);
      LastN(Insert(c, q, m), limit);
      { AlignedInsert(u, limit, k, q, m); }
      LastN(Insert(u, k, m), limit);
    }
  }

  // The unbounded buffer finds a place in front of all that is kept.
  predicate InFrontOf(u: Filling, kept: seq<Message>) {
    && u.last in u.contents && IndexOf(u.contents, u.last) + 1 + |kept| <= |u.contents|
    && LastN(u.contents, |kept|) == kept
  }

  lemma InsertInFront(u: seq<Message>, kept: seq<Message>, k: nat, m: Message)
    requires LastN(u, |kept|) == kept && k + |kept| <= |u|
    ensures LastN(Insert(u, k, m), |kept|) == kept
  {
    var r := Insert(u, k, m);
    assert r[|r| - |kept|..] == u[|u| - |kept|..];
  }

  lemma StaysInFront(u: Filling, kept: seq<Message>, m: Message, room: nat)
    requires InFrontOf(u, kept) && m !in u.contents && |u.contents| < room
    ensures InFrontOf(Filling(InsertedAfter(u.contents, room, u.last, m), m), kept)
  {
    UnboundedAfter(u.contents, u.last, m, room);
    InsertInFront(u.contents, kept, IndexOf(u.contents, u.last) + 1, m);
  }

  lemma InsertedIsThere(c: seq<Message>, limit: nat, x: Message, m: Message)
    requires x in c && |c| <= limit
    ensures var r := InsertedAfter(c, limit, x, m); m in r && |r| <= limit
  {
    var k := IndexOf(c, x) + 1;
    var r := Insert(c, k, m);
    assert r[k] == m && r[1..][k - 1] == m;
  }

  lemma {:induction false} StepsMembers(snapshot: seq<Message>, missing: seq<Message>, limit: nat)
    requires snapshot != []
    ensures var c := Steps(snapshot, missing, limit).contents;
            && |c| <= |snapshot| + |missing|
            && forall x :: x in c ==> x in snapshot || x in missing
  {
    if missing != [] {
      var n, m := missing[..|missing| - 1], missing[|missing| - 1];
      SplitLast(missing);
      StepsMembers(snapshot, n, limit);
      PlacedMembers(snapshot, Steps(snapshot, n, limit), m, limit);
    }
  }

  lemma PlacedMembers(snapshot: seq<Message>, f: Filling, m: Message, limit: nat)
    ensures var c := Placed(snapshot, f, m, limit).contents;
            && |c| <= |f.contents| + 1
            && forall x :: x in c ==> x in f.contents || x == m
  {
    var a := Anchor(snapshot, m.time);
    var x := if a < |snapshot| then snapshot[a] else f.last;
    if x in f.contents {
      InsertMembers(f.contents, IndexOf(f.contents, x) + (if a < |snapshot| then 0 else 1), m, limit);
    }
  }

  lemma InsertMembers(c: seq<Message>, k: nat, m: Message, limit: nat)
    requires k <= |c|
    ensures forall x :: x in LastN(Insert(c, k, m), limit) ==> x in c || x == m
  {
  }

  // What both buffers do with the messages for the end.
  ghost predicate BehindCase(snapshot: seq<Message>, inside: seq<Message>, behind: seq<Message>,
                             limit: nat, room: nat)
  {
    && snapshot != [] && limit >= 1 && room >= |snapshot| + |inside| + |behind|
    && GoBehind(snapshot, behind) && AreNew(snapshot, inside + behind)
  }

  lemma OneLess(snapshot: seq<Message>, inside: seq<Message>, n: seq<Message>, m: Message, limit: nat, room: nat)
    requires BehindCase(snapshot, inside, n + [m], limit, room)
    ensures BehindCase(snapshot, inside, n, limit, room)
    ensures Anchor(snapshot, m.time) == |snapshot|
    ensures m !in Steps(snapshot, inside + n, room).contents && |Steps(snapshot, inside + n, room).contents| < room
    ensures m !in snapshot
    ensures Steps(snapshot, inside + (n + [m]), limit) == Placed(snapshot, Steps(snapshot, inside + n, limit), m, limit)
    ensures Steps(snapshot, inside + (n + [m]), room) == Placed(snapshot, Steps(snapshot, inside + n, room), m, room)
  {
    var all := n + [m];
    assert all[|n|] == m;
    assert forall i :: 0 <= i < |n| ==> all[i] == n[i];
    Regroup(inside, n, [m]);
    NotThereYet(snapshot, inside + n, m);
    StepsMembers(snapshot, inside + n, room);
    StepsAppend(snapshot, inside + n, m, limit);
    StepsAppend(snapshot, inside + n, m, room);
  }

  lemma {:induction false} BehindAligned(snapshot: seq<Message>, inside: seq<Message>, behind: seq<Message>,
                                         limit: nat, room: nat)
    requires BehindCase(snapshot, inside, behind, limit, room)
    requires Aligned(Steps(snapshot, inside, room), Steps(snapshot, inside, limit), limit)
    ensures Aligned(Steps(snapshot, inside + behind, room), Steps(snapshot, inside + behind, limit), limit)
  {
    if behind == [] {
      NothingBehind(inside);
    } else {
      var n, m := behind[..|behind| - 1], behind[|behind| - 1];
      SplitLast(behind);
      OneLess(snapshot, inside, n, m, limit, room);
      BehindAligned(snapshot, inside, n, limit, room);
      StaysAligned(Steps(snapshot, inside + n, room), Steps(snapshot, inside + n, limit), m, limit, room);
    }
  }

  lemma {:induction false} BehindInFront(snapshot: seq<Message>, inside: seq<Message>, behind: seq<Message>,
                                         limit: nat, room: nat, kept: seq<Message>)
    requires BehindCase(snapshot, inside, behind, limit, room)
    requires InFrontOf(Steps(snapshot, inside, room), kept)
    ensures InFrontOf(Steps(snapshot, inside + behind, room), kept)
  {
    if behind == [] {
      NothingBehind(inside);
    } else {
      var n, m := behind[..|behind| - 1], behind[|behind| - 1];
      SplitLast(behind);
      OneLess(snapshot, inside, n, m, limit, room);
      BehindInFront(snapshot, inside, n, limit, room, kept);
      StaysInFront(Steps(snapshot, inside + n, room), kept, m, room);
    }
  }

  lemma {:induction false} BehindIsThere(snapshot: seq<Message>, inside: seq<Message>, behind: seq<Message>,
                                         limit: nat, room: nat)
    requires BehindCase(snapshot, inside, behind, limit, room)
    requires var b := Steps(snapshot, inside, limit); b.last in b.contents && |b.contents| <= limit
    ensures var b := Steps(snapshot, inside + behind, limit); b.last in b.contents && |b.contents| <= limit
    ensures behind != [] ==> Steps(snapshot, inside + behind, limit).last == behind[|behind| - 1]
  {
    if behind == [] {
      NothingBehind(inside);
    } else {
      var n, m := behind[..|behind| - 1], behind[|behind| - 1];
      SplitLast(behind);
      OneLess(snapshot, inside, n, m, limit, room);
      BehindIsThere(snapshot, inside, n, limit, room);
      var b := Steps(snapshot, inside + n, limit);
      InsertedIsThere(b.contents, limit, b.last, m);
    }
  }

  // Whether the first copy of the last message is kept until a message goes to
  // the end.
  predicate FirstIsKept(snapshot: seq<Message>, missing: seq<Message>, limit: nat)
    requires snapshot != []
  {
    Reach(snapshot, missing, IndexOf(snapshot, Last(snapshot))) <= limit
  }

  lemma FirstCopy(snapshot: seq<Message>, inside: seq<Message>)
    requires snapshot != [] && GoInside(snapshot, inside) && Last(snapshot) !in inside
    ensures var w, x := Weave(snapshot, inside, 0), Last(snapshot);
            x in w && |w| - IndexOf(w, x) == Reach(snapshot, inside, IndexOf(snapshot, x))
  {
    var w, x := Weave(snapshot, inside, 0), Last(snapshot);
    var i := IndexOf(snapshot, x);
    PositionOfAnchor(snapshot, inside, 0, i);
    ReachFromEnd(snapshot, inside, 0, i);
    var k := IndexOf(w, x);
    var j := FromSnapshot(snapshot, inside, 0, k);
    ReachFromEnd(snapshot, inside, 0, j);
    PositionMonotone(snapshot, inside, 0, i, j);
  }

  lemma {:induction false} PositionMonotone(snapshot: seq<Message>, missing: seq<Message>, j: nat, i: nat, k: nat)
    requires j <= i <= k <= |snapshot|
    ensures Position(snapshot, missing, j, i) <= Position(snapshot, missing, j, k)
    decreases i - j
  {
    if j < i {
      PositionMonotone(snapshot, missing, j + 1, i, k);
    }
  }

  lemma InsideUnbounded(snapshot: seq<Message>, inside: seq<Message>, limit: nat, room: nat)
    requires snapshot != [] && |snapshot| <= limit && |snapshot| + |inside| <= room
    requires Ascending(inside) && GoInside(snapshot, inside)
    ensures var w := Weave(snapshot, inside, 0);
            && w != [] && Last(w) == Last(snapshot)
            && Steps(snapshot, inside, room) == Filling(w, Last(w))
            && Steps(snapshot, inside, limit) == Filling(LastN(w, limit), Last(w))
  {
    var w := Weave(snapshot, inside, 0);
    WeaveLength(snapshot, inside, 0);
    SelectNotLonger(inside, (m: Message) => 0 <= Anchor(snapshot, m.time) < |snapshot|);
    InsideIsRight(snapshot, inside, limit);
    InsideIsRight(snapshot, inside, room);
    LastFollows(snapshot, inside, limit);
    LastFollows(snapshot, inside, room);
    LastOfInside(snapshot, inside);
  }

  lemma {:induction false} SelectNotLonger<T>(s: seq<T>, p: T -> bool)
    ensures |Select(s, p)| <= |s|
  {
    if s != [] {
      SelectNotLonger(s[1..], p);
    }
  }

  lemma KeptFirstAgrees(snapshot: seq<Message>, inside: seq<Message>, behind: seq<Message>, limit: nat, room: nat)
    requires BehindCase(snapshot, inside, behind, limit, room) && |snapshot| <= limit
    requires Ascending(inside) && GoInside(snapshot, inside) && FirstIsKept(snapshot, inside, limit)
    ensures Steps(snapshot, inside + behind, limit).contents ==
            LastN(Steps(snapshot, inside + behind, room).contents, limit)
  {
    SplitIsNew(snapshot, inside, behind);
    InsideUnbounded(snapshot, inside, limit, room);
    FirstCopy(snapshot, inside);
    BehindAligned(snapshot, inside, behind, limit, room);
  }

  lemma LostFirstDiffers(snapshot: seq<Message>, inside: seq<Message>, behind: seq<Message>, limit: nat, room: nat)
    requires BehindCase(snapshot, inside, behind, limit, room) && |snapshot| <= limit && behind != []
    requires Ascending(inside) && GoInside(snapshot, inside) && !FirstIsKept(snapshot, inside, limit)
    ensures Steps(snapshot, inside + behind, limit).contents !=
            LastN(Steps(snapshot, inside + behind, room).contents, limit)
  {
    var w := Weave(snapshot, inside, 0);
    var kept, e := LastN(w, limit), behind[|behind| - 1];
    SplitIsNew(snapshot, inside, behind);
    InsideUnbounded(snapshot, inside, limit, room);
    FirstCopy(snapshot, inside);
    BehindInFront(snapshot, inside, behind, limit, room, kept);
    LastIsKept(w, limit);
    BehindIsThere(snapshot, inside, behind, limit, room);
    assert e in behind && forall x :: x in kept ==> x in w;
  }

  // A batch of new messages in ascending order leaves in a bounded buffer the
  // newest messages of what it leaves in an unbounded one, exactly if nothing
  // goes to the end or the first copy of the history's last message is kept
  // until then.
  lemma BoundedIsUnboundedExactly(snapshot: seq<Message>, batch: seq<Message>, limit: nat, room: nat)
    requires limit >= 1 && |snapshot| <= limit && |snapshot| + |batch| <= room
    requires Ascending(batch) && AreNew(snapshot, batch)
    ensures var missing := Fresh(snapshot, batch);
            FillRun(snapshot, batch, limit) == LastN(FillRun(snapshot, batch, room), limit) <==>
            (AnyGoesBehind(snapshot, missing) && snapshot != [] ==> FirstIsKept(snapshot, missing, limit))
  {
    if snapshot != [] {
      var missing := Fresh(snapshot, batch);
      NewMissing(snapshot, batch);
      SelectNotLonger(batch, m => !Known(snapshot, m));
      var inside, behind := AscendingSplits(snapshot, missing);
      AnyBehind(snapshot, inside, behind);
      ReachOfInside(snapshot, inside, behind, IndexOf(snapshot, Last(snapshot)));
      if behind == [] {
        NothingBehind(inside);
        InsideUnbounded(snapshot, inside, limit, room);
      } else if FirstIsKept(snapshot, inside, limit) {
        KeptFirstAgrees(snapshot, inside, behind, limit, room);
      } else {
        LostFirstDiffers(snapshot, inside, behind, limit, room);
      }
    }
  }

  // ----- histories with a message that is there twice -----

  const A := Message(1, "", 10, false)
  const B := Message(2, "", 20, false)
  const C := Message(3, "", 30, false)
  const X5 := Message(4, "", 5, false)
  const X15 := Message(5, "", 15, false)
  const X25 := Message(6, "", 25, false)
  const X40 := Message(7, "", 40, false)

  lemma NoIds(snapshot: seq<Message>, batch: seq<Message>)
    requires forall x :: x in snapshot ==> x.id == ""
    ensures Fresh(snapshot, batch) == batch
  {
    SelectAll(batch, m => !Known(snapshot, m));
  }

  lemma AnchorIs(snapshot: seq<Message>, t: int, a: nat)
    requires a <= |snapshot|
    requires forall i :: 0 <= i < a ==> snapshot[i].system || snapshot[i].time <= t
    requires a < |snapshot| ==> !snapshot[a].system && t < snapshot[a].time
    ensures Anchor(snapshot, t) == a
  {
  }

  lemma OneStep(snapshot: seq<Message>, m: Message, limit: nat)
    requires snapshot != []
    ensures Steps(snapshot, [m], limit) == Placed(snapshot, Filling(snapshot, Last(snapshot)), m, limit)
    ensures Weave(snapshot, [m], 0) == Insert(snapshot, Anchor(snapshot, m.time), m)
  {
    NothingBehind([m]);
    StepsAppend(snapshot, [], m, limit);
    WeaveNothing(snapshot, 0);
    WeaveAppend(snapshot, [], m, 0);
    PositionOfNothing(snapshot, 0, Anchor(snapshot, m.time));
  }

  lemma {:induction false} PositionOfNothing(snapshot: seq<Message>, i: nat, a: nat)
    requires i <= a <= |snapshot|
    ensures Position(snapshot, [], i, a) == a - i
    decreases a - i
  {
    if i < a {
      PositionOfNothing(snapshot, i + 1, a);
    }
  }

  // Nothing has to be evicted for a message to end up in the wrong place: it
  // goes behind the first copy of the last message.
  lemma RepeatedLastMessage()
    ensures FillRun([A, B, A], [X25], 100) == [A, X25, B, A]
    ensures Filled([A, B, A], [X25]) == [A, B, A, X25]
  {
    var s := [A, B, A];
    NoIds(s, [X25]);
    OneStep(s, X25, 100);
    AnchorIs(s, 25, 3);
    assert IndexOf(s, A) == 0 && Insert(s, 1, X25) == [A, X25, B, A];
  }

  lemma FromHas(snapshot: seq<Message>, missing: seq<Message>, i: nat, m: Message)
    requires m in missing && i <= Anchor(snapshot, m.time) < |snapshot|
    ensures |From(snapshot, missing, i)| >= 1
  {
    SelectMember(missing, (x: Message) => i <= Anchor(snapshot, x.time) < |snapshot|, m);
    assert m in From(snapshot, missing, i);
  }

  // On a full buffer the first copy may be gone by then, and the bounded pass
  // and the unbounded one differ.
  lemma RepeatedLastOnFullBuffer()
    ensures FillRun([A, B, A], [X15, X25], 3) != LastN(FillRun([A, B, A], [X15, X25], 5), 3)
  {
    var s, batch := [A, B, A], [X15, X25];
    NoIds(s, batch);
    BeforeAndBehind(s, batch);
    BoundedIsUnboundedExactly(s, batch, 3, 5);
  }

  lemma BeforeAndBehind(s: seq<Message>, batch: seq<Message>)
    requires s == [A, B, A] && batch == [X15, X25]
    ensures Ascending(batch) && AreNew(s, batch)
    ensures AnyGoesBehind(s, batch) && !FirstIsKept(s, batch, 3)
  {
    assert |s| == 3 && s[0] == A && s[1] == B && s[2] == A;
    AnchorIs(s, X15.time, 1);
    AnchorIs(s, X25.time, 3);
    assert batch[0] == X15 && batch[1] == X25;
    FromHas(s, batch, 1, X15);
    FirstIndex(s, 0);
    TwoNew(s, X15, X25);
  }

  lemma TwoNew(s: seq<Message>, m: Message, n: Message)
    requires m.time <= n.time && m != n && m !in s && n !in s
    ensures Ascending([m, n]) && AreNew(s, [m, n])
  {
  }

  lemma TwoSteps(snapshot: seq<Message>, m: Message, n: Message, limit: nat)
    requires snapshot != []
    ensures Steps(snapshot, [m, n], limit) ==
            Placed(snapshot, Placed(snapshot, Filling(snapshot, Last(snapshot)), m, limit), n, limit)
  {
    OneStep(snapshot, m, limit);
    Pair(m, n);
    StepsAppend(snapshot, [m], n, limit);
  }

  lemma BehindThenFront(snapshot: seq<Message>, m: Message, n: Message)
    requires Anchor(snapshot, m.time) == |snapshot| > 0 && Anchor(snapshot, n.time) == 0
    ensures Weave(snapshot, [m, n], 0) == [n] + snapshot + [m]
  {
    OneStep(snapshot, m, 0);
    Pair(m, n);
    WeaveAppend(snapshot, [m], n, 0);
    SelectNone([m], (x: Message) => Anchor(snapshot, x.time) == 0);
    FrontAndBack(snapshot, m, n);
  }

  lemma FrontAndBack(s: seq<Message>, m: Message, n: Message)
    ensures Insert(Insert(s, |s|, m), 0, n) == [n] + s + [m]
  {
  }

  // A batch out of order can evict an anchor, and the next copy of it is found.
  lemma EvictedAnchor()
    ensures FillRun([A, B, A, C], [X40, X5], 4) == [X5, A, C, X40]
    ensures LastN(Filled([A, B, A, C], [X40, X5]), 4) == [B, A, C, X40]
  {
    var s := [A, B, A, C];
    NoIds(s, [X40, X5]);
    AnchorIs(s, X40.time, 4);
    AnchorIs(s, X5.time, 0);
    BehindThenFront(s, X40, X5);
    NewestFour(X5, A, B, A, C, X40);
    TwoSteps(s, X40, X5, 4);
    FirstThenSecond();
  }

  lemma NewestFour<T>(a: T, b: T, c: T, d: T, e: T, f: T)
    ensures LastN([a] + [b, c, d, e] + [f], 4) == [c, d, e, f]
  {
  }

  lemma FirstThenSecond()
    ensures InsertedAfter([A, B, A, C], 4, C, X40) == [B, A, C, X40]
    ensures InsertedBefore([B, A, C, X40], 4, A, X5) == [X5, A, C, X40]
  {
    assert IndexOf([A, B, A, C], C) == 3 && IndexOf([B, A, C, X40], A) == 1;
    assert Insert([A, B, A, C], 4, X40) == [A, B, A, C, X40];
    assert Insert([B, A, C, X40], 1, X5) == [B, X5, A, C, X40];
  }

  // Messages that are filled in again can make up for each other's wrong places.
  lemma RepeatsRepair()
    ensures var b := B.(time := 10);
            !IsRight([A, b, A], [b], 10) && IsRight([A, b, A], [b, A], 10)
  {
    var b := B.(time := 10);
    var s := [A, b, A];
    NoIds(s, [b]);
    NoIds(s, [b, A]);
    AnchorIs(s, 10, 3);
    OneStep(s, b, 10);
    TwoSteps(s, b, A, 10);
    Pair(b, A);
    BehindAppends(s, [b], A);
    RepeatsMeet(b);
  }

  lemma RepeatsMeet(b: Message)
    requires b != A
    ensures InsertedAfter([A, b, A], 10, A, b) == [A, b, b, A]
    ensures InsertedAfter([A, b, b, A], 10, b, A) == [A, b, A, b, A]
    ensures Insert([A, b, A], 3, b) == [A, b, A, b]
  {
    assert IndexOf([A, b, A], A) == 0 && IndexOf([A, b, b, A], b) == 1;
  }
}
