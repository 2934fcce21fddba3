// The order in which missing messages are filled into a channel's history
// (src/common/Channel.cpp).

module Messages {
  // A message pointer.  Pointers are compared by identity in the source; here
  // ptr keeps two allocations with the same fields apart.
  datatype Message = Message(ptr: nat, id: string, time: int, system: bool)

  ghost predicate Ascending(s: seq<Message>) {
    forall i, j :: 0 <= i < j < |s| ==> s[i].time <= s[j].time
  }
}

module FillOrder {
  import opened Messages
  import opened Sequences

  // The first non-system message received after time t, or the end.
  function Anchor(snapshot: seq<Message>, t: int): (a: nat)
    ensures a <= |snapshot|
    ensures a < |snapshot| ==> !snapshot[a].system && t < snapshot[a].time
    ensures forall i :: 0 <= i < a ==> snapshot[i].system || snapshot[i].time <= t
  {
    if snapshot == [] then 0
    else if !snapshot[0].system && t < snapshot[0].time then 0
    else 1 + Anchor(snapshot[1..], t)
  }

  predicate Known(snapshot: seq<Message>, m: Message) {
    exists s :: s in snapshot && !s.system && s.id != "" && s.id == m.id
  }

  // The messages of a batch that are not in the history yet.
  function Fresh(snapshot: seq<Message>, batch: seq<Message>): seq<Message> {
    Select(batch, m => !Known(snapshot, m))
  }

  // The missing messages that go directly in front of snapshot[i], or to the end.
  function Group(snapshot: seq<Message>, missing: seq<Message>, i: nat): seq<Message> {
    Select(missing, (m: Message) => Anchor(snapshot, m.time) == i)
  }

  // The whole history after filling in, from snapshot[i] on: every old message
  // preceded by its group.
  function Weave(snapshot: seq<Message>, missing: seq<Message>, i: nat): seq<Message>
    requires i <= |snapshot|
    decreases |snapshot| - i
  {
    Group(snapshot, missing, i) +
    if i == |snapshot| then [] else [snapshot[i]] + Weave(snapshot, missing, i + 1)
  }

  function Filled(snapshot: seq<Message>, batch: seq<Message>): seq<Message> {
    Weave(snapshot, Fresh(snapshot, batch), 0)
  }

  // Where snapshot[a] (or the end) is in Weave(snapshot, missing, i).
  function Position(snapshot: seq<Message>, missing: seq<Message>, i: nat, a: nat): nat
    requires i <= a <= |snapshot|
    decreases a - i
  {
    |Group(snapshot, missing, i)| + if i == a then 0 else 1 + Position(snapshot, missing, i + 1, a)
  }

  lemma GroupAppend(snapshot: seq<Message>, missing: seq<Message>, m: Message, i: nat)
    ensures Group(snapshot, missing + [m], i) ==
            Group(snapshot, missing, i) + (if Anchor(snapshot, m.time) == i then [m] else [])
  {
    SelectAppend(missing, [m], (m: Message) => Anchor(snapshot, m.time) == i);
  }

  lemma FreshAppend(snapshot: seq<Message>, batch: seq<Message>, m: Message)
    ensures Fresh(snapshot, batch + [m]) ==
            Fresh(snapshot, batch) + (if Known(snapshot, m) then [] else [m])
  {
    SelectAppend(batch, [m], m => !Known(snapshot, m));
  }

  lemma FreshMember(snapshot: seq<Message>, batch: seq<Message>, m: Message)
    ensures m in Fresh(snapshot, batch) <==> m in batch && !Known(snapshot, m)
  {
    SelectMember(batch, m => !Known(snapshot, m), m);
  }

  lemma {:induction false} WeaveAppendBehind(snapshot: seq<Message>, missing: seq<Message>, m: Message, i: nat)
    requires Anchor(snapshot, m.time) < i <= |snapshot|
    ensures Weave(snapshot, missing + [m], i) == Weave(snapshot, missing, i)
    decreases |snapshot| - i
  {
    GroupAppend(snapshot, missing, m, i);
    if i < |snapshot| {
      WeaveAppendBehind(snapshot, missing, m, i + 1);
    }
  }

  lemma WeaveAppendHere(snapshot: seq<Message>, missing: seq<Message>, m: Message, i: nat)
    requires Anchor(snapshot, m.time) == i
    ensures |Group(snapshot, missing, i)| <= |Weave(snapshot, missing, i)|
    ensures Weave(snapshot, missing + [m], i) ==
            Insert(Weave(snapshot, missing, i), |Group(snapshot, missing, i)|, m)
  {
    GroupAppend(snapshot, missing, m, i);
    var g := Group(snapshot, missing, i);
    var rest := if i == |snapshot| then [] else [snapshot[i]] + Weave(snapshot, missing, i + 1);
    if i < |snapshot| {
      WeaveAppendBehind(snapshot, missing, m, i + 1);
    }
    assert Insert(g + rest, |g|, m) == g + [m] + rest;
  }

  // snapshot[i] with the group in front of it.
  function Block(snapshot: seq<Message>, missing: seq<Message>, i: nat): seq<Message>
    requires i < |snapshot|
  {
    Group(snapshot, missing, i) + [snapshot[i]]
  }

  lemma WeaveUnfold(snapshot: seq<Message>, missing: seq<Message>, i: nat)
    requires i < |snapshot|
    ensures Weave(snapshot, missing, i) == Block(snapshot, missing, i) + Weave(snapshot, missing, i + 1)
  {
  }

  lemma {:induction false} PositionOfAnchor(snapshot: seq<Message>, missing: seq<Message>, i: nat, a: nat)
    requires i <= a <= |snapshot|
    ensures var w, p := Weave(snapshot, missing, i), Position(snapshot, missing, i, a);
            && p <= |w|
            && (if a == |snapshot| then p == |w| else p < |w| && w[p] == snapshot[a])
    decreases a - i
  {
    if i < a {
      PositionOfAnchor(snapshot, missing, i + 1, a);
      WeaveUnfold(snapshot, missing, i);
    }
  }

  // One more missing message is one insertion, at its anchor.
  lemma {:induction false} WeaveAppend(snapshot: seq<Message>, missing: seq<Message>, m: Message, i: nat)
    requires i <= Anchor(snapshot, m.time)
    ensures var w, p := Weave(snapshot, missing, i), Position(snapshot, missing, i, Anchor(snapshot, m.time));
            p <= |w| && Weave(snapshot, missing + [m], i) == Insert(w, p, m)
    decreases |snapshot| - i
  {
    var a := Anchor(snapshot, m.time);
    if i == a {
      WeaveAppendHere(snapshot, missing, m, i);
    } else {
      var block, rest := Block(snapshot, missing, i), Weave(snapshot, missing, i + 1);
      var p := Position(snapshot, missing, i + 1, a);
      WeaveAppend(snapshot, missing, m, i + 1);
      WeaveUnfold(snapshot, missing, i);
      calc {
        Weave(snapshot, missing + [m], i);
        { WeaveUnfold(snapshot, missing + [m], i); BlockAppend(snapshot, missing, m, i); }
        block + Insert(rest, p, m);
        { InsertBehind(block, rest, p, m, Position(snapshot, missing, i, a)); }
        Insert(block + rest, Position(snapshot, missing, i, a), m);
      }
    }
  }

  lemma BlockAppend(snapshot: seq<Message>, missing: seq<Message>, m: Message, i: nat)
    requires i < |snapshot| && i != Anchor(snapshot, m.time)
    ensures Block(snapshot, missing + [m], i) == Block(snapshot, missing, i)
  {
    GroupAppend(snapshot, missing, m, i);
  }

  lemma {:induction false} WeaveNothing(snapshot: seq<Message>, i: nat)
    requires i <= |snapshot|
    ensures Weave(snapshot, [], i) == snapshot[i..]
    decreases |snapshot| - i
  {
    if i < |snapshot| {
      WeaveNothing(snapshot, i + 1);
    }
  }

  // With no history the batch is the history.
  lemma FilledFromNothing(batch: seq<Message>)
    ensures Fresh([], batch) == batch
    ensures Filled([], batch) == batch
  {
    SelectAll(batch, m => !Known([], m));
    SelectAll(batch, (m: Message) => Anchor([], m.time) == 0);
  }

  lemma GroupMember(snapshot: seq<Message>, missing: seq<Message>, i: nat)
    ensures forall x :: x in Group(snapshot, missing, i) <==> x in missing && Anchor(snapshot, x.time) == i
  {
    forall x ensures x in Group(snapshot, missing, i) <==> x in missing && Anchor(snapshot, x.time) == i {
      SelectMember(missing, (m: Message) => Anchor(snapshot, m.time) == i, x);
    }
  }

  // What is in front of an anchor ...
  lemma {:induction false} InFront(snapshot: seq<Message>, missing: seq<Message>, i: nat, a: nat, k: nat)
    requires i <= a <= |snapshot| && k < Position(snapshot, missing, i, a)
    ensures k < |Weave(snapshot, missing, i)|
    ensures var x := Weave(snapshot, missing, i)[k]; x in snapshot[i..a] || x in missing
    decreases a - i
  {
    GroupMember(snapshot, missing, i);
    PositionOfAnchor(snapshot, missing, i, a);
    if i < a {
      WeaveUnfold(snapshot, missing, i);
      var h := |Block(snapshot, missing, i)|;
      assert snapshot[i..a] == [snapshot[i]] + snapshot[i + 1..a];
      if k >= h {
        InFront(snapshot, missing, i + 1, a, k - h);
      }
    }
  }

  lemma {:induction false} WeaveTail(snapshot: seq<Message>, missing: seq<Message>, i: nat)
    requires i <= |snapshot|
    ensures forall x :: x in Weave(snapshot, missing, i) ==>
              x in snapshot[i..] || (x in missing && Anchor(snapshot, x.time) >= i)
    decreases |snapshot| - i
  {
    GroupMember(snapshot, missing, i);
    if i < |snapshot| {
      WeaveTail(snapshot, missing, i + 1);
    }
  }

  lemma WeaveMembers(snapshot: seq<Message>, missing: seq<Message>)
    ensures forall x :: x in Weave(snapshot, missing, 0) ==> x in snapshot || x in missing
  {
    WeaveTail(snapshot, missing, 0);
  }

  // ... and what is behind it.
  lemma {:induction false} Behind(snapshot: seq<Message>, missing: seq<Message>, i: nat, a: nat, k: nat)
    requires i <= a <= |snapshot| && Position(snapshot, missing, i, a) <= k < |Weave(snapshot, missing, i)|
    ensures var x := Weave(snapshot, missing, i)[k];
            x in snapshot[a..] || (x in missing && Anchor(snapshot, x.time) > a)
    decreases |snapshot| - i
  {
    if i < |snapshot| {
      var h := |Block(snapshot, missing, i)|;
      WeaveUnfold(snapshot, missing, i);
      if i < a {
        Behind(snapshot, missing, i + 1, a, k - h);
      } else {
        BehindHere(snapshot, missing, a, k);
      }
    }
  }

  lemma BehindHere(snapshot: seq<Message>, missing: seq<Message>, a: nat, k: nat)
    requires a < |snapshot| && Position(snapshot, missing, a, a) <= k < |Weave(snapshot, missing, a)|
    ensures var x := Weave(snapshot, missing, a)[k];
            x in snapshot[a..] || (x in missing && Anchor(snapshot, x.time) > a)
  {
    var block, rest := Block(snapshot, missing, a), Weave(snapshot, missing, a + 1);
    WeaveUnfold(snapshot, missing, a);
    assert forall x :: x in snapshot[a + 1..] ==> x in snapshot[a..];
    if k >= |block| {
      WeaveTail(snapshot, missing, a + 1);
      assert (block + rest)[k] == rest[k - |block|];
    }
  }

  // Ascending apart from system messages of the old history.
  ghost predicate AscendingUpToSystem(s: seq<Message>, missing: seq<Message>) {
    forall i, j :: 0 <= i < j < |s| && Counts(s[i], missing) && Counts(s[j], missing) ==> s[i].time <= s[j].time
  }

  predicate Counts(m: Message, missing: seq<Message>) {
    !m.system || m in missing
  }

  // One pass of the fill-in loop: where the next message goes and that it
  // lands behind everything filled in before it.
  lemma InsertionPoint(snapshot: seq<Message>, missing: seq<Message>, m: Message)
    requires AscendingUpToSystem(snapshot, []) && Ascending(missing + [m])
    ensures var w, p := Weave(snapshot, missing, 0), Position(snapshot, missing, 0, Anchor(snapshot, m.time));
            && p <= |w| && Weave(snapshot, missing + [m], 0) == Insert(w, p, m)
            && (forall k :: 0 <= k < p && Counts(w[k], missing) ==> w[k].time <= m.time)
            && (forall k :: p <= k < |w| ==> w[k] in snapshot && (!w[k].system ==> m.time <= w[k].time))
  {
    WeaveAppend(snapshot, missing, m, 0);
    FrontIsOlder(snapshot, missing, m);
    BackIsNewer(snapshot, missing, m);
  }

  lemma EarlierInBatch(snapshot: seq<Message>, missing: seq<Message>, m: Message, x: Message)
    requires Ascending(missing + [m]) && x in missing
    ensures x.time <= m.time && Anchor(snapshot, x.time) <= Anchor(snapshot, m.time)
  {
    var i :| 0 <= i < |missing| && missing[i] == x;
    assert (missing + [m])[i] == x && (missing + [m])[|missing|] == m;
  }

  lemma FrontIsOlder(snapshot: seq<Message>, missing: seq<Message>, m: Message)
    requires AscendingUpToSystem(snapshot, []) && Ascending(missing + [m])
    requires Position(snapshot, missing, 0, Anchor(snapshot, m.time)) <= |Weave(snapshot, missing, 0)|
    ensures var w, p := Weave(snapshot, missing, 0), Position(snapshot, missing, 0, Anchor(snapshot, m.time));
            forall k :: 0 <= k < p && Counts(w[k], missing) ==> w[k].time <= m.time
  {
    var a := Anchor(snapshot, m.time);
    var w, p := Weave(snapshot, missing, 0), Position(snapshot, missing, 0, a);
    forall k | 0 <= k < p && Counts(w[k], missing) ensures w[k].time <= m.time {
      InFront(snapshot, missing, 0, a, k);
      if w[k] in missing {
        EarlierInBatch(snapshot, missing, m, w[k]);
      }
    }
  }

  lemma BackIsNewer(snapshot: seq<Message>, missing: seq<Message>, m: Message)
    requires AscendingUpToSystem(snapshot, []) && Ascending(missing + [m])
    ensures var w, p := Weave(snapshot, missing, 0), Position(snapshot, missing, 0, Anchor(snapshot, m.time));
            forall k :: p <= k < |w| ==> w[k] in snapshot && (!w[k].system ==> m.time <= w[k].time)
  {
    var a := Anchor(snapshot, m.time);
    var w, p := Weave(snapshot, missing, 0), Position(snapshot, missing, 0, a);
    forall k | p <= k < |w| ensures w[k] in snapshot && (!w[k].system ==> m.time <= w[k].time) {
      Behind(snapshot, missing, 0, a, k);
      if w[k] in missing {
        EarlierInBatch(snapshot, missing, m, w[k]);
      }
      var j :| a <= j < |snapshot| && snapshot[j] == w[k];
      if !w[k].system && j > a {
        assert Counts(snapshot[a], []) && Counts(snapshot[j], []);
      }
    }
  }

  // Filling in loses nothing and repeats nothing ...
  lemma {:induction false} WeaveConserves(snapshot: seq<Message>, missing: seq<Message>)
    ensures multiset(Weave(snapshot, missing, 0)) == multiset(snapshot) + multiset(missing)
  {
    if missing == [] {
      WeaveNothing(snapshot, 0);
    } else {
      var n, m := missing[..|missing| - 1], missing[|missing| - 1];
      assert missing == n + [m];
      WeaveConserves(snapshot, n);
      WeaveAppend(snapshot, n, m, 0);
      InsertCounts(Weave(snapshot, n, 0), Position(snapshot, n, 0, Anchor(snapshot, m.time)), m);
    }
  }

  // ... and keeps the old order.
  lemma {:induction false} WeaveKeepsOrder(snapshot: seq<Message>, missing: seq<Message>)
    requires forall x :: x in missing ==> x !in snapshot
    ensures Select(Weave(snapshot, missing, 0), x => x in snapshot) == snapshot
  {
    if missing == [] {
      WeaveNothing(snapshot, 0);
      SelectAll(snapshot, x => x in snapshot);
    } else {
      var n, m := missing[..|missing| - 1], missing[|missing| - 1];
      assert missing == n + [m];
      WeaveKeepsOrder(snapshot, n);
      WeaveAppend(snapshot, n, m, 0);
      SelectInsert(Weave(snapshot, n, 0), Position(snapshot, n, 0, Anchor(snapshot, m.time)), m, x => x in snapshot);
    }
  }

  // The documented result: in order of the time received, with the batch in
  // its own order.
  lemma {:induction false} WeaveAscending(snapshot: seq<Message>, missing: seq<Message>)
    requires Distinct(snapshot + missing)
    requires AscendingUpToSystem(snapshot, []) && Ascending(missing)
    ensures AscendingUpToSystem(Weave(snapshot, missing, 0), missing)
    ensures Select(Weave(snapshot, missing, 0), x => x in missing) == missing
  {
    if missing == [] {
      WeaveNothing(snapshot, 0);
      SelectNone(snapshot, x => x in missing);
    } else {
      var n, m := missing[..|missing| - 1], missing[|missing| - 1];
      assert missing == n + [m];
      DistinctParts(snapshot, n, m);
      WeaveAscending(snapshot, n);
      InsertionPoint(snapshot, n, m);
      WeaveMembers(snapshot, n);
      AscendingInsert(Weave(snapshot, n, 0), n, Position(snapshot, n, 0, Anchor(snapshot, m.time)), m);
      BatchOrderInsert(snapshot, n, m);
    }
  }

  lemma DistinctParts(snapshot: seq<Message>, n: seq<Message>, m: Message)
    requires Distinct(snapshot + (n + [m]))
    ensures Distinct(snapshot + n) && m !in snapshot && m !in n
    ensures forall x :: x in n ==> x !in snapshot
  {
    var all := snapshot + (n + [m]);
    assert snapshot + n == all[..|all| - 1];
    assert all[|all| - 1] == m;
    forall i | 0 <= i < |snapshot + n| ensures (snapshot + n)[i] == all[i] && all[i] != m {}
    forall x | x in n ensures x !in snapshot {
      var i :| 0 <= i < |n| && n[i] == x;
      assert all[|snapshot| + i] == x;
      forall j | 0 <= j < |snapshot| ensures snapshot[j] != x { assert all[j] == snapshot[j]; }
    }
    forall j | 0 <= j < |snapshot| ensures snapshot[j] != m { assert all[j] == snapshot[j]; }
    forall j | 0 <= j < |n| ensures n[j] != m { assert all[|snapshot| + j] == n[j]; }
  }

  lemma AscendingInsert(w: seq<Message>, n: seq<Message>, p: nat, m: Message)
    requires p <= |w| && m !in w && AscendingUpToSystem(w, n)
    requires forall k :: 0 <= k < p && Counts(w[k], n) ==> w[k].time <= m.time
    requires forall k :: p <= k < |w| && Counts(w[k], n) ==> m.time <= w[k].time
    ensures AscendingUpToSystem(Insert(w, p, m), n + [m])
  {
    var r := Insert(w, p, m);
    forall i, j | 0 <= i < j < |r| && Counts(r[i], n + [m]) && Counts(r[j], n + [m])
      ensures r[i].time <= r[j].time
    {
      var i', j' := if i < p then i else i - 1, if j < p then j else j - 1;
      if i != p { assert r[i] == w[i'] && Counts(w[i'], n); }
      if j != p { assert r[j] == w[j'] && Counts(w[j'], n); }
    }
  }

  lemma BatchOrderInsert(snapshot: seq<Message>, n: seq<Message>, m: Message)
    requires Distinct(snapshot + (n + [m]))
    requires AscendingUpToSystem(snapshot, []) && Ascending(n + [m])
    requires Select(Weave(snapshot, n, 0), x => x in n) == n
    ensures Select(Weave(snapshot, n + [m], 0), x => x in n + [m]) == n + [m]
  {
    DistinctParts(snapshot, n, m);
    InsertionPoint(snapshot, n, m);
    WeaveMembers(snapshot, n);
    var w, p := Weave(snapshot, n, 0), Position(snapshot, n, 0, Anchor(snapshot, m.time));
    forall x | x in w[p..] ensures x !in n && x !in n + [m] {}
    SelectInsertLast(w, p, m, x => x in n, x => x in n + [m]);
  }

  lemma {:induction false} SelectAscending(s: seq<Message>, p: Message -> bool)
    requires Ascending(s)
    ensures Ascending(Select(s, p))
  {
    if s != [] {
      SelectAscending(s[1..], p);
      forall x | x in Select(s[1..], p) ensures s[0].time <= x.time {
        SelectMember(s[1..], p, x);
      }
    }
  }

  // The main result about filling in, for histories and batches of any size.
  lemma FillInResult(snapshot: seq<Message>, batch: seq<Message>)
    requires Distinct(snapshot + batch)
    ensures Select(Filled(snapshot, batch), x => x in snapshot) == snapshot
    ensures forall m :: m in batch ==>
              multiset(Filled(snapshot, batch))[m] == if Known(snapshot, m) then 0 else 1
    ensures |Filled(snapshot, batch)| == |snapshot| + |Fresh(snapshot, batch)|
    ensures AscendingUpToSystem(snapshot, []) && Ascending(batch) ==>
              && AscendingUpToSystem(Filled(snapshot, batch), Fresh(snapshot, batch))
              && Select(Filled(snapshot, batch), x => x in Fresh(snapshot, batch)) == Fresh(snapshot, batch)
  {
    var missing := Fresh(snapshot, batch);
    SelectDistinct(snapshot, batch, m => !Known(snapshot, m));
    forall m ensures m in missing <==> m in batch && !Known(snapshot, m) {
      FreshMember(snapshot, batch, m);
    }
    forall m | m in batch ensures m !in snapshot {
      var i :| 0 <= i < |batch| && batch[i] == m;
      assert (snapshot + batch)[|snapshot| + i] == m;
      forall j | 0 <= j < |snapshot| ensures snapshot[j] != m { assert (snapshot + batch)[j] == snapshot[j]; }
    }
    WeaveConserves(snapshot, missing);
    assert |multiset(Filled(snapshot, batch))| == |multiset(snapshot)| + |multiset(missing)|;
    WeaveKeepsOrder(snapshot, missing);
    forall m | m in missing ensures multiset(missing)[m] == 1 {
      CountOnce(snapshot, missing, m);
    }
    if AscendingUpToSystem(snapshot, []) && Ascending(batch) {
      SelectAscending(batch, m => !Known(snapshot, m));
      WeaveAscending(snapshot, missing);
    }
  }

  lemma CountOnce(h: seq<Message>, s: seq<Message>, m: Message)
    requires Distinct(h + s) && m in s
    ensures multiset(s)[m] == 1
  {
    var i :| 0 <= i < |s| && s[i] == m;
    assert s == s[..i] + [m] + s[i + 1..];
    forall j | 0 <= j < |s| && j != i ensures s[j] != m {
      assert (h + s)[|h| + j] == s[j] && (h + s)[|h| + i] == s[i];
    }
  }
}
