// Which messages of a batch are filled in: those whose id is not there yet
// (src/common/Channel.cpp).

module FillOnce {
  import opened Messages
  import opened Sequences
  import opened LimitedQueues
  import opened FillOrder
  import opened FillRuns

  ghost predicate HasOneMore(c: seq<Message>, r: seq<Message>, m: Message) {
    |r| == |c| + 1 && multiset(r) == multiset(c) + multiset{m}
  }

  lemma InsertWithRoom(c: seq<Message>, k: nat, m: Message, limit: nat)
    requires k <= |c| < limit
    ensures HasOneMore(c, LastN(Insert(c, k, m), limit), m)
  {
    InsertCounts(c, k, m);
  }

  lemma BeforeWithRoom(c: seq<Message>, x: Message, m: Message, limit: nat)
    requires |c| < limit && x in c
    ensures HasOneMore(c, InsertedBefore(c, limit, x, m), m)
  {
    InsertWithRoom(c, IndexOf(c, x), m, limit);
  }

  lemma AfterWithRoom(c: seq<Message>, x: Message, m: Message, limit: nat)
    requires |c| < limit && x in c
    ensures HasOneMore(c, InsertedAfter(c, limit, x, m), m)
  {
    InsertWithRoom(c, IndexOf(c, x) + 1, m, limit);
  }

  lemma StillThere(c: seq<Message>, r: seq<Message>, m: Message)
    requires HasOneMore(c, r, m)
    ensures forall x :: x in c || x == m ==> x in r
  {
    forall x | x in c || x == m ensures x in r {
      assert x in multiset(c) + multiset{m};
      assert x in multiset(r);
    }
  }

  lemma PlacedWithRoom(snapshot: seq<Message>, f: Filling, m: Message, limit: nat)
    requires |f.contents| < limit && f.last in f.contents
    requires forall x :: x in snapshot ==> x in f.contents
    ensures var r := Placed(snapshot, f, m, limit);
            HasOneMore(f.contents, r.contents, m) && r.last in r.contents
  {
    var a := Anchor(snapshot, m.time);
    if a < |snapshot| {
      BeforeWithRoom(f.contents, snapshot[a], m, limit);
    } else {
      AfterWithRoom(f.contents, f.last, m, limit);
    }
    StillThere(f.contents, Placed(snapshot, f, m, limit).contents, m);
  }

  // With room for all, every missing message is there, and nothing goes.
  lemma {:induction false} StepsWithRoom(snapshot: seq<Message>, missing: seq<Message>, limit: nat)
    requires snapshot != [] && |snapshot| + |missing| <= limit
    ensures var r := Steps(snapshot, missing, limit);
      && |r.contents| == |snapshot| + |missing|
      && multiset(r.contents) == multiset(snapshot) + multiset(missing)
      && r.last in r.contents
  {
    if missing != [] {
      var n, m := missing[..|missing| - 1], missing[|missing| - 1];
      SplitLast(missing);
      StepsWithRoom(snapshot, n, limit);
      var f := Steps(snapshot, n, limit);
      assert forall x :: x in snapshot ==> x in multiset(f.contents);
      PlacedWithRoom(snapshot, f, m, limit);
    }
  }

  lemma {:induction false} FreshCounts(snapshot: seq<Message>, batch: seq<Message>, m: Message)
    ensures multiset(Fresh(snapshot, batch))[m] == if Known(snapshot, m) then 0 else multiset(batch)[m]
    ensures |Fresh(snapshot, batch)| <= |batch|
  {
    if batch == [] {
      assert Fresh(snapshot, batch) == [];
    } else {
      var n, x := batch[..|batch| - 1], batch[|batch| - 1];
      SplitLast(batch);
      FreshCounts(snapshot, n, m);
      FreshAppend(snapshot, n, x);
      NothingBehind(Fresh(snapshot, n));
    }
  }

  // How often a message is there afterwards: as often as before, and as often
  // as it is in the batch unless an old message that is no system message has
  // its id.
  lemma FilledInOnce(snapshot: seq<Message>, batch: seq<Message>, limit: nat, m: Message)
    requires |snapshot| + |batch| <= limit
    ensures multiset(FillRun(snapshot, batch, limit))[m] == multiset(snapshot)[m] +
            if exists s :: s in snapshot && !s.system && s.id != "" && s.id == m.id then 0
            else multiset(batch)[m]
  {
    FreshCounts(snapshot, batch, m);
    if snapshot != [] {
      StepsWithRoom(snapshot, Fresh(snapshot, batch), limit);
    }
  }

  // Filling in the same messages again changes nothing.
  lemma FilledInTwice(snapshot: seq<Message>, batch: seq<Message>, limit: nat)
    requires |snapshot| + |batch| <= limit
    requires forall m :: m in batch ==> !m.system && m.id != ""
    ensures FillRun(FillRun(snapshot, batch, limit), batch, limit) == FillRun(snapshot, batch, limit)
  {
    var c := FillRun(snapshot, batch, limit);
    forall m | m in batch ensures exists s :: s in c && !s.system && s.id != "" && s.id == m.id {
      StaysKnown(snapshot, batch, limit, m);
    }
    SelectNone(batch, m => !Known(c, m));
  }

  lemma StaysKnown(snapshot: seq<Message>, batch: seq<Message>, limit: nat, m: Message)
    requires |snapshot| + |batch| <= limit && m in batch && !m.system && m.id != ""
    ensures var c := FillRun(snapshot, batch, limit);
            exists s :: s in c && !s.system && s.id != "" && s.id == m.id
  {
    var c := FillRun(snapshot, batch, limit);
    if s :| s in snapshot && !s.system && s.id != "" && s.id == m.id {
      FilledInOnce(snapshot, batch, limit, s);
      assert s in multiset(c);
    } else {
      FilledInOnce(snapshot, batch, limit, m);
      assert m in multiset(c);
    }
  }

  // A message whose id is there already is not filled in again.
  lemma ReconnectChangesNothing(a: Message, b: Message, limit: nat)
    requires limit >= 2 && !a.system && a.id != "" && a.id == b.id
    ensures FillRun([a], [b], limit) == [a]
  {
    assert a in [a];
    SelectNone([b], m => !Known([a], m));
  }
}
