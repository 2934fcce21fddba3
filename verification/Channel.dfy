// Channel: the history of one chat channel (src/common/Channel.cpp).

module Channels {
  import opened Options
  import opened Messages
  import opened Sequences
  import opened LimitedQueues
  import F = FillOrder
  import R = FillRuns
  import G = MergeOrder
  import opened LimitHistory

  class Channel {
    const messages: LimitedQueue<Message>
    const defaultMessageLimit: nat
    var messageLimitRaised: bool
    // The arguments of the calls of messageRemovedFromStart so far.
    var removedFromStart: seq<Message>
    var signals: seq<Signal>

    ghost predicate Valid()
      reads this, messages
    {
      messages.Valid() && State().Valid()
    }

    function State(): History
      reads this, messages
    {
      History(messages.limit, defaultMessageLimit, messageLimitRaised, messages.Contents(), removedFromStart)
    }

    constructor (scrollbackSplitLimit: nat)
      requires scrollbackSplitLimit >= 1
      ensures Valid() && fresh(messages)
      ensures State() == History(scrollbackSplitLimit, scrollbackSplitLimit, false, [], []) && signals == []
    {
      messages := new LimitedQueue(scrollbackSplitLimit);
      defaultMessageLimit := scrollbackSplitLimit;
      messageLimitRaised := false;
      removedFromStart, signals := [], [];
    }

    method AddMessage(message: Message)
      requires Valid()
      modifies this, messages
      ensures Valid() && State() == Do(old(State()), Add(message))
      ensures signals == old(signals) + Emitted(old(State()), Add(message))
    {
      if messageLimitRaised && |messages.Contents()| >= messages.limit {
        GrowMessageLimit(1);
      }
      ghost var before := messages.Contents();
      var deleted := messages.PushBack(message);
      if deleted.Some? {
        assert messages.Contents() == ([deleted.value] + messages.Contents())[1..] == before[1..] + [message];
        assert deleted.value == (before + [message])[0];
        removedFromStart := removedFromStart + [deleted.value];
      }
      signals := signals + [MessageAppended(message)];
    }

    method GrowMessageLimit(slots: nat)
      requires Valid()
      modifies this, messages
      ensures Valid() && State() == Do(old(State()), Grow(slots))
      ensures signals == old(signals) + Emitted(old(State()), Grow(slots))
    {
      if slots == 0 {
        return;
      }
      var _ := messages.SetLimit(messages.limit + slots);
      messageLimitRaised := true;
      signals := signals + [LimitGrown(slots)];
    }

    method ResetMessageLimit()
      requires Valid()
      modifies this, messages
      ensures Valid() && State() == Do(old(State()), Reset)
      ensures signals == old(signals) + Emitted(old(State()), Reset)
    {
      if !messageLimitRaised {
        return;
      }
      messageLimitRaised := false;
      var removed := messages.SetLimit(defaultMessageLimit);
      assert removed == old(messages.Contents())[..|removed|];
      var i := 0;
      while i < |removed|
        modifies `removedFromStart
        invariant i <= |removed|
        invariant removedFromStart == old(removedFromStart) + removed[..i]
      {
        removedFromStart := removedFromStart + [removed[i]];
        i := i + 1;
      }
      assert removed[..i] == removed;
      signals := signals + [LimitReset];
    }

    method AddMessagesAtStart(ms: seq<Message>)
      requires Valid()
      modifies this, messages
      ensures Valid() && State() == Do(old(State()), AddAtStart(ms))
      ensures signals == old(signals) + Emitted(old(State()), AddAtStart(ms))
    {
      var added := messages.PushFront(ms);
      if added != [] {
        signals := signals + [AddedAtStart(added)];
      }
    }

    method FillInMissingMessages(batch: seq<Message>)
      requires Valid()
      modifies this, messages
      ensures Valid() && State() == old(State()).(items := messages.Contents())
      ensures messages.Contents() == R.FillRun(old(messages.Contents()), batch, messages.limit)
      ensures Distinct(old(messages.Contents()) + batch) ==>
                messages.Contents() == LastN(F.Filled(old(messages.Contents()), batch), messages.limit)
      ensures signals == old(signals) + if F.Fresh(old(messages.Contents()), batch) == [] then [] else [FilledIn(batch)]
    {
      if Distinct(messages.Contents() + batch) {
        R.DistinctIsRight(messages.Contents(), batch, messages.limit);
      }
      var filled := FillIn(batch);
      if filled {
        signals := signals + [FilledIn(batch)];
      }
    }

    // The pass itself. Returns whether it is to be signalled.
    method FillIn(batch: seq<Message>) returns (filled: bool)
      requires messages.Valid() && messages.limit >= 1
      modifies messages
      ensures messages.Valid() && messages.limit == old(messages.limit)
      ensures filled <==> F.Fresh(old(messages.Contents()), batch) != []
      ensures messages.Contents() == R.FillRun(old(messages.Contents()), batch, messages.limit)
    {
      var snapshot := messages.Contents();
      F.FilledFromNothing(batch);
      if batch == [] {
        return false;
      }
      if snapshot == [] {
        var _ := messages.PushFront(batch);
        NothingBehind(LastN(batch, messages.limit));
        return true;
      }
      filled := FillInLoop(snapshot, batch);
    }

    method FillInLoop(snapshot: seq<Message>, batch: seq<Message>) returns (anyInserted: bool)
      requires messages.Valid() && messages.Contents() == snapshot != []
      modifies messages
      ensures messages.Valid() && messages.limit == old(messages.limit)
      ensures anyInserted <==> F.Fresh(snapshot, batch) != []
      ensures messages.Contents() == R.Steps(snapshot, F.Fresh(snapshot, batch), messages.limit).contents
    {
      var existingIds := set s | s in snapshot && !s.system && s.id != "" :: s.id;
      anyInserted := false;
      var lastMsg := snapshot[|snapshot| - 1];
      assert batch[..0] == [];
      var k := 0;
      while k < |batch|
        invariant k <= |batch|
        invariant messages.Valid() && messages.limit == old(messages.limit)
        invariant anyInserted <==> F.Fresh(snapshot, batch[..k]) != []
        invariant R.Filling(messages.Contents(), lastMsg) ==
                  R.Steps(snapshot, F.Fresh(snapshot, batch[..k]), messages.limit)
      {
        R.FreshNext(snapshot, batch, k);
        assert batch[k].id in existingIds <==> F.Known(snapshot, batch[k]);
        if batch[k].id !in existingIds {
          anyInserted := true;
          R.StepsAppend(snapshot, F.Fresh(snapshot, batch[..k]), batch[k], messages.limit);
          lastMsg := InsertInOrder(snapshot, batch[k], lastMsg);
        }
        k := k + 1;
      }
      assert batch[..k] == batch;
    }

    // The body of the fill-in loop for a message that is not known yet.
    method InsertInOrder(snapshot: seq<Message>, msg: Message, lastMsg: Message) returns (newLast: Message)
      requires messages.Valid()
      modifies messages
      ensures messages.Valid() && messages.limit == old(messages.limit)
      ensures R.Filling(messages.Contents(), newLast) ==
              R.Placed(snapshot, R.Filling(old(messages.Contents()), lastMsg), msg, messages.limit)
    {
      var i := FirstLater(snapshot, msg.time);
      if i < |snapshot| {
        var _ := messages.InsertBefore(snapshot[i], msg);
        newLast := lastMsg;
      } else {
        var _ := messages.InsertAfter(lastMsg, msg);
        newLast := msg;
      }
    }

    // The inner loop of the fill-in pass.
    static method FirstLater(snapshot: seq<Message>, t: int) returns (i: nat)
      ensures i == F.Anchor(snapshot, t)
    {
      i := 0;
      while i < |snapshot| && (snapshot[i].system || t >= snapshot[i].time)
        invariant i <= |snapshot|
        invariant forall j :: 0 <= j < i ==> snapshot[j].system || t >= snapshot[j].time
      {
        i := i + 1;
      }
    }

    // Replaces a message that is probably at the hinted index, and returns where
    // it was found. The signal carries the hint, so the two agree exactly when
    // the hint was right.
    method ReplaceMessageHinted(hint: nat, message: Message, replacement: Message) returns (index: int)
      requires Valid()
      modifies this, messages
      ensures Valid()
      ensures index != -1 <==> message in old(messages.Contents())
      ensures signals == old(signals) + if index == -1 then [] else [MessageReplaced(hint, message, replacement)]
      ensures index != -1 ==>
                && 0 <= index < |old(messages.Contents())|
                && old(messages.Contents())[index] == message
                && State() == old(State()).(items := old(messages.Contents())[index := replacement])
                && (hint == index <==>
                     hint < |old(messages.Contents())| && old(messages.Contents())[hint] == message)
      ensures index == -1 ==> State() == old(State())
    {
      index := messages.ReplaceItemHinted(hint, message, replacement);
      if index >= 0 {
        signals := signals + [MessageReplaced(hint, message, replacement)];
      }
    }

    // Takes messages off the ends of the given histories, in place, until the
    // buffer is full.  places records where each kept message came from.
    method MergeFrom(sources: array<seq<Message>>) returns (ghost places: seq<G.Place>)
      requires Valid() && messages.Contents() == []
      modifies messages, sources
      ensures Valid() && messages.limit == old(messages.limit)
      ensures G.Merging(old(sources[..]), sources[..], places, messages.Contents())
      ensures var total := G.Total(old(sources[..]));
              |messages.Contents()| == if total < messages.limit then total else messages.limit
    {
      places := [];
      ghost var all := sources[..];
      while !messages.buffer.Full()
        invariant messages.Valid() && messages.limit == old(messages.limit)
        invariant |sources[..]| == |all|
        invariant G.Merging(all, sources[..], places, messages.Contents())
        invariant |messages.Contents()| + G.Total(sources[..]) == G.Total(all)
        decreases messages.limit - |messages.Contents()|
      {
        var cur := NewestBack(sources);
        if cur.None? {
          G.TotalEmpty(sources[..]);
          break;
        }
        places := TakeLast(sources, cur.value, all, places);
      }
    }

    // Moves the last message of a source to the front of the buffer.
    method TakeLast(sources: array<seq<Message>>, i: nat, ghost all: seq<seq<Message>>, ghost places: seq<G.Place>)
      returns (ghost more: seq<G.Place>)
      requires messages.Valid() && !messages.buffer.Full()
      requires i < sources.Length && sources[i] != [] && G.IsNewestBack(sources[..], i)
      requires G.Merging(all, sources[..], places, messages.Contents())
      modifies messages, sources
      ensures messages.Valid() && messages.limit == old(messages.limit)
      ensures G.Merging(all, sources[..], more, messages.Contents())
      ensures |messages.Contents()| == old(|messages.Contents()|) + 1
      ensures G.Total(sources[..]) == old(G.Total(sources[..])) - 1
    {
      var n := |sources[i]| - 1;
      var item := sources[i][n];
      G.OneMore(all, sources[..], places, messages.Contents(), i);
      G.TotalDropLast(sources[..], i);
      ghost var left := G.DropLast(sources[..], i);
      sources[i] := sources[i][..n];
      assert sources[..] == left;
      messages.PushFrontItem(item);
      more := [G.Place(i, n)] + places;
    }

    // The first of the sources whose last message is newest.
    static method NewestBack(sources: array<seq<Message>>) returns (cur: Option<nat>)
      ensures cur.None? ==> forall i :: 0 <= i < sources.Length ==> sources[i] == []
      ensures cur.Some? ==>
                cur.value < sources.Length && sources[cur.value] != [] && G.IsNewestBack(sources[..], cur.value)
    {
      cur := None;
      var dt := 0;
      var i := 0;
      while i < sources.Length
        invariant i <= sources.Length
        invariant cur.None? ==> forall j :: 0 <= j < i ==> sources[j] == []
        invariant cur.Some? ==>
                    && cur.value < i && sources[cur.value] != []
                    && dt == sources[cur.value][|sources[cur.value]| - 1].time
                    && G.IsNewestBack(sources[..i], cur.value)
      {
        var src := sources[i];
        assert sources[..i + 1] == sources[..i] + [src];
        if src != [] {
          var t := src[|src| - 1].time;
          if cur.None? || t > dt {
            cur, dt := Some(i), t;
          }
        }
        i := i + 1;
      }
      assert sources[..i] == sources[..];
    }
  }
}
