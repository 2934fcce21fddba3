// The bounded message buffer behind every channel
// (src/messages/LimitedQueue.hpp).

module CircularBuffers {
  import opened Sequences

  // boost::circular_buffer by its documented meaning: a full buffer makes room
  // by overwriting its oldest element, and an insertion in front of the oldest
  // element of a full buffer does nothing.
  datatype Ring<T> = Ring(capacity: nat, items: seq<T>) {
    predicate Valid() {
      |items| <= capacity
    }

    predicate Full() {
      |items| == capacity
    }

    function PushBack(x: T): Ring<T> {
      if !Full() then Ring(capacity, items + [x])
      else if capacity == 0 then this
      else Ring(capacity, items[1..] + [x])
    }

    function PushFront(x: T): Ring<T> {
      if !Full() then Ring(capacity, [x] + items)
      else if capacity == 0 then this
      else Ring(capacity, [x] + items[..|items| - 1])
    }

    function InsertAt(pos: nat, x: T): Ring<T>
      requires pos <= |items|
    {
      if !Full() then Ring(capacity, Insert(items, pos, x))
      else if pos == 0 then this
      else Ring(capacity, items[1..pos] + [x] + items[pos..])
    }
  }

  // All three cases of InsertAt are one: insert, then keep the newest.
  lemma InsertAtKeepsNewest<T>(r: Ring<T>, pos: nat, x: T)
    requires r.Valid() && pos <= |r.items|
    ensures r.InsertAt(pos, x) == Ring(r.capacity, LastN(Insert(r.items, pos, x), r.capacity))
  {
    if r.Full() && pos > 0 {
      assert Insert(r.items, pos, x)[1..] == r.items[1..pos] + [x] + r.items[pos..];
    }
  }
}

module LimitedQueues {
  import opened Options
  import opened Sequences
  import opened CircularBuffers

  // A queue of at most limit items after inserting item in front of needle
  // (or behind it), which may have been evicted.
  function InsertedBefore<T(==)>(s: seq<T>, limit: nat, needle: T, item: T): seq<T> {
    if needle in s then LastN(Insert(s, IndexOf(s, needle), item), limit) else s
  }

  function InsertedAfter<T(==)>(s: seq<T>, limit: nat, needle: T, item: T): seq<T> {
    if needle in s then LastN(Insert(s, IndexOf(s, needle) + 1, item), limit) else s
  }

  class LimitedQueue<T(==)> {
    var limit: nat
    var buffer: Ring<T>

    ghost predicate Valid()
      reads this
    {
      buffer.Valid() && buffer.capacity == limit
    }

    function Contents(): seq<T>
      reads this
    {
      buffer.items
    }

    constructor (limit: nat)
      ensures Valid() && Contents() == [] && this.limit == limit
    {
      this.limit := limit;
      buffer := Ring(limit, []);
    }

    // The oldest items go first and are reported oldest first.
    method SetLimit(newLimit: nat) returns (removed: seq<T>)
      requires Valid()
      modifies this
      ensures Valid() && limit == newLimit
      ensures Contents() == LastN(old(Contents()), newLimit)
      ensures removed + Contents() == old(Contents())
    {
      removed := [];
      while |buffer.items| > newLimit
        invariant Valid() && limit == old(limit)
        invariant removed + Contents() == old(Contents())
        invariant |Contents()| >= newLimit || Contents() == old(Contents())
      {
        removed := removed + [buffer.items[0]];
        buffer := buffer.(items := buffer.items[1..]);
      }
      buffer := Ring(newLimit, buffer.items);
      limit := newLimit;
    }

    // The item overwritten on a full buffer is handed out.  The source reads
    // front() of a full buffer, so a zero limit is outside its contract.
    method PushBack(item: T) returns (deleted: Option<T>)
      requires Valid() && limit > 0
      modifies this
      ensures Valid() && limit == old(limit)
      ensures deleted.Some? <==> |old(Contents())| == limit
      ensures deleted.None? ==> Contents() == old(Contents()) + [item]
      ensures deleted.Some? ==> [deleted.value] + Contents() == old(Contents()) + [item]
    {
      deleted := if buffer.Full() then Some(buffer.items[0]) else None;
      buffer := buffer.PushBack(item);
    }

    // One round of pushFrontWhile: the callback of its only caller is written
    // out there.
    method PushFrontItem(item: T)
      requires Valid() && !buffer.Full()
      modifies this
      ensures Valid() && limit == old(limit)
      ensures Contents() == [item] + old(Contents())
    {
      buffer := buffer.PushFront(item);
    }

    // Pushes the newest of the given items that fit; nothing is evicted.
    method PushFront(items: seq<T>) returns (pushed: seq<T>)
      requires Valid()
      modifies this
      ensures Valid() && limit == old(limit)
      ensures pushed == LastN(items, limit - |old(Contents())|)
      ensures Contents() == pushed + old(Contents())
    {
      var space := limit - |buffer.items|;
      var numToPush := if |items| < space then |items| else space;
      pushed := [];
      ghost var first, kept := |items| - numToPush, buffer.items;
      var f, b := |items| - numToPush, |items| - 1;
      while f < |items|
        invariant first <= f <= |items| && b == |items| - 1 - (f - first)
        invariant buffer == Ring(limit, items[b + 1..] + kept) && limit == old(limit)
        invariant pushed == items[first..f]
      {
        assert items[b..] == [items[b]] + items[b + 1..];
        assert items[first..f + 1] == items[first..f] + [items[f]];
        buffer := buffer.PushFront(items[b]);
        pushed := pushed + [items[f]];
        f, b := f + 1, b - 1;
      }
    }

    // Replaces the first occurrence of needle.
    method ReplaceItem(needle: T, replacement: T) returns (index: int)
      requires Valid()
      modifies this
      ensures Valid() && limit == old(limit)
      ensures needle !in old(Contents()) ==> index == -1 && Contents() == old(Contents())
      ensures needle in old(Contents()) ==>
                index == IndexOf(old(Contents()), needle) &&
                Contents() == old(Contents())[index := replacement]
    {
      var i := FindIndex(needle);
      if i == |buffer.items| {
        return -1;
      }
      buffer := buffer.(items := buffer.items[i := replacement]);
      return i;
    }

    // As above, but the hinted position wins when it holds the needle.
    method ReplaceItemHinted(hint: nat, needle: T, replacement: T) returns (index: int)
      requires Valid()
      modifies this
      ensures Valid() && limit == old(limit)
      ensures index == -1 <==> needle !in old(Contents())
      ensures index == -1 ==> Contents() == old(Contents())
      ensures index != -1 ==>
                0 <= index < |old(Contents())| && old(Contents())[index] == needle &&
                Contents() == old(Contents())[index := replacement]
      ensures index != -1 ==>
                (index == hint <==> hint < |old(Contents())| && old(Contents())[hint] == needle)
      ensures index != -1 && index != hint ==> index == IndexOf(old(Contents()), needle)
    {
      if hint < |buffer.items| && buffer.items[hint] == needle {
        buffer := buffer.(items := buffer.items[hint := replacement]);
        return hint;
      }
      index := ReplaceItem(needle, replacement);
    }

    // The search loop of insertBefore, insertAfter and replaceItem.
    method FindIndex(needle: T) returns (i: nat)
      ensures i == IndexOf(Contents(), needle)
    {
      i := 0;
      while i < |buffer.items| && buffer.items[i] != needle
        invariant i <= |buffer.items|
        invariant forall k :: 0 <= k < i ==> buffer.items[k] != needle
      {
        i := i + 1;
      }
    }

    method InsertBefore(needle: T, item: T) returns (inserted: bool)
      requires Valid()
      modifies this
      ensures Valid() && limit == old(limit)
      ensures inserted <==> needle in old(Contents())
      ensures Contents() == InsertedBefore(old(Contents()), limit, needle, item)
    {
      var i := FindIndex(needle);
      inserted := i < |buffer.items|;
      if inserted {
        InsertAtKeepsNewest(buffer, i, item);
        buffer := buffer.InsertAt(i, item);
      }
    }

    method InsertAfter(needle: T, item: T) returns (inserted: bool)
      requires Valid()
      modifies this
      ensures Valid() && limit == old(limit)
      ensures inserted <==> needle in old(Contents())
      ensures Contents() == InsertedAfter(old(Contents()), limit, needle, item)
    {
      var i := FindIndex(needle);
      inserted := i < |buffer.items|;
      if inserted {
        InsertAtKeepsNewest(buffer, i + 1, item);
        buffer := buffer.InsertAt(i + 1, item);
      }
    }

    method Clear()
      requires Valid()
      modifies this
      ensures Valid() && limit == old(limit) && Contents() == []
    {
      buffer := buffer.(items := []);
    }
  }
}
