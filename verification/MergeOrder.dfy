// The order in which the histories of several channels are merged
// (src/common/Channel.cpp).

module MergeOrder {
  import opened Messages
  import opened Sequences

  // A message of one of the merged histories, by its place.
  datatype Place = Place(source: nat, pos: nat)

  predicate InRange(sources: seq<seq<Message>>, p: Place) {
    p.source < |sources| && p.pos < |sources[p.source]|
  }

  function At(sources: seq<seq<Message>>, p: Place): Message
    requires InRange(sources, p)
  {
    sources[p.source][p.pos]
  }

  // The total order of the merged history: by time, then (because a later
  // source has to be strictly newer to be preferred) later sources first, then
  // by position.
  predicate Older(sources: seq<seq<Message>>, p: Place, q: Place)
    requires InRange(sources, p) && InRange(sources, q)
  {
    var t, u := At(sources, p).time, At(sources, q).time;
    t < u || (t == u && (p.source > q.source || (p.source == q.source && p.pos < q.pos)))
  }

  function Total(sources: seq<seq<Message>>): nat {
    if sources == [] then 0 else |sources[0]| + Total(sources[1..])
  }

  lemma {:induction false} TotalDropLast(sources: seq<seq<Message>>, i: nat)
    requires i < |sources| && sources[i] != []
    ensures Total(DropLast(sources, i)) == Total(sources) - 1
  {
    var r := DropLast(sources, i);
    if i == 0 {
      assert r[1..] == sources[1..];
    } else {
      TotalDropLast(sources[1..], i - 1);
      assert r[1..] == DropLast(sources[1..], i - 1);
    }
  }

  lemma {:induction false} TotalEmpty(sources: seq<seq<Message>>)
    ensures Total(sources) == 0 <==> forall i :: 0 <= i < |sources| ==> sources[i] == []
  {
    if sources != [] {
      TotalEmpty(sources[1..]);
    }
  }

  // The merged history is determined by these three facts.
  ghost predicate IsMerge(sources: seq<seq<Message>>, left: seq<seq<Message>>, places: seq<Place>) {
    && |left| == |sources|
    && (forall i :: 0 <= i < |sources| ==> left[i] <= sources[i])
    && (forall p :: p in places <==> InRange(sources, p) && |left[p.source]| <= p.pos)
  }

  ghost predicate InOrder(sources: seq<seq<Message>>, places: seq<Place>) {
    && (forall p :: p in places ==> InRange(sources, p))
    && (forall j, k :: 0 <= j < k < |places| ==> Older(sources, places[j], places[k]))
  }

  ghost predicate NothingNewerLeft(sources: seq<seq<Message>>, left: seq<seq<Message>>, places: seq<Place>) {
    && |left| == |sources|
    && (forall i :: 0 <= i < |sources| ==> left[i] <= sources[i])
    && (forall p :: p in places ==> InRange(sources, p))
    && (forall p, q :: InRange(left, p) && q in places ==> Older(sources, p, q))
  }

  // The messages at the given places.
  function Kept(sources: seq<seq<Message>>, places: seq<Place>): (r: seq<Message>)
    requires forall p :: p in places ==> InRange(sources, p)
    ensures |r| == |places|
    ensures forall k :: 0 <= k < |places| ==> r[k] == At(sources, places[k])
  {
    if places == [] then []
    else
      assert places == [places[0]] + places[1..];
      [At(sources, places[0])] + Kept(sources, places[1..])
  }

  // The state of a merge: what is left of the sources, what the buffer holds
  // and where each message of it came from.
  ghost predicate Merging(sources: seq<seq<Message>>, left: seq<seq<Message>>,
                          places: seq<Place>, contents: seq<Message>)
  {
    && IsMerge(sources, left, places)
    && contents == Kept(sources, places)
    && ((forall i :: 0 <= i < |sources| ==> Ascending(sources[i])) ==>
         InOrder(sources, places) && NothingNewerLeft(sources, left, places))
  }

  // The last message of source c is the one the strict comparison prefers.
  ghost predicate IsNewestBack(sources: seq<seq<Message>>, c: nat) {
    && c < |sources| && sources[c] != []
    && forall j :: 0 <= j < |sources| && sources[j] != [] ==>
         var t, u := sources[j][|sources[j]| - 1].time, sources[c][|sources[c]| - 1].time;
         t < u || (t == u && j >= c)
  }

  function DropLast(sources: seq<seq<Message>>, i: nat): seq<seq<Message>>
    requires i < |sources| && sources[i] != []
  {
    sources[i := sources[i][..|sources[i]| - 1]]
  }

  lemma OneMorePlace(sources: seq<seq<Message>>, left: seq<seq<Message>>, places: seq<Place>, i: nat)
    requires IsMerge(sources, left, places) && i < |left| && left[i] != []
    ensures InRange(sources, Place(i, |left[i]| - 1))
    ensures IsMerge(sources, DropLast(left, i), [Place(i, |left[i]| - 1)] + places)
  {
    var place := Place(i, |left[i]| - 1);
    var left', places' := DropLast(left, i), [place] + places;
    forall p ensures p in places' <==> InRange(sources, p) && |left'[p.source]| <= p.pos {
      assert p in places' <==> p == place || p in places;
    }
  }

  lemma OneMoreInOrder(sources: seq<seq<Message>>, left: seq<seq<Message>>, places: seq<Place>, i: nat)
    requires forall i :: 0 <= i < |sources| ==> Ascending(sources[i])
    requires IsMerge(sources, left, places) && InOrder(sources, places) && NothingNewerLeft(sources, left, places)
    requires IsNewestBack(left, i)
    ensures InRange(sources, Place(i, |left[i]| - 1))
    ensures InOrder(sources, [Place(i, |left[i]| - 1)] + places)
    ensures NothingNewerLeft(sources, DropLast(left, i), [Place(i, |left[i]| - 1)] + places)
  {
    var place := Place(i, |left[i]| - 1);
    var left', places' := DropLast(left, i), [place] + places;
    OneMorePlace(sources, left, places, i);
    assert InRange(left, place);
    forall p, q | InRange(left', p) && q in places' ensures Older(sources, p, q) {
      assert InRange(left, p);
      if q == place {
        NewestBackIsNewest(sources, left, i, p);
      } else {
        assert q in places;
      }
    }
  }

  lemma NewestBackIsNewest(sources: seq<seq<Message>>, left: seq<seq<Message>>, i: nat, p: Place)
    requires |left| == |sources| && forall i :: 0 <= i < |sources| ==> left[i] <= sources[i] && Ascending(sources[i])
    requires IsNewestBack(left, i) && InRange(left, p) && p != Place(i, |left[i]| - 1)
    ensures Older(sources, p, Place(i, |left[i]| - 1))
  {
    var last := |left[p.source]| - 1;
    assert left[p.source][last] == sources[p.source][last];
    assert Ascending(sources[p.source]);
  }

  // Taking the newest last message keeps the merge a merge.
  lemma OneMore(sources: seq<seq<Message>>, left: seq<seq<Message>>,
                places: seq<Place>, contents: seq<Message>, i: nat)
    requires Merging(sources, left, places, contents) && IsNewestBack(left, i)
    ensures var n := |left[i]| - 1;
            Merging(sources, DropLast(left, i), [Place(i, n)] + places, [left[i][n]] + contents)
  {
    OneMorePlace(sources, left, places, i);
    assert ([Place(i, |left[i]| - 1)] + places)[1..] == places;
    if forall i :: 0 <= i < |sources| ==> Ascending(sources[i]) {
      OneMoreInOrder(sources, left, places, i);
    }
  }

  // Everything that is promised of a merge of the newest messages.
  ghost predicate IsNewestMerge(sources: seq<seq<Message>>, left: seq<seq<Message>>, places: seq<Place>) {
    IsMerge(sources, left, places) && InOrder(sources, places) && NothingNewerLeft(sources, left, places)
  }

  // The promises leave no choice: for a given number of messages there is one
  // merge.
  lemma MergeIsDetermined(sources: seq<seq<Message>>, left: seq<seq<Message>>, places: seq<Place>,
                          left': seq<seq<Message>>, places': seq<Place>)
    requires IsNewestMerge(sources, left, places) && IsNewestMerge(sources, left', places')
    requires |places| == |places'|
    ensures places == places'
  {
    SameNumber(sources, places);
    SameNumber(sources, places');
    var s, s' := set p | p in places, set p | p in places';
    if s != s' {
      var p, q := Exchange(s, s');
      assert InRange(left', p) && InRange(left, q);
      assert false;
    }
    forall p ensures p in places <==> p in places' {
      assert p in s <==> p in s';
    }
    SameOrder(sources, places, places');
  }

  lemma SubsetOfSameSize(s: set<Place>, t: set<Place>)
    requires s <= t && |s| == |t|
    ensures s == t
  {
    assert t == s + (t - s);
    assert |t| == |s| + |t - s|;
  }

  lemma Exchange(s: set<Place>, t: set<Place>) returns (p: Place, q: Place)
    requires |s| == |t| && s != t
    ensures p in s && p !in t && q in t && q !in s
  {
    if s <= t { SubsetOfSameSize(s, t); }
    if t <= s { SubsetOfSameSize(t, s); }
    p :| p in s && p !in t;
    q :| q in t && q !in s;
  }

  lemma NoRepeat(sources: seq<seq<Message>>, a: seq<Place>)
    requires InOrder(sources, a) && a != []
    ensures InOrder(sources, a[1..]) && a[0] !in a[1..]
    ensures forall p :: p in a <==> p == a[0] || p in a[1..]
  {
    forall i | 0 <= i < |a[1..]| ensures a[1..][i] != a[0] {
      assert Older(sources, a[0], a[i + 1]);
    }
    assert a == [a[0]] + a[1..];
  }

  lemma {:induction false} SameNumber(sources: seq<seq<Message>>, places: seq<Place>)
    requires InOrder(sources, places)
    ensures |set p | p in places| == |places|
  {
    if places != [] {
      NoRepeat(sources, places);
      SameNumber(sources, places[1..]);
      assert (set p | p in places) == {places[0]} + (set p | p in places[1..]);
    }
  }

  lemma FirstIsOldest(sources: seq<seq<Message>>, a: seq<Place>, p: Place)
    requires InOrder(sources, a) && p in a
    ensures p == a[0] || Older(sources, a[0], p)
  {
    var i :| 0 <= i < |a| && a[i] == p;
  }

  lemma {:induction false} SameOrder(sources: seq<seq<Message>>, a: seq<Place>, b: seq<Place>)
    requires InOrder(sources, a) && InOrder(sources, b) && |a| == |b|
    requires forall p :: p in a <==> p in b
    ensures a == b
  {
    if a != [] {
      assert a[0] in b && b[0] in a;
      FirstIsOldest(sources, a, b[0]);
      FirstIsOldest(sources, b, a[0]);
      NoRepeat(sources, a);
      NoRepeat(sources, b);
      SameOrder(sources, a[1..], b[1..]);
    }
  }

  // Of messages received at the same time, those of an earlier source come
  // behind those of a later one, and within a source they keep their order.
  lemma TiesBySource(sources: seq<seq<Message>>, left: seq<seq<Message>>, places: seq<Place>, j: nat, k: nat)
    requires IsNewestMerge(sources, left, places) && j < k < |places|
    ensures var p, q := places[j], places[k];
      && p.source < |sources| && p.pos < |sources[p.source]| && q.source < |sources| && q.pos < |sources[q.source]|
      && var t, u := sources[p.source][p.pos].time, sources[q.source][q.pos].time;
         t <= u && (t == u ==> p.source > q.source || (p.source == q.source && p.pos < q.pos))
  {
    assert places[j] in places && places[k] in places;
  }

  // What is left behind is no newer than anything that is kept.
  lemma LeftIsOlder(sources: seq<seq<Message>>, left: seq<seq<Message>>, places: seq<Place>,
                    i: nat, n: nat, q: Place)
    requires IsNewestMerge(sources, left, places) && q in places
    requires i < |left| && n < |left[i]|
    ensures q.source < |sources| && q.pos < |sources[q.source]|
    ensures left[i][n].time <= sources[q.source][q.pos].time
  {
    assert InRange(left, Place(i, n));
  }
}
