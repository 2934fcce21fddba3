// The matches that reach into a piece of a word
// (src/messages/MessageElement.cpp).

module MatchHighlights {
  import opened Utf16

  // A part of the message's text that something matched. The rest of it (colour,
  // rule, style) is carried along unchanged.
  datatype Match = Match(start: int, length: int, rule: int) {
    function End(): int { start + length }
    predicate Covers(q: int) { start <= q < End() }
  }

  datatype Highlight = Highlight(part: Match, connectsBefore: bool, connectsAfter: bool)

  function Max(a: int, b: int): int { if a < b then b else a }
  function Min(a: int, b: int): int { if b < a then b else a }

  // How many units of [from, to) the match covers.
  function Overlap(m: Match, from: int, to: int): nat {
    Max(0, Min(to, m.End()) - Max(from, m.start))
  }

  // What is marked in the piece [from, to) for one match.
  ghost predicate Marks(hs: seq<Highlight>, m: Match, from: int, to: int, connect: bool) {
    if forall q :: from <= q < to ==> !m.Covers(q) then hs == []
    else
      && |hs| == 1
      && hs[0].part.rule == m.rule
      && hs[0].part.length == Overlap(m, from, to)
      && (forall q :: from <= q < to ==> (m.Covers(q) <==> hs[0].part.Covers(q - from)))
      && (hs[0].connectsBefore <==> connect && m.Covers(from - 1))
      && (hs[0].connectsAfter <==> connect && m.Covers(to))
  }

  // The part of the match in the piece, and whether it goes on beyond it.
  function Clipped(m: Match, from: int, to: int, connect: bool): seq<Highlight> {
    var overlapStart, overlapEnd := Max(from, m.start), Min(to, m.End());
    if overlapEnd <= overlapStart then []
    else [Highlight(Match(overlapStart - from, overlapEnd - overlapStart, m.rule),
                    connect && m.start < from, connect && to < m.End())]
  }

  lemma ClippedMarks(m: Match, from: int, to: int, connect: bool)
    ensures Marks(Clipped(m, from, to, connect), m, from, to, connect)
  {
    var overlapStart, overlapEnd := Max(from, m.start), Min(to, m.End());
    if overlapStart < overlapEnd {
      assert m.Covers(overlapStart);
    }
  }

  function AllClipped(ms: seq<Match>, from: int, to: int, connect: bool): seq<Highlight> {
    if ms == [] then []
    else
      var last := |ms| - 1;
      AllClipped(ms[..last], from, to, connect) + Clipped(ms[last], from, to, connect)
  }

  method LocalHighlights(ms: seq<Match>, from: int, to: int, connect: bool)
    returns (hs: seq<Highlight>)
    ensures hs == AllClipped(ms, from, to, connect)
  {
    hs := [];
    for i := 0 to |ms|
      invariant hs == AllClipped(ms[..i], from, to, connect)
    {
      assert ms[..i + 1][..i] == ms[..i];
      var matchEnd := ms[i].start + ms[i].length;
      var overlapStart := Max(from, ms[i].start);
      var overlapEnd := Min(to, matchEnd);
      if overlapEnd > overlapStart {
        var local := ms[i].(start := overlapStart - from, length := overlapEnd - overlapStart);
        hs := hs + [Highlight(local, connect && ms[i].start < from, connect && matchEnd > to)];
      }
    }
    assert ms[..|ms|] == ms;
  }

  function MarkedLength(hs: seq<Highlight>): int {
    if hs == [] then 0 else hs[0].part.length + MarkedLength(hs[1..])
  }

  lemma {:induction false} MarkedAppend(a: seq<Highlight>, b: seq<Highlight>)
    ensures MarkedLength(a + b) == MarkedLength(a) + MarkedLength(b)
  {
    if a == [] {
      assert a + b == b;
    } else {
      assert (a + b)[0] == a[0] && (a + b)[1..] == a[1..] + b;
      MarkedAppend(a[1..], b);
    }
  }

  // How much of [from, to) the matches cover, counted for each of them.
  function Overlaps(ms: seq<Match>, from: int, to: int): nat {
    if ms == [] then 0 else Overlaps(ms[..|ms| - 1], from, to) + Overlap(ms[|ms| - 1], from, to)
  }

  lemma {:induction false} ClippedLength(ms: seq<Match>, from: int, to: int, connect: bool)
    ensures MarkedLength(AllClipped(ms, from, to, connect)) == Overlaps(ms, from, to)
  {
    if ms != [] {
      var last := |ms| - 1;
      ClippedLength(ms[..last], from, to, connect);
      MarkedAppend(AllClipped(ms[..last], from, to, connect), Clipped(ms[last], from, to, connect));
    }
  }

  lemma {:induction false} OverlapsAdd(ms: seq<Match>, from: int, mid: int, to: int)
    requires from <= mid <= to
    ensures Overlaps(ms, from, mid) + Overlaps(ms, mid, to) == Overlaps(ms, from, to)
  {
    if ms != [] {
      OverlapsAdd(ms[..|ms| - 1], from, mid, to);
    }
  }

  // Two pieces side by side agree on whether a match runs from one into the other.
  lemma NeighboursConnect(m: Match, from: int, mid: int, to: int, connect: bool)
    requires from < mid < to
    ensures var left, right := Clipped(m, from, mid, connect), Clipped(m, mid, to, connect);
            m.Covers(mid - 1) && m.Covers(mid) <==>
            left != [] && right != [] &&
            (connect ==> left[0].connectsAfter && right[0].connectsBefore)
  {
  }
}
