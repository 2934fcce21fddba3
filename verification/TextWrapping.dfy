// Breaking a word that is too long for its line, and marking the matches that
// reach into its pieces (src/messages/MessageElement.cpp, laid out by
// src/messages/layouts/MessageLayoutContainer.cpp).

module TextWrapping {
  import opened Utf16
  import opened Sequences
  import opened WordClusters
  import opened MatchHighlights

  // What does not change while a message is laid out. Room is the width
  // without the margins.
  datatype Page = Page(room: int, ellipsisWidth: int, spaceWidth: int, collapses: bool, maxLines: int)

  // Where the next element goes; closed once the message is collapsed.
  datatype Pen = Pen(line: nat, x: int, open: bool)

  datatype Placed = Placed(text: Text, width: int, line: nat, x: int, trailingSpace: bool,
                           highlights: seq<Highlight>)

  // The text of the message a word stands for, and the matches in it.
  datatype Tracked = Untracked | At(start: int, matches: seq<Match>, connect: bool)

  function Remaining(page: Page, pen: Pen): int {
    page.room - (if pen.line + 1 == page.maxLines then page.ellipsisWidth else 0) - pen.x
  }

  function Broken(page: Page, pen: Pen): Pen {
    if page.collapses && pen.line + 1 >= page.maxLines then pen.(open := false)
    else Pen(pen.line + 1, 0, pen.open)
  }

  function Moved(page: Page, pen: Pen, width: int, trailing: bool): Pen {
    if pen.open then pen.(x := pen.x + width + if trailing then page.spaceWidth else 0) else pen
  }

  type Group = seq<Text>

  function Concat(groups: seq<Group>): Group {
    if groups == [] then [] else Concat(groups[..|groups| - 1]) + groups[|groups| - 1]
  }

  // The pen behind pieces that all end their line.
  function PenAfter(page: Page, metrics: Metrics, pen: Pen, groups: seq<Group>): Pen {
    if groups == [] then pen
    else
      var p := PenAfter(page, metrics, pen, groups[..|groups| - 1]);
      Broken(page, Moved(page, p, Width(metrics, groups[|groups| - 1]), false))
  }

  // The room each of the pieces had, and the next one has.
  function Rooms(page: Page, metrics: Metrics, pen: Pen, groups: seq<Group>): (r: seq<int>)
    ensures |r| == |groups| + 1
    ensures r[|groups|] == Remaining(page, PenAfter(page, metrics, pen, groups))
  {
    (if groups == [] then [] else Rooms(page, metrics, pen, groups[..|groups| - 1])) +
    [Remaining(page, PenAfter(page, metrics, pen, groups))]
  }

  lemma {:induction false} RoomsAt(page: Page, metrics: Metrics, pen: Pen, groups: seq<Group>, k: nat)
    requires k <= |groups|
    ensures Rooms(page, metrics, pen, groups)[k] == Remaining(page, PenAfter(page, metrics, pen, groups[..k]))
  {
    if k < |groups| {
      RoomsAt(page, metrics, pen, groups[..|groups| - 1], k);
      assert groups[..|groups| - 1][..k] == groups[..k];
    } else {
      assert groups[..k] == groups;
    }
  }

  // A piece lies within its room, unless it is a character that has a line to
  // itself. The first piece may be empty.
  ghost predicate PieceFits(metrics: Metrics, room: int, group: Group, first: bool) {
    if first then group == [] || Width(metrics, group) <= room
    else group != [] && (|group| == 1 || Width(metrics, group) <= room)
  }

  // Piece k fits, and would not if it also took the next character.
  ghost predicate GreedyAt(metrics: Metrics, groups: seq<Group>, rooms: seq<int>, k: int)
    requires 0 <= k < |groups| <= |rooms|
  {
    && PieceFits(metrics, rooms[k], groups[k], k == 0)
    && (k + 1 < |groups| ==>
          groups[k + 1] != [] && Width(metrics, groups[k]) + metrics(groups[k + 1][0]) > rooms[k])
  }

  ghost predicate Greedy(metrics: Metrics, groups: seq<Group>, rooms: seq<int>) {
    && |groups| == |rooms|
    && forall k :: 0 <= k < |groups| ==> GreedyAt(metrics, groups, rooms, k)
  }

  // A greedy division of a word's characters into lines.
  ghost predicate IsWrap(page: Page, metrics: Metrics, pen: Pen, clusters: Group, groups: seq<Group>) {
    && groups != []
    && Concat(groups) == clusters
    && Greedy(metrics, groups, Rooms(page, metrics, pen, groups[..|groups| - 1]))
  }

  lemma GreedyExtend(metrics: Metrics, groups: seq<Group>, rooms: seq<int>, current: Group, c: Text)
    requires Greedy(metrics, groups + [current], rooms)
    requires Width(metrics, current) + metrics(c) <= rooms[|groups|]
    ensures Width(metrics, current + [c]) == Width(metrics, current) + metrics(c)
    ensures Greedy(metrics, groups + [current + [c]], rooms)
  {
    WidthAppend(metrics, current, [c]);
    var a, b := groups + [current], groups + [current + [c]];
    forall k | 0 <= k < |b| ensures GreedyAt(metrics, b, rooms, k) {
      assert GreedyAt(metrics, a, rooms, k);
    }
  }

  lemma GreedyBreak(metrics: Metrics, groups: seq<Group>, rooms: seq<int>, current: Group, c: Text, room: int)
    requires Greedy(metrics, groups + [current], rooms)
    requires Width(metrics, current) + metrics(c) > rooms[|groups|]
    ensures Greedy(metrics, groups + [current] + [[c]], rooms + [room])
  {
    var a := groups + [current];
    var b := a + [[c]];
    forall k | 0 <= k < |b| ensures GreedyAt(metrics, b, rooms + [room], k) {
      if k < |a| {
        assert GreedyAt(metrics, a, rooms, k);
        assert b[k] == a[k] && b[k + 1] == if k + 1 < |a| then a[k + 1] else [c];
      }
    }
  }

  lemma {:induction false} ConcatAppend(a: seq<Group>, b: seq<Group>)
    ensures Concat(a + b) == Concat(a) + Concat(b)
  {
    if b == [] {
      assert a + b == a;
    } else {
      var last := |b| - 1;
      assert (a + b)[..|a| + last] == a + b[..last];
      ConcatAppend(a, b[..last]);
    }
  }

  lemma ConcatOne(a: seq<Group>, g: Group)
    ensures Concat(a + [g]) == Concat(a) + g
  {
    assert (a + [g])[..|a|] == a;
  }

  lemma ConcatAround(a: seq<Group>, g: Group, b: seq<Group>)
    ensures Concat(a + [g] + b) == Concat(a) + g + Concat(b)
  {
    ConcatAppend(a + [g], b);
    ConcatOne(a, g);
  }

  // Piece k takes from what the earlier pieces left.
  lemma PieceTakes(groups: seq<Group>, k: nat)
    requires k < |groups|
    ensures Concat(groups) == Concat(groups[..k]) + groups[k] + Concat(groups[k + 1..])
  {
    SplitAt(groups, k);
    ConcatAround(groups[..k], groups[k], groups[k + 1..]);
  }

  lemma SharedStart<T>(x: seq<T>, a: seq<T>, y: seq<T>, b: seq<T>)
    requires x + a == y + b && |x| < |y|
    ensures a != [] && y[..|x|] == x && y[|x|] == a[0]
  {
    assert (x + a)[..|x|] == x && (y + b)[..|x|] == y[..|x|];
    assert (x + a)[|x|] == (y + b)[|x|] == y[|x|];
  }

  lemma SameLengthStart<T>(x: seq<T>, a: seq<T>, y: seq<T>, b: seq<T>)
    requires x + a == y + b && |x| == |y|
    ensures x == y
  {
    assert (x + a)[..|x|] == x && (y + b)[..|x|] == y;
  }

  lemma WidthOfMore(metrics: Metrics, y: Group, n: nat)
    requires n < |y|
    ensures Width(metrics, y) >= Width(metrics, y[..n]) + metrics(y[n])
  {
    assert y == y[..n] + y[n..];
    WidthAppend(metrics, y[..n], y[n..]);
  }

  lemma ConcatHead(groups: seq<Group>)
    requires groups != [] && groups[0] != []
    ensures Concat(groups) != [] && Concat(groups)[0] == groups[0][0]
  {
    PieceTakes(groups, 0);
    assert groups[..0] == [];
  }

  // Of two wraps of the same text, neither takes more on its first line.
  lemma NotLonger(metrics: Metrics, room: int, x: Group, restX: seq<Group>, y: Group, rest: Group, first: bool)
    requires x + Concat(restX) == y + rest
    requires restX != [] ==> restX[0] != [] && Width(metrics, x) + metrics(restX[0][0]) > room
    requires PieceFits(metrics, room, x, first) && PieceFits(metrics, room, y, first)
    ensures |y| <= |x|
  {
    if |x| < |y| {
      SharedStart(x, Concat(restX), y, rest);
      ConcatHead(restX);
      WidthOfMore(metrics, y, |x|);
    }
  }

  lemma SameFirst(metrics: Metrics, room: int, done: Group,
                  x: Group, restX: seq<Group>, y: Group, restY: seq<Group>, first: bool)
    requires done + x + Concat(restX) == done + y + Concat(restY)
    requires PieceFits(metrics, room, x, first) && PieceFits(metrics, room, y, first)
    requires restX != [] ==> restX[0] != [] && Width(metrics, x) + metrics(restX[0][0]) > room
    requires restY != [] ==> restY[0] != [] && Width(metrics, y) + metrics(restY[0][0]) > room
    ensures x == y
  {
    var a, b := Concat(restX), Concat(restY);
    SameTail(done, x, a, y, b);
    NotLonger(metrics, room, x, restX, y, b, first);
    NotLonger(metrics, room, y, restY, x, a, first);
    SameLengthStart(x, a, y, b);
  }

  lemma SameTail<T>(done: seq<T>, x: seq<T>, a: seq<T>, y: seq<T>, b: seq<T>)
    requires done + x + a == done + y + b
    ensures x + a == y + b
  {
    assert done + x + a == done + (x + a) && done + y + b == done + (y + b);
    assert x + a == (done + (x + a))[|done|..];
  }

  // The room on each line leaves one way to wrap a word.
  lemma WrapIsUnique(page: Page, metrics: Metrics, pen: Pen, clusters: Group, a: seq<Group>, b: seq<Group>)
    requires IsWrap(page, metrics, pen, clusters, a) && IsWrap(page, metrics, pen, clusters, b)
    ensures a == b
  {
    var n := if |a| < |b| then |a| else |b|;
    SamePieces(page, metrics, pen, clusters, a, b, n);
    NoneBehind(page, metrics, pen, clusters, a, b);
    NoneBehind(page, metrics, pen, clusters, b, a);
    assert a[..n] == a && b[..n] == b;
  }

  lemma {:induction false} SamePieces(page: Page, metrics: Metrics, pen: Pen, clusters: Group,
                                      a: seq<Group>, b: seq<Group>, k: nat)
    requires IsWrap(page, metrics, pen, clusters, a) && IsWrap(page, metrics, pen, clusters, b)
    requires k <= |a| && k <= |b|
    ensures a[..k] == b[..k]
  {
    if k > 0 {
      var i := k - 1;
      SamePieces(page, metrics, pen, clusters, a, b, i);
      SameNext(page, metrics, pen, clusters, a, b, i);
      assert a[..k] == a[..i] + [a[i]] && b[..k] == b[..i] + [b[i]];
    }
  }

  lemma WrapAt(page: Page, metrics: Metrics, pen: Pen, clusters: Group, a: seq<Group>, i: nat)
    returns (room: int)
    requires IsWrap(page, metrics, pen, clusters, a) && i < |a|
    ensures room == Remaining(page, PenAfter(page, metrics, pen, a[..i]))
    ensures PieceFits(metrics, room, a[i], i == 0)
    ensures i + 1 < |a| ==> a[i + 1] != [] && Width(metrics, a[i]) + metrics(a[i + 1][0]) > room
  {
    var init := a[..|a| - 1];
    var rooms := Rooms(page, metrics, pen, init);
    room := rooms[i];
    assert GreedyAt(metrics, a, rooms, i);
    RoomsAt(page, metrics, pen, init, i);
    assert init[..i] == a[..i];
  }

  lemma SameNext(page: Page, metrics: Metrics, pen: Pen, clusters: Group,
                 a: seq<Group>, b: seq<Group>, i: nat)
    requires IsWrap(page, metrics, pen, clusters, a) && IsWrap(page, metrics, pen, clusters, b)
    requires i < |a| && i < |b| && a[..i] == b[..i]
    ensures a[i] == b[i]
  {
    PieceTakes(a, i);
    PieceTakes(b, i);
    var room := WrapAt(page, metrics, pen, clusters, a, i);
    var room' := WrapAt(page, metrics, pen, clusters, b, i);
    SameFirst(metrics, room, Concat(a[..i]), a[i], a[i + 1..], b[i], b[i + 1..], i == 0);
  }

  lemma NoneBehind(page: Page, metrics: Metrics, pen: Pen, clusters: Group, a: seq<Group>, b: seq<Group>)
    requires IsWrap(page, metrics, pen, clusters, a) && IsWrap(page, metrics, pen, clusters, b)
    requires |a| < |b| ==> a == b[..|a|]
    ensures |b| <= |a|
  {
    if |a| < |b| {
      var n := |a|;
      var _ := WrapAt(page, metrics, pen, clusters, b, n);
      PieceTakes(b, n);
    }
  }

  // An element as it is made, before it has a place.
  datatype Piece = Piece(text: Text, width: int, trailingSpace: bool, highlights: seq<Highlight>)

  function HighlightsAt(t: Tracked, offset: int, size: nat): seq<Highlight> {
    match t
    case Untracked => []
    case At(start, ms, connect) => AllClipped(ms, start + offset, start + offset + size, connect)
  }

  // Where the element appears; a collapsed message shows no more elements.
  function Shown(pen: Pen, e: Piece): seq<Placed> {
    if pen.open then [Placed(e.text, e.width, pen.line, pen.x, e.trailingSpace, e.highlights)] else []
  }

  function PieceOf(metrics: Metrics, groups: seq<Group>, g: Group, trailing: bool, t: Tracked): Piece {
    var text := Joined(g);
    Piece(text, Width(metrics, g), trailing, HighlightsAt(t, |Joined(Concat(groups))|, |text|))
  }

  // Pieces that all end their line.
  function Laid(page: Page, metrics: Metrics, pen: Pen, groups: seq<Group>, t: Tracked): seq<Placed> {
    if groups == [] then []
    else
      var before, g := groups[..|groups| - 1], groups[|groups| - 1];
      Laid(page, metrics, pen, before, t) +
      Shown(PenAfter(page, metrics, pen, before), PieceOf(metrics, before, g, false, t))
  }

  // Pieces of which the last leaves its line open.
  function LaidWord(page: Page, metrics: Metrics, pen: Pen, groups: seq<Group>, trailing: bool, t: Tracked): seq<Placed>
    requires groups != []
  {
    var before, g := groups[..|groups| - 1], groups[|groups| - 1];
    Laid(page, metrics, pen, before, t) +
    Shown(PenAfter(page, metrics, pen, before), PieceOf(metrics, before, g, trailing, t))
  }

  function PenBehind(page: Page, metrics: Metrics, pen: Pen, groups: seq<Group>, trailing: bool): Pen
    requires groups != []
  {
    var before, g := groups[..|groups| - 1], groups[|groups| - 1];
    Moved(page, PenAfter(page, metrics, pen, before), Width(metrics, g), trailing)
  }

  // The first place from `from` on at which text occurs in word, or -1.
  function Find(word: Text, text: Text, from: nat): int
    decreases |word| - from
  {
    if from + |text| > |word| then -1
    else if word[from..from + |text|] == text then from
    else Find(word, text, from + 1)
  }

  // The pen stands at the beginning of a line.
  predicate OnFreshLine(pen: Pen, es: seq<Placed>) {
    es == [] || es[|es| - 1].line < pen.line
  }

  // What comes directly behind an element: what is on the same line adjoins it,
  // and a line begins at its left edge.
  predicate Follows(page: Page, e: Placed, line: nat, x: int) {
    if line == e.line then x == e.x + e.width + if e.trailingSpace then page.spaceWidth else 0
    else e.line < line && x == 0
  }

  // The elements stand line by line, side by side and without overlap, and no
  // line is used beyond the last one of a message that is to collapse.
  ghost predicate WellLaid(page: Page, pen: Pen, es: seq<Placed>) {
    && (forall i :: 0 <= i < |es| - 1 ==> Follows(page, es[i], es[i + 1].line, es[i + 1].x))
    && (es != [] ==> es[0].x == 0 && es[|es| - 1].line <= pen.line)
    && (pen.open ==> if es == [] then pen.x == 0 else Follows(page, es[|es| - 1], pen.line, pen.x))
    && (page.collapses ==> pen.line == 0 || pen.line < page.maxLines)
  }

  lemma ShownIsWellLaid(page: Page, pen: Pen, es: seq<Placed>, e: Piece)
    requires WellLaid(page, pen, es)
    ensures WellLaid(page, Moved(page, pen, e.width, e.trailingSpace), es + Shown(pen, e))
  {
    if pen.open {
      var r := es + Shown(pen, e);
      forall i | 0 <= i < |r| - 1 ensures Follows(page, r[i], r[i + 1].line, r[i + 1].x) {
        assert i < |es| - 1 ==> r[i] == es[i] && r[i + 1] == es[i + 1];
      }
    } else {
      NothingBehind(es);
    }
  }

  lemma BrokenIsWellLaid(page: Page, pen: Pen, es: seq<Placed>)
    requires WellLaid(page, pen, es)
    ensures WellLaid(page, Broken(page, pen), es)
    ensures Broken(page, pen).open ==> OnFreshLine(Broken(page, pen), es)
  {
  }

  class Container {
    const page: Page
    var line: nat
    var currentX: int
    var canAddMessages: bool
    var lineStart: nat
    var elements: seq<Placed>

    ghost predicate Valid()
      reads this
    {
      && WellLaid(page, Here(), elements)
      && lineStart <= |elements|
      && (canAddMessages ==> (AtStartOfLine() <==> OnFreshLine(Here(), elements)))
    }

    constructor (page: Page)
      ensures Valid() && this.page == page && elements == []
      ensures Here() == Pen(0, 0, true) && AtStartOfLine()
    {
      this.page := page;
      line, currentX, canAddMessages, lineStart, elements := 0, 0, true, 0, [];
    }

    function Here(): Pen
      reads this
    {
      Pen(line, currentX, canAddMessages)
    }

    predicate AtStartOfLine()
      reads this
    {
      lineStart == |elements|
    }

    predicate FitsInLine(width: int)
      reads this
    {
      width <= Remaining(page, Here())
    }

    method AddElementNoLineBreak(e: Piece)
      requires Valid()
      modifies this
      ensures Valid()
      ensures elements == old(elements) + Shown(old(Here()), e)
      ensures Here() == Moved(page, old(Here()), e.width, e.trailingSpace)
      ensures lineStart == old(lineStart)
    {
      ShownIsWellLaid(page, Here(), elements, e);
      if !canAddMessages {
        return;
      }
      elements := elements + [Placed(e.text, e.width, line, currentX, e.trailingSpace, e.highlights)];
      currentX := currentX + e.width;
      if e.trailingSpace {
        currentX := currentX + page.spaceWidth;
      }
    }

    method BreakLine()
      requires Valid()
      modifies this
      ensures Valid()
      ensures elements == old(elements) && AtStartOfLine()
      ensures Here() == Broken(page, old(Here()))
    {
      BrokenIsWellLaid(page, Here(), elements);
      lineStart := |elements|;
      if page.collapses && line + 1 >= page.maxLines {
        canAddMessages := false;
        return;
      }
      currentX := 0;
      line := line + 1;
    }
  }

  // The element for a piece of a word. `from` is where the search for the next
  // piece begins.
  method MakePiece(word: Text, text: Text, width: int, trailing: bool, t: Tracked, from: nat)
    returns (e: Piece, next: nat)
    requires t.At? ==> from + |text| <= |word| && word[from..from + |text|] == text
    ensures e == Piece(text, width, trailing, HighlightsAt(t, from, |text|))
    ensures t.At? ==> next == from + |text|
  {
    next := from;
    var hs := [];
    if t.At? {
      var offset := Find(word, text, from);
      next := offset + |text|;
      var pieceStart := t.start + offset;
      hs := LocalHighlights(t.matches, pieceStart, pieceStart + |text|, t.connect);
    }
    e := Piece(text, width, trailing, hs);
  }

  lemma TakeCluster(word: Text, i: nat, c: Text, done: Group, current: Group)
    requires i < |word| && c == ClusterAt(word, i)
    ensures done + (current + [c]) + Clusters(word[i + |c|..]) == done + current + Clusters(word[i..])
    ensures Joined(current + [c]) == Joined(current) + c
  {
    assert word[i..][..|c|] == c && word[i..][|c|..] == word[i + |c|..];
    JoinedAppend(current, [c]);
    assert Joined([c]) == c;
  }

  lemma CloseGroup(page: Page, metrics: Metrics, pen: Pen, groups: seq<Group>, g: Group, t: Tracked)
    ensures var all := groups + [g];
      && Concat(all) == Concat(groups) + g
      && Joined(Concat(all)) == Joined(Concat(groups)) + Joined(g)
      && PenAfter(page, metrics, pen, all) ==
         Broken(page, Moved(page, PenAfter(page, metrics, pen, groups), Width(metrics, g), false))
      && Laid(page, metrics, pen, all, t) == Laid(page, metrics, pen, groups, t) +
         Shown(PenAfter(page, metrics, pen, groups), PieceOf(metrics, groups, g, false, t))
  {
    ConcatOne(groups, g);
    JoinedAppend(Concat(groups), g);
    assert (groups + [g])[..|groups|] == groups;
  }

  // `done` are the characters in front of wordStart, `current` those up to i.
  ghost predicate Divides(word: Text, wordStart: nat, i: nat, done: Group, current: Group) {
    && wordStart <= i <= |word|
    && done + current + Clusters(word[i..]) == Clusters(word)
    && |Joined(done)| == wordStart
    && Joined(current) == word[wordStart..i]
  }

  // The state of the wrapping loop: the finished pieces, and the characters
  // since the last of them.
  datatype LoopState = LoopState(metrics: Metrics, word: Text, wordStart: nat, i: nat, width: nat,
                                 groups: seq<Group>, rooms: seq<int>, current: Group)
  {
    ghost predicate Valid() {
      && Divides(word, wordStart, i, Concat(groups), current)
      && width == Width(metrics, current)
      && Greedy(metrics, groups + [current], rooms)
    }

    function Extended(c: Text): LoopState {
      LoopState(metrics, word, wordStart, i + |c|, width + metrics(c), groups, rooms, current + [c])
    }

    function NextLine(c: Text, room: int): LoopState {
      LoopState(metrics, word, i, i + |c|, metrics(c), groups + [current], rooms + [room], [c])
    }

    // The next character is c.
    predicate Next(c: Text) {
      i < |word| && c == ClusterAt(word, i)
    }
  }

  type Loop = l: LoopState | l.Valid()
    witness LoopState(_ => 0, [], 0, 0, 0, [], [0], [])

  lemma ProgressStart(metrics: Metrics, word: Text, room: int) returns (l: Loop)
    ensures l == LoopState(metrics, word, 0, 0, 0, [], [room], [])
  {
    assert word[0..] == word;
    assert GreedyAt(metrics, [[]], [room], 0);
    l := LoopState(metrics, word, 0, 0, 0, [], [room], []);
  }

  lemma ExtendText(word: Text, wordStart: nat, i: nat, done: Group, current: Group, c: Text)
    requires Divides(word, wordStart, i, done, current)
    requires i < |word| && c == ClusterAt(word, i)
    ensures Divides(word, wordStart, i + |c|, done, current + [c])
  {
    TakeCluster(word, i, c, done, current);
    assert word[wordStart..i + |c|] == word[wordStart..i] + c;
  }

  lemma ProgressExtend(l: Loop, c: Text) returns (m: Loop)
    requires l.Next(c) && l.width + l.metrics(c) <= l.rooms[|l.groups|]
    ensures m == l.Extended(c)
  {
    ExtendText(l.word, l.wordStart, l.i, Concat(l.groups), l.current, c);
    GreedyExtend(l.metrics, l.groups, l.rooms, l.current, c);
    m := l.Extended(c);
  }

  lemma BreakText(word: Text, wordStart: nat, i: nat, done: Group, current: Group, c: Text)
    requires Divides(word, wordStart, i, done, current)
    requires i < |word| && c == ClusterAt(word, i)
    ensures Divides(word, i, i + |c|, done + current, [c])
  {
    JoinedAppend(done, current);
    TakeCluster(word, i, c, done + current, []);
    assert [] + [c] == [c] && done + current + [] == done + current;
  }

  lemma ProgressBreak(l: Loop, c: Text, room: int) returns (m: Loop)
    requires l.Next(c) && l.width + l.metrics(c) > l.rooms[|l.groups|]
    ensures m == l.NextLine(c, room)
  {
    BreakText(l.word, l.wordStart, l.i, Concat(l.groups), l.current, c);
    ConcatOne(l.groups, l.current);
    GreedyBreak(l.metrics, l.groups, l.rooms, l.current, c, room);
    WidthOfOne(l.metrics, c);
    m := l.NextLine(c, room);
  }

  lemma WidthOfOne(metrics: Metrics, c: Text)
    ensures Width(metrics, [c]) == metrics(c)
  {
    assert [c][1..] == [];
  }

  lemma ProgressEnd(l: Loop)
    requires l.i == |l.word|
    ensures Concat(l.groups + [l.current]) == Clusters(l.word)
    ensures Greedy(l.metrics, l.groups + [l.current], l.rooms)
  {
    ConcatOne(l.groups, l.current);
    var done := Concat(l.groups) + l.current;
    assert l.word[l.i..] == [];
    assert done + Clusters([]) == done;
  }

  lemma LastPiece(page: Page, metrics: Metrics, pen: Pen, groups: seq<Group>, g: Group, trailing: bool, t: Tracked)
    ensures var all := groups + [g]; var p := PenAfter(page, metrics, pen, groups);
      && LaidWord(page, metrics, pen, all, trailing, t) ==
         Laid(page, metrics, pen, groups, t) + Shown(p, PieceOf(metrics, groups, g, trailing, t))
      && all[..|all| - 1] == groups
      && PenBehind(page, metrics, pen, all, trailing) == Moved(page, p, Width(metrics, g), trailing)
  {
    assert (groups + [g])[..|groups|] == groups;
  }

  // Puts the characters since the last piece on the line.
  method AddPiece(container: Container, metrics: Metrics, word: Text, wordStart: nat, i: nat, width: nat,
                  trailing: bool, t: Tracked, from: nat, ghost groups: seq<Group>, ghost current: Group)
    returns (next: nat)
    requires wordStart <= i <= |word| && Joined(current) == word[wordStart..i]
    requires |Joined(Concat(groups))| == wordStart && width == Width(metrics, current)
    requires t.At? ==> from == wordStart
    requires container.Valid()
    modifies container
    ensures container.Valid()
    ensures t.At? ==> next == i
    ensures container.elements == old(container.elements) +
            Shown(old(container.Here()), PieceOf(metrics, groups, current, trailing, t))
    ensures container.Here() == Moved(container.page, old(container.Here()), width, trailing)
  {
    var e;
    e, next := MakePiece(word, word[wordStart..i], width, trailing, t, from);
    container.AddElementNoLineBreak(e);
  }

  // What the container shows while the word is being wrapped.
  ghost predicate Shows(container: Container, pen: Pen, before: seq<Placed>, t: Tracked, l: LoopState)
    reads container
  {
    var page := container.page;
    && container.Here() == PenAfter(page, l.metrics, pen, l.groups)
    && l.rooms == Rooms(page, l.metrics, pen, l.groups)
    && container.elements == before + Laid(page, l.metrics, pen, l.groups, t)
  }

  // Puts the characters since the last piece on the line and ends it.
  method FinishLine(container: Container, metrics: Metrics, word: Text, wordStart: nat, i: nat, width: nat,
                    t: Tracked, from: nat, c: Text, ghost pen: Pen, ghost before: seq<Placed>, ghost l: Loop)
    returns (next: nat, ghost m: Loop)
    requires l == LoopState(metrics, word, wordStart, i, width, l.groups, l.rooms, l.current)
    requires Shows(container, pen, before, t, l)
    requires t.At? ==> from == wordStart
    requires l.Next(c) && !container.FitsInLine(width + metrics(c))
    requires container.Valid()
    modifies container
    ensures container.Valid()
    ensures t.At? ==> next == i
    ensures m == l.NextLine(c, Remaining(container.page, container.Here()))
    ensures Shows(container, pen, before, t, m)
  {
    ghost var page := container.page;
    CloseGroup(page, metrics, pen, l.groups, l.current, t);
    Regroup(before, Laid(page, metrics, pen, l.groups, t),
            Shown(container.Here(), PieceOf(metrics, l.groups, l.current, false, t)));
    next := AddPiece(container, metrics, word, wordStart, i, width, false, t, from, l.groups, l.current);
    container.BreakLine();
    m := ProgressBreak(l, c, Remaining(page, container.Here()));
  }

  // The body of the wrapping loop.
  method TakeCharacter(container: Container, metrics: Metrics, word: Text, wordStart: nat, i: nat, width: nat,
                       t: Tracked, from: nat, c: Text, ghost pen: Pen, ghost before: seq<Placed>, ghost l: Loop)
    returns (wordStart': nat, width': nat, from': nat, ghost m: Loop)
    requires l == LoopState(metrics, word, wordStart, i, width, l.groups, l.rooms, l.current)
    requires Shows(container, pen, before, t, l)
    requires t.At? ==> from == wordStart
    requires l.Next(c)
    requires container.Valid()
    modifies container
    ensures container.Valid()
    ensures t.At? ==> from' == wordStart'
    ensures m == LoopState(metrics, word, wordStart', i + |c|, width', m.groups, m.rooms, m.current)
    ensures Shows(container, pen, before, t, m)
  {
    var charWidth := metrics(c);
    if !container.FitsInLine(width + charWidth) {
      from', m := FinishLine(container, metrics, word, wordStart, i, width, t, from, c, pen, before, l);
      wordStart', width' := i, charWidth;
    } else {
      m := ProgressExtend(l, c);
      wordStart', width', from' := wordStart, width + charWidth, from;
    }
  }

  // Puts the rest of the word on the line.
  method LastLine(container: Container, metrics: Metrics, word: Text, wordStart: nat, width: nat,
                  trailing: bool, t: Tracked, from: nat, ghost pen: Pen, ghost before: seq<Placed>, ghost l: Loop)
    returns (ghost groups: seq<Group>)
    requires l == LoopState(metrics, word, wordStart, |word|, width, l.groups, l.rooms, l.current)
    requires Shows(container, pen, before, t, l)
    requires t.At? ==> from == wordStart
    requires container.Valid()
    modifies container
    ensures container.Valid()
    ensures IsWrap(container.page, metrics, pen, Clusters(word), groups)
    ensures container.elements == before + LaidWord(container.page, metrics, pen, groups, trailing, t)
    ensures container.Here() == PenBehind(container.page, metrics, pen, groups, trailing)
  {
    ghost var page := container.page;
    ProgressEnd(l);
    LastPiece(page, metrics, pen, l.groups, l.current, trailing, t);
    Regroup(before, Laid(page, metrics, pen, l.groups, t),
            Shown(container.Here(), PieceOf(metrics, l.groups, l.current, trailing, t)));
    var _ := AddPiece(container, metrics, word, wordStart, |word|, width, trailing, t, from, l.groups, l.current);
    groups := l.groups + [l.current];
  }

  // A word that does not fit on a line by itself.
  method WrapWord(container: Container, metrics: Metrics, word: Text, trailing: bool, t: Tracked)
    returns (ghost groups: seq<Group>)
    requires container.Valid()
    modifies container
    ensures container.Valid()
    ensures IsWrap(container.page, metrics, old(container.Here()), Clusters(word), groups)
    ensures container.elements == old(container.elements) +
            LaidWord(container.page, metrics, old(container.Here()), groups, trailing, t)
    ensures container.Here() == PenBehind(container.page, metrics, old(container.Here()), groups, trailing)
  {
    ghost var pen, before := container.Here(), container.elements;
    var wordStart: nat, width: nat, i: nat, from: nat := 0, 0, 0, 0;
    ghost var l: Loop := ProgressStart(metrics, word, Remaining(container.page, pen));
    while i < |word|
      invariant i <= |word|
      invariant l == LoopState(metrics, word, wordStart, i, width, l.groups, l.rooms, l.current)
      invariant t.At? ==> from == wordStart
      invariant container.Valid() && Shows(container, pen, before, t, l)
    {
      var c := ClusterAt(word, i);
      wordStart, width, from, l := TakeCharacter(container, metrics, word, wordStart, i, width, t, from, c,
                                                 pen, before, l);
      i := i + |c|;
    }
    groups := LastLine(container, metrics, word, wordStart, width, trailing, t, from, pen, before, l);
  }

  // Where a word of that width begins.
  function StartOf(page: Page, pen: Pen, atStart: bool, width: int): Pen {
    if width <= Remaining(page, pen) || atStart then pen else Broken(page, pen)
  }

  // What adding one word of a text element does; groups is how it is divided, if
  // it is.
  ghost predicate Adds(page: Page, metrics: Metrics, pen: Pen, atStart: bool, es: seq<Placed>,
                       word: Text, trailing: bool, t: Tracked, groups: seq<Group>,
                       pen': Pen, es': seq<Placed>)
  {
    var width := metrics(word);
    var start := StartOf(page, pen, atStart, width);
    if width <= Remaining(page, start) then
      && es' == es + Shown(start, Piece(word, width, trailing, HighlightsAt(t, 0, |word|)))
      && pen' == Moved(page, start, width, trailing)
    else
      && IsWrap(page, metrics, start, Clusters(word), groups)
      && es' == es + LaidWord(page, metrics, start, groups, trailing, t)
      && pen' == PenBehind(page, metrics, start, groups, trailing)
  }

  // Adding one word of a text element.
  method AddWord(container: Container, metrics: Metrics, word: Text, trailing: bool, t: Tracked)
    returns (ghost groups: seq<Group>)
    requires container.Valid()
    modifies container
    ensures container.Valid()
    ensures Adds(container.page, metrics, old(container.Here()), old(container.AtStartOfLine()),
                 old(container.elements), word, trailing, t, groups, container.Here(), container.elements)
  {
    var width := metrics(word);
    groups := [];
    var fits := container.FitsInLine(width);
    if !fits && !container.AtStartOfLine() {
      container.BreakLine();
      fits := container.FitsInLine(width);
    }
    if fits {
      var e, _ := MakePiece(word, word, width, trailing, t, 0);
      container.AddElementNoLineBreak(e);
    } else {
      groups := WrapWord(container, metrics, word, trailing, t);
    }
  }
}
