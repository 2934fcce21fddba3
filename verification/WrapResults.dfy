// What comes out of wrapping a word (src/messages/MessageElement.cpp).

module WrapResults {
  import opened Utf16
  import opened Sequences
  import opened WordClusters
  import opened MatchHighlights
  import opened TextWrapping

  function ShownText(es: seq<Placed>): Text {
    if es == [] then [] else ShownText(es[..|es| - 1]) + es[|es| - 1].text
  }

  function MarkedIn(es: seq<Placed>): int {
    if es == [] then 0 else MarkedIn(es[..|es| - 1]) + MarkedLength(es[|es| - 1].highlights)
  }

  // Every unit of [from, to) that a match covers is marked, once for each.
  ghost predicate MarksAll(es: seq<Placed>, t: Tracked, size: nat) {
    MarkedIn(es) == match t case Untracked => 0 case At(start, ms, _) => Overlaps(ms, start, start + size)
  }

  lemma ShowOne(es: seq<Placed>, p: Pen, e: Piece)
    ensures ShownText(es + Shown(p, e)) == ShownText(es) + if p.open then e.text else []
    ensures MarkedIn(es + Shown(p, e)) == MarkedIn(es) + if p.open then MarkedLength(e.highlights) else 0
  {
    if p.open {
      var x := Shown(p, e)[0];
      assert (es + [x])[..|es|] == es;
    } else {
      assert es + [] == es;
    }
  }

  lemma MarksMore(es: seq<Placed>, p: Pen, e: Piece, t: Tracked, size: nat)
    requires p.open && MarksAll(es, t, size) && e.highlights == HighlightsAt(t, size, |e.text|)
    ensures MarksAll(es + Shown(p, e), t, size + |e.text|)
  {
    ShowOne(es, p, e);
    match t
    case Untracked =>
    case At(start, ms, connect) =>
      ClippedLength(ms, start + size, start + size + |e.text|, connect);
      OverlapsAdd(ms, start, start + size, start + size + |e.text|);
  }

  lemma {:induction false} LaidText(page: Page, metrics: Metrics, pen: Pen, groups: seq<Group>, t: Tracked)
    ensures var es, text := Laid(page, metrics, pen, groups, t), Joined(Concat(groups));
      && ShownText(es) <= text
      && (PenAfter(page, metrics, pen, groups).open ==> ShownText(es) == text && MarksAll(es, t, |text|))
  {
    if groups == [] {
      NoOverlap(t);
    } else {
      var before, g := groups[..|groups| - 1], groups[|groups| - 1];
      assert groups == before + [g];
      LaidText(page, metrics, pen, before, t);
      NextText(page, metrics, pen, before, g, false, t);
    }
  }

  lemma NoOverlap(t: Tracked)
    ensures MarksAll([], t, 0)
  {
    match t
    case Untracked =>
    case At(start, ms, _) => EmptyOverlaps(ms, start);
  }

  lemma {:induction false} EmptyOverlaps(ms: seq<Match>, at: int)
    ensures Overlaps(ms, at, at) == 0
  {
    if ms != [] {
      EmptyOverlaps(ms[..|ms| - 1], at);
    }
  }

  lemma NextText(page: Page, metrics: Metrics, pen: Pen, before: seq<Group>, g: Group, trailing: bool, t: Tracked)
    requires var es, text := Laid(page, metrics, pen, before, t), Joined(Concat(before));
      && ShownText(es) <= text
      && (PenAfter(page, metrics, pen, before).open ==> ShownText(es) == text && MarksAll(es, t, |text|))
    ensures var p := PenAfter(page, metrics, pen, before);
      var es := Laid(page, metrics, pen, before, t) + Shown(p, PieceOf(metrics, before, g, trailing, t));
      var text := Joined(Concat(before + [g]));
      ShownText(es) <= text && (p.open ==> ShownText(es) == text && MarksAll(es, t, |text|))
  {
    var p := PenAfter(page, metrics, pen, before);
    var es, e := Laid(page, metrics, pen, before, t), PieceOf(metrics, before, g, trailing, t);
    ConcatOne(before, g);
    JoinedAppend(Concat(before), g);
    ShowOne(es, p, e);
    if p.open {
      MarksMore(es, p, e, t, |Joined(Concat(before))|);
    }
  }

  // The pieces spell the word (its beginning, once the message collapses), and
  // mark of every match exactly what it covers of the word.
  lemma WrapKeepsText(page: Page, metrics: Metrics, pen: Pen, word: Text, groups: seq<Group>,
                      trailing: bool, t: Tracked)
    requires IsWrap(page, metrics, pen, Clusters(word), groups)
    ensures var es := LaidWord(page, metrics, pen, groups, trailing, t);
      && ShownText(es) <= word
      && (PenBehind(page, metrics, pen, groups, trailing).open ==>
            ShownText(es) == word && MarksAll(es, t, |word|))
  {
    var before, g := groups[..|groups| - 1], groups[|groups| - 1];
    SplitLast(groups);
    ClustersResult(word);
    LastPiece(page, metrics, pen, before, g, trailing, t);
    LaidText(page, metrics, pen, before, t);
    NextText(page, metrics, pen, before, g, trailing, t);
  }

  // On the line, or a single character on a line of its own, or empty.
  predicate OnItsLine(page: Page, e: Placed) {
    e.width <= Remaining(page, Pen(e.line, e.x, true)) || IsCluster(e.text) || e.text == []
  }

  ghost predicate PieceStays(page: Page, metrics: Metrics, pen: Pen, groups: seq<Group>, k: nat,
                             trailing: bool, t: Tracked)
    requires k < |groups|
  {
    var p := PieceOf(metrics, groups[..k], groups[k], trailing, t);
    forall e :: e in Shown(PenAfter(page, metrics, pen, groups[..k]), p) ==> OnItsLine(page, e)
  }

  lemma PieceOnItsLine(page: Page, metrics: Metrics, pen: Pen, word: Text, groups: seq<Group>, k: nat,
                       trailing: bool, t: Tracked)
    requires IsWrap(page, metrics, pen, Clusters(word), groups) && k < |groups|
    ensures PieceStays(page, metrics, pen, groups, k, trailing, t)
  {
    var room := WrapAt(page, metrics, pen, Clusters(word), groups, k);
    if |groups[k]| == 1 {
      var c := groups[k][0];
      PieceTakes(groups, k);
      assert c == Clusters(word)[|Concat(groups[..k])|];
      ClustersResult(word);
      assert groups[k] == [c] && Joined([c]) == c;
    }
  }

  lemma {:induction false} LaidOnLines(page: Page, metrics: Metrics, pen: Pen, groups: seq<Group>, k: nat, t: Tracked)
    requires k <= |groups|
    requires forall i :: 0 <= i < k ==> PieceStays(page, metrics, pen, groups, i, false, t)
    ensures forall e :: e in Laid(page, metrics, pen, groups[..k], t) ==> OnItsLine(page, e)
  {
    if k > 0 {
      LaidOnLines(page, metrics, pen, groups, k - 1, t);
      assert PieceStays(page, metrics, pen, groups, k - 1, false, t);
      PrefixStep(groups, k);
      CloseGroup(page, metrics, pen, groups[..k - 1], groups[k - 1], t);
    }
  }

  lemma WrapStaysOnLines(page: Page, metrics: Metrics, pen: Pen, word: Text, groups: seq<Group>,
                         trailing: bool, t: Tracked)
    requires IsWrap(page, metrics, pen, Clusters(word), groups)
    ensures forall e :: e in LaidWord(page, metrics, pen, groups, trailing, t) ==> OnItsLine(page, e)
  {
    var k := |groups| - 1;
    forall i | 0 <= i < k ensures PieceStays(page, metrics, pen, groups, i, false, t) {
      PieceOnItsLine(page, metrics, pen, word, groups, i, false, t);
    }
    LaidOnLines(page, metrics, pen, groups, k, t);
    PieceOnItsLine(page, metrics, pen, word, groups, k, trailing, t);
  }

  // Piece k begins inside the word, behind a high surrogate.
  ghost predicate SplitsAfterHigh(word: Text, groups: seq<Group>, k: nat)
    requires k < |groups|
  {
    var p := |Joined(Concat(groups[..k]))|;
    0 < p < |word| && IsHighSurrogate(word[p - 1])
  }

  ghost predicate SomeWrapSplits(word: Text) {
    exists page, metrics, pen, groups, k: nat ::
      IsWrap(page, metrics, pen, Clusters(word), groups) && k < |groups| && SplitsAfterHigh(word, groups, k)
  }

  lemma TornHasDouble(page: Page, metrics: Metrics, pen: Pen, word: Text, groups: seq<Group>, k: nat)
    returns (r: int)
    requires IsWrap(page, metrics, pen, Clusters(word), groups)
    requires k < |groups| && SplitsAfterHigh(word, groups, k)
    ensures DoubleHigh(word, r)
  {
    var done := Concat(groups[..k]);
    PieceTakes(groups, k);
    assert Clusters(word)[..|done|] == done;
    var p := |Joined(done)|;
    assert IsBoundary(word, p);
    HighBreakHasDouble(word, p);
    r := p - 2;
  }

  lemma DoubleIsTorn(word: Text, r: int)
    requires DoubleHigh(word, r)
    ensures SomeWrapSplits(word)
  {
    var p := DoubleHasHighBreak(word, r);
    var cs := Clusters(word);
    var j := BoundaryInside(word, p);
    SinglesPrefix(cs, j);
    NarrowWrap(cs);
    assert SplitsAfterHigh(word, Narrow(cs), j + 1);
  }

  lemma BoundaryInside(word: Text, p: int) returns (j: nat)
    requires IsBoundary(word, p) && p < |word|
    ensures j < |Clusters(word)| && |Joined(Clusters(word)[..j])| == p
  {
    var cs := Clusters(word);
    j :| j <= |cs| && |Joined(cs[..j])| == p;
    ClustersResult(word);
    assert cs[..|cs|] == cs;
  }

  // No layout tears a surrogate pair out of a word, exactly when the word has
  // no two high surrogates in a row with something behind them.
  lemma TornPairsExactly(word: Text)
    ensures SomeWrapSplits(word) <==> exists r :: DoubleHigh(word, r)
  {
    if SomeWrapSplits(word) {
      var page, metrics, pen, groups, k: nat :|
        IsWrap(page, metrics, pen, Clusters(word), groups) && k < |groups| && SplitsAfterHigh(word, groups, k);
      var r := TornHasDouble(page, metrics, pen, word, groups, k);
    }
    if r :| DoubleHigh(word, r) {
      DoubleIsTorn(word, r);
    }
  }

  // A page with no room at all gives every character a line of its own.
  const NO_ROOM := Page(-1, 0, 0, false, 0)
  const NO_WIDTH: Metrics := _ => 0

  function Singles(clusters: seq<Text>): (r: seq<Group>)
    ensures |r| == |clusters|
    ensures forall k :: 0 <= k < |r| ==> r[k] == [clusters[k]]
  {
    seq(|clusters|, k requires 0 <= k < |clusters| => [clusters[k]])
  }

  function Narrow(clusters: seq<Text>): seq<Group> {
    [[]] + Singles(clusters)
  }

  lemma {:induction false} SinglesPrefix(clusters: seq<Text>, j: nat)
    requires j <= |clusters|
    ensures Concat(Narrow(clusters)[..j + 1]) == clusters[..j]
  {
    var all := Narrow(clusters);
    if j == 0 {
      assert all[..1] == [[]];
    } else {
      SinglesPrefix(clusters, j - 1);
      assert all[..j + 1][..j] == all[..j] && all[j] == [clusters[j - 1]];
      assert clusters[..j] == clusters[..j - 1] + [clusters[j - 1]];
    }
  }

  lemma {:induction false} NoRoomLeft(groups: seq<Group>)
    ensures PenAfter(NO_ROOM, NO_WIDTH, Pen(0, 0, true), groups).x == 0
  {
  }

  lemma NarrowWrap(clusters: seq<Text>)
    ensures IsWrap(NO_ROOM, NO_WIDTH, Pen(0, 0, true), clusters, Narrow(clusters))
  {
    var all := Narrow(clusters);
    var init, n := all[..|all| - 1], |clusters|;
    SinglesPrefix(clusters, n);
    assert all[..n + 1] == all && clusters[..n] == clusters;
    var rooms := Rooms(NO_ROOM, NO_WIDTH, Pen(0, 0, true), init);
    forall k | 0 <= k < |all| ensures GreedyAt(NO_WIDTH, all, rooms, k) {
      RoomsAt(NO_ROOM, NO_WIDTH, Pen(0, 0, true), init, k);
      NoRoomLeft(init[..k]);
      assert k > 0 ==> all[k] == [clusters[k - 1]];
    }
  }

  // ----- where the pieces go -----

  // e shows the k-th piece: the k-th line behind the pen, at its left edge but
  // for the first.
  predicate ShowsPiece(metrics: Metrics, pen: Pen, groups: seq<Group>, k: nat, trailing: bool, e: Placed)
    requires k < |groups|
  {
    && e.text == Joined(groups[k]) && e.width == Width(metrics, groups[k]) && e.trailingSpace == trailing
    && e.line == pen.line + k && e.x == if k == 0 then pen.x else 0
  }

  lemma {:induction false} LaidLineByLine(page: Page, metrics: Metrics, pen: Pen, groups: seq<Group>, t: Tracked)
    ensures var (es, p) := (Laid(page, metrics, pen, groups, t), PenAfter(page, metrics, pen, groups));
            && |es| <= |groups|
            && (p.open ==> |es| == |groups| && p.line == pen.line + |groups|)
            && (p.open ==> p.x == if groups == [] then pen.x else 0)
            && forall k :: 0 <= k < |es| ==> ShowsPiece(metrics, pen, groups, k, false, es[k])
  {
    if groups != [] {
      var before, g := groups[..|groups| - 1], groups[|groups| - 1];
      SplitLast(groups);
      LaidLineByLine(page, metrics, pen, before, t);
      var p := PenAfter(page, metrics, pen, before);
      OnePieceMore(metrics, pen, before, g, Laid(page, metrics, pen, before, t), p,
                   PieceOf(metrics, before, g, false, t));
    }
  }

  lemma OnePieceMore(metrics: Metrics, pen: Pen, before: seq<Group>, g: Group, es: seq<Placed>, p: Pen, e: Piece)
    requires |es| <= |before|
    requires forall k :: 0 <= k < |es| ==> ShowsPiece(metrics, pen, before, k, false, es[k])
    requires p.open ==>
               |es| == |before| && p.line == pen.line + |before| && p.x == if before == [] then pen.x else 0
    requires e.text == Joined(g) && e.width == Width(metrics, g)
    ensures var (all, r) := (before + [g], es + Shown(p, e));
            && |r| <= |all| && (p.open ==> |r| == |all|)
            && forall k :: 0 <= k < |r| ==>
                 ShowsPiece(metrics, pen, all, k, k == |before| && e.trailingSpace, r[k])
  {
    var all, r := before + [g], es + Shown(p, e);
    forall k | 0 <= k < |r| ensures ShowsPiece(metrics, pen, all, k, k == |before| && e.trailingSpace, r[k]) {
      if k < |es| {
        assert ShowsPiece(metrics, pen, before, k, false, es[k]) && all[k] == before[k];
      } else {
        assert all[k] == g;
      }
    }
  }

  // Each piece has a line to itself, one below the other, and only the last has
  // the space of the word behind it; once the message collapses no more follow.
  lemma PiecesLineByLine(page: Page, metrics: Metrics, pen: Pen, groups: seq<Group>, trailing: bool, t: Tracked)
    requires groups != []
    ensures var (es, n) := (LaidWord(page, metrics, pen, groups, trailing, t), |groups|);
            && |es| <= n && (PenBehind(page, metrics, pen, groups, trailing).open ==> |es| == n)
            && forall k :: 0 <= k < |es| ==> ShowsPiece(metrics, pen, groups, k, trailing && k == n - 1, es[k])
  {
    var before, g := groups[..|groups| - 1], groups[|groups| - 1];
    SplitLast(groups);
    LaidLineByLine(page, metrics, pen, before, t);
    OnePieceMore(metrics, pen, before, g, Laid(page, metrics, pen, before, t), PenAfter(page, metrics, pen, before),
                 PieceOf(metrics, before, g, trailing, t));
  }

  // ----- where a word goes -----

  // How far the elements of a line may reach.
  function Edge(page: Page, line: int): int {
    if line + 1 == page.maxLines then page.room - page.ellipsisWidth else page.room
  }

  // A word that fits behind what is on the line goes there.
  lemma WordStaysOnLine(page: Page, metrics: Metrics, pen: Pen, atStart: bool, es: seq<Placed>,
                        word: Text, trailing: bool, t: Tracked, groups: seq<Group>, pen': Pen, es': seq<Placed>)
    requires Adds(page, metrics, pen, atStart, es, word, trailing, t, groups, pen', es')
    requires pen.open && pen.x + metrics(word) <= Edge(page, pen.line)
    ensures es' == es + [Placed(word, metrics(word), pen.line, pen.x, trailing, HighlightsAt(t, 0, |word|))]
    ensures pen' == Pen(pen.line, pen.x + metrics(word) + (if trailing then page.spaceWidth else 0), true)
  {
  }

  // A word that does not fit behind other elements, but on an empty line, goes
  // to the next line in one piece.
  lemma WordGoesToNextLine(page: Page, metrics: Metrics, pen: Pen, es: seq<Placed>,
                           word: Text, trailing: bool, t: Tracked, groups: seq<Group>, pen': Pen, es': seq<Placed>)
    requires Adds(page, metrics, pen, false, es, word, trailing, t, groups, pen', es')
    requires pen.open && pen.x + metrics(word) > Edge(page, pen.line)
    requires !(page.collapses && pen.line + 1 >= page.maxLines) && metrics(word) <= Edge(page, pen.line + 1)
    ensures es' == es + [Placed(word, metrics(word), pen.line + 1, 0, trailing, HighlightsAt(t, 0, |word|))]
    ensures pen' == Pen(pen.line + 1, metrics(word) + (if trailing then page.spaceWidth else 0), true)
  {
  }

  // On the last line of a message that is to collapse, what does not fit behind
  // other elements is not shown, and neither is anything behind it.
  lemma CollapseHidesWord(page: Page, metrics: Metrics, pen: Pen, es: seq<Placed>,
                          word: Text, trailing: bool, t: Tracked, groups: seq<Group>, pen': Pen, es': seq<Placed>)
    requires Adds(page, metrics, pen, false, es, word, trailing, t, groups, pen', es')
    requires pen.open && pen.x + metrics(word) > Edge(page, pen.line)
    requires page.collapses && pen.line + 1 >= page.maxLines
    ensures es' == es && !pen'.open
  {
    ClosedShowsNothing(page, metrics, pen, es, word, trailing, t, groups, pen', es');
  }

  lemma {:induction false} ClosedStays(page: Page, metrics: Metrics, pen: Pen, groups: seq<Group>, t: Tracked)
    requires !pen.open
    ensures !PenAfter(page, metrics, pen, groups).open && Laid(page, metrics, pen, groups, t) == []
  {
    if groups != [] {
      ClosedStays(page, metrics, pen, groups[..|groups| - 1], t);
    }
  }

  lemma ClosedShowsNothing(page: Page, metrics: Metrics, pen: Pen, es: seq<Placed>,
                           word: Text, trailing: bool, t: Tracked, groups: seq<Group>, pen': Pen, es': seq<Placed>)
    requires Adds(page, metrics, pen, false, es, word, trailing, t, groups, pen', es')
    requires metrics(word) > Remaining(page, pen) && !Broken(page, pen).open
    ensures es' == es && !pen'.open
  {
    NothingBehind(es);
    if groups != [] {
      ClosedStays(page, metrics, Broken(page, pen), groups[..|groups| - 1], t);
    }
  }

  lemma {:induction false} LaidBegins(page: Page, metrics: Metrics, pen: Pen, groups: seq<Group>, t: Tracked)
    requires groups != []
    ensures var es := Laid(page, metrics, pen, groups, t);
            if pen.open then es != [] && es[0].line == pen.line && es[0].x == pen.x else es == []
  {
    if |groups| > 1 {
      LaidBegins(page, metrics, pen, groups[..|groups| - 1], t);
    }
    if !pen.open {
      ClosedStays(page, metrics, pen, groups, t);
    }
  }

  // A word is divided only if it is wider than the line it begins on, and it
  // begins at the left edge of that line.
  lemma DividedWordBeginsLine(page: Page, metrics: Metrics, pen: Pen, atStart: bool, es: seq<Placed>,
                              word: Text, trailing: bool, t: Tracked, groups: seq<Group>, pen': Pen, es': seq<Placed>)
    requires WellLaid(page, pen, es) && (pen.open ==> (atStart <==> OnFreshLine(pen, es)))
    requires Adds(page, metrics, pen, atStart, es, word, trailing, t, groups, pen', es')
    requires |es'| > |es| + 1
    ensures es'[|es|].x == 0 && metrics(word) > Edge(page, es'[|es|].line)
    ensures es == [] || es[|es| - 1].line < es'[|es|].line
  {
    var start := StartOf(page, pen, atStart, metrics(word));
    var shown := LaidWord(page, metrics, start, groups, trailing, t);
    var before, g := groups[..|groups| - 1], groups[|groups| - 1];
    assert es'[|es|] == shown[0];
    if before != [] {
      LaidBegins(page, metrics, start, before, t);
      if !start.open {
        ClosedStays(page, metrics, start, before, t);
      }
    }
  }

  // Whatever is added stays within its line, unless it is a single character on
  // a line of its own or empty.
  lemma AddedStaysOnLines(page: Page, metrics: Metrics, pen: Pen, atStart: bool, es: seq<Placed>,
                          word: Text, trailing: bool, t: Tracked, groups: seq<Group>, pen': Pen, es': seq<Placed>)
    requires Adds(page, metrics, pen, atStart, es, word, trailing, t, groups, pen', es')
    ensures |es| <= |es'| && es'[..|es|] == es
    ensures forall e :: e in es'[|es|..] ==>
              e.x + e.width <= Edge(page, e.line) || IsCluster(e.text) || e.text == []
  {
    var start := StartOf(page, pen, atStart, metrics(word));
    if metrics(word) > Remaining(page, start) {
      WrapStaysOnLines(page, metrics, start, word, groups, trailing, t);
      assert es'[|es|..] == LaidWord(page, metrics, start, groups, trailing, t);
    } else {
      assert es'[|es|..] == Shown(start, Piece(word, metrics(word), trailing, HighlightsAt(t, 0, |word|)));
    }
  }

  // The elements of a line stand side by side, in reading order.
  lemma {:induction false} NoOverlapOnLine(page: Page, pen: Pen, es: seq<Placed>, i: nat, j: nat)
    requires WellLaid(page, pen, es) && page.spaceWidth >= 0 && i < j < |es|
    requires forall k :: 0 <= k < |es| ==> es[k].width >= 0
    ensures es[i].line <= es[j].line
    ensures es[i].line == es[j].line ==> es[i].x + es[i].width <= es[j].x
  {
    if i + 1 < j {
      NoOverlapOnLine(page, pen, es, i, j - 1);
    }
    assert Follows(page, es[j - 1], es[j].line, es[j].x);
  }
}
