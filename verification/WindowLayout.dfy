// Choosing the tab of a channel in a window layout
// (src/common/WindowDescriptors.cpp).

module WindowLayouts {
  import opened Options
  import opened Sequences
  import opened WindowDescriptors

  datatype Provider = Twitch | OtherProvider
  datatype WindowKind = Main | Popup | Attached
  datatype WindowState = NoState | Minimized | Maximized
  datatype Rect = Rect(x: int, y: int, width: int, height: int)

  datatype Tab = Tab(title: string, colour: string, selected: bool, highlights: bool, root: Option<Node>)
  datatype Window = Window(kind: WindowKind, state: WindowState, geometry: Rect, popupId: Option<nat>, tabs: seq<Tab>)

  // The splits of a tree, from left to right.
  function Splits(n: Node): seq<SplitDescriptor>
    decreases n
  {
    match n
    case Split(d, _, _) => [d]
    case Container(_, _, _, items) => SplitsOf(items)
  }

  function SplitsOf(items: seq<Node>): seq<SplitDescriptor>
    decreases items
  {
    if items == [] then [] else SplitsOf(items[..|items| - 1]) + Splits(items[|items| - 1])
  }

  predicate Shows(name: string, splits: seq<SplitDescriptor>) {
    exists i :: 0 <= i < |splits| && splits[i].channelName == name
  }

  // How many splits show the channel through filters.
  function Filtered(name: string, splits: seq<SplitDescriptor>): nat {
    if splits == [] then 0
    else
      var d := splits[|splits| - 1];
      Filtered(name, splits[..|splits| - 1]) + if d.channelName == name && d.filters != [] then 1 else 0
  }

  function Score(name: string, splits: seq<SplitDescriptor>): nat {
    2 * |splits| + Filtered(name, splits)
  }

  lemma {:induction false} ScoreAppend(name: string, a: seq<SplitDescriptor>, b: seq<SplitDescriptor>)
    ensures Score(name, a + b) == Score(name, a) + Score(name, b)
    ensures Shows(name, a + b) <==> Shows(name, a) || Shows(name, b)
  {
    if b == [] {
      assert a + b == a;
    } else {
      var init, d := b[..|b| - 1], b[|b| - 1];
      ScoreAppend(name, a, init);
      assert (a + b)[..|a + b| - 1] == a + init;
      ShowsLast(name, a + init, d);
      ShowsLast(name, init, d);
      assert a + b == a + init + [d] && b == init + [d];
    }
  }

  lemma ShowsLast(name: string, a: seq<SplitDescriptor>, d: SplitDescriptor)
    ensures Shows(name, a + [d]) <==> Shows(name, a) || d.channelName == name
  {
    var s := a + [d];
    if Shows(name, a) {
      var i :| 0 <= i < |a| && a[i].channelName == name;
      assert s[i].channelName == name;
    }
    assert s[|a|] == d;
  }

  class Visitor {
    const spec: string
    var score: nat
    var hasChannel: bool

    constructor (name: string)
      ensures spec == name && score == 0 && !hasChannel
    {
      spec, score, hasChannel := name, 0, false;
    }

    method Visit(n: Node)
      modifies this
      ensures score == old(score) + Score(spec, Splits(n))
      ensures hasChannel == (old(hasChannel) || Shows(spec, Splits(n)))
      decreases n
    {
      match n
      case Split(d, _, _) =>
        score := score + 2;
        if d.channelName == spec {
          hasChannel := true;
          if d.filters != [] {
            score := score + 1;
          }
        }
        ShowsLast(spec, [], d);
        assert [] + [d] == [d] && [d][..0] == [] && Filtered(spec, []) == 0;
      case Container(_, _, _, items) =>
        for i := 0 to |items|
          invariant score == old(score) + Score(spec, SplitsOf(items[..i]))
          invariant hasChannel == (old(hasChannel) || Shows(spec, SplitsOf(items[..i])))
        {
          Visit(items[i]);
          assert items[..i + 1][..i] == items[..i];
          ScoreAppend(spec, SplitsOf(items[..i]), Splits(items[i]));
        }
        assert items[..|items|] == items;
    }
  }

  function SplitsIn(t: Tab): seq<SplitDescriptor> {
    if t.root.Some? then Splits(t.root.value) else []
  }

  predicate Has(name: string, t: Tab) {
    Shows(name, SplitsIn(t))
  }

  function TabScore(name: string, t: Tab): nat {
    Score(name, SplitsIn(t))
  }

  // Tab k is no worse than tab j, which may not show the channel at all.
  predicate NoWorse(name: string, tabs: seq<Tab>, k: int, j: int)
    requires 0 <= k < |tabs| && 0 <= j < |tabs|
  {
    Has(name, tabs[j]) ==>
      TabScore(name, tabs[k]) < TabScore(name, tabs[j]) ||
      (TabScore(name, tabs[k]) == TabScore(name, tabs[j]) && k <= j)
  }

  // Of the first n tabs, the first with the least score that shows the channel.
  ghost predicate BestOf(name: string, tabs: seq<Tab>, n: nat, k: int)
    requires n <= |tabs|
  {
    0 <= k < n && Has(name, tabs[k]) && forall j :: 0 <= j < n ==> NoWorse(name, tabs, k, j)
  }

  ghost predicate IsBest(name: string, tabs: seq<Tab>, k: int) {
    BestOf(name, tabs, |tabs|, k)
  }

  ghost predicate NoneHas(name: string, tabs: seq<Tab>, n: nat)
    requires n <= |tabs|
  {
    forall j :: 0 <= j < n ==> !Has(name, tabs[j])
  }

  function NewTab(name: string): Tab {
    var d := SplitDescriptor("twitch", name, false, -1, false, "", None, Hidden(false, false, false), [],
                             NO_IDS, NO_VIEW);
    Tab("", "", true, true, Some(Split(d, 1.0, 1.0)))
  }

  function NewWindow(name: string): Window {
    Window(Main, NoState, Rect(-1, -1, -1, -1), None, [NewTab(name)])
  }

  ghost predicate SelectsOnly(tabs: seq<Tab>, after: seq<Tab>, k: int) {
    |after| == |tabs| && forall i :: 0 <= i < |tabs| ==> after[i] == tabs[i].(selected := i == k)
  }

  // What becomes of the tabs of the main window.
  ghost predicate Activated(name: string, tabs: seq<Tab>, after: seq<Tab>) {
    if NoneHas(name, tabs, |tabs|) then
      |after| == |tabs| + 1 && SelectsOnly(tabs, after[..|tabs|], -1) && after[|tabs|] == NewTab(name)
    else
      exists k :: IsBest(name, tabs, k) && SelectsOnly(tabs, after, k)
  }

  ghost predicate IsFirstMain(windows: seq<Window>, m: int) {
    && 0 <= m < |windows|
    && windows[m].kind == Main
    && forall i :: 0 <= i < m ==> windows[i].kind != Main
  }

  predicate Refused(provider: Provider, name: string) {
    provider != Twitch || (name != "" && (name[0] == '/' || name[0] == '$'))
  }

  // What activating a channel makes of a layout.
  ghost predicate Activates(provider: Provider, name: string, before: seq<Window>, after: seq<Window>) {
    if Refused(provider, name) then after == before
    else if m :| IsFirstMain(before, m) then
      && |after| == |before|
      && after == before[m := before[m].(tabs := after[m].tabs)]
      && Activated(name, before[m].tabs, after[m].tabs)
    else after == before + [NewWindow(name)]
  }

  class WindowLayout {
    var windows: seq<Window>

    constructor (windows: seq<Window>)
      ensures this.windows == windows
    {
      this.windows := windows;
    }

    method ActivateOrAddChannel(provider: Provider, name: string)
      modifies this
      ensures Activates(provider, name, old(windows), windows)
    {
      if provider != Twitch || (name != "" && (name[0] == '/' || name[0] == '$')) {
        return;
      }
      var m := 0;
      while m < |windows| && windows[m].kind != Main
        invariant 0 <= m <= |windows| && forall i :: 0 <= i < m ==> windows[i].kind != Main
      {
        m := m + 1;
      }
      if m == |windows| {
        windows := windows + [NewWindow(name)];
        return;
      }
      assert IsFirstMain(windows, m);
      FirstMainIsUnique(windows);
      var tabs := ActivatedTabs(name, windows[m].tabs);
      windows := windows[m := windows[m].(tabs := tabs)];
    }
  }

  lemma FirstMainIsUnique(windows: seq<Window>)
    ensures forall m, n :: IsFirstMain(windows, m) && IsFirstMain(windows, n) ==> m == n
  {
  }

  ghost predicate BestSoFar(name: string, tabs: seq<Tab>, n: nat, best: Option<nat>)
    requires n <= |tabs|
  {
    if best.None? then NoneHas(name, tabs, n) else BestOf(name, tabs, n, best.value)
  }

  lemma NextBest(name: string, tabs: seq<Tab>, i: nat, best: Option<nat>)
    requires i < |tabs| && BestSoFar(name, tabs, i, best)
    ensures var better := Has(name, tabs[i]) &&
                          (best.None? || TabScore(name, tabs[i]) < TabScore(name, tabs[best.value]));
            BestSoFar(name, tabs, i + 1, if better then Some(i) else best)
  {
    var better := Has(name, tabs[i]) &&
                  (best.None? || TabScore(name, tabs[i]) < TabScore(name, tabs[best.value]));
    var k := if better then i else if best.Some? then best.value else 0;
    if better || best.Some? {
      forall j | 0 <= j < i + 1 ensures NoWorse(name, tabs, k, j) {
        assert best.Some? && j < i ==> NoWorse(name, tabs, best.value, j);
      }
    }
  }

  // The tabs with the one of the channel selected.
  method ActivatedTabs(name: string, tabs: seq<Tab>) returns (after: seq<Tab>)
    ensures Activated(name, tabs, after)
  {
    after := tabs;
    var bestTab: Option<nat> := None;
    var bestScore := 0;
    for i := 0 to |tabs|
      invariant |after| == |tabs|
      invariant forall j :: 0 <= j < i ==> after[j] == tabs[j].(selected := false)
      invariant forall j :: i <= j < |tabs| ==> after[j] == tabs[j]
      invariant BestSoFar(name, tabs, i, bestTab)
      invariant bestTab.Some? ==> bestScore == TabScore(name, tabs[bestTab.value])
    {
      NextBest(name, tabs, i, bestTab);
      after := after[i := after[i].(selected := false)];
      if tabs[i].root.Some? {
        var visitor := new Visitor(name);
        visitor.Visit(tabs[i].root.value);
        if visitor.hasChannel && (bestTab.None? || visitor.score < bestScore) {
          bestTab := Some(i);
          bestScore := visitor.score;
        }
      }
    }
    if bestTab.Some? {
      after := after[bestTab.value := after[bestTab.value].(selected := true)];
      assert IsBest(name, tabs, bestTab.value) && SelectsOnly(tabs, after, bestTab.value);
    } else {
      after := after + [NewTab(name)];
      assert after[..|tabs|] + [NewTab(name)] == after;
    }
  }

  lemma NewTabHas(name: string)
    ensures Has(name, NewTab(name)) && NewTab(name).selected
  {
    assert SplitsIn(NewTab(name))[0].channelName == name;
  }

  // Afterwards one tab of the main window is selected, and it shows the channel.
  lemma OneTabIsSelected(name: string, tabs: seq<Tab>, after: seq<Tab>) returns (k: int)
    requires Activated(name, tabs, after)
    ensures 0 <= k < |after| && IsBest(name, after, k) && SelectsOnly(after, after, k)
  {
    if NoneHas(name, tabs, |tabs|) {
      k := |tabs|;
      NewTabHas(name);
      forall i | 0 <= i < |tabs| ensures !Has(name, after[i]) && !after[i].selected {
        assert after[i] == after[..|tabs|][i];
        assert SplitsIn(after[i]) == SplitsIn(tabs[i]);
      }
    } else {
      k :| IsBest(name, tabs, k) && SelectsOnly(tabs, after, k);
      BestKeeps(name, tabs, after, k);
    }
  }

  lemma BestKeeps(name: string, tabs: seq<Tab>, after: seq<Tab>, k: int)
    requires IsBest(name, tabs, k) && SelectsOnly(tabs, after, k)
    ensures IsBest(name, after, k)
  {
    forall i | 0 <= i < |tabs| ensures SplitsIn(after[i]) == SplitsIn(tabs[i]) {
    }
    forall j | 0 <= j < |after| ensures NoWorse(name, after, k, j) {
      assert NoWorse(name, tabs, k, j);
    }
  }

  lemma BestIsUnique(name: string, tabs: seq<Tab>, j: int, k: int)
    requires IsBest(name, tabs, j) && IsBest(name, tabs, k)
    ensures j == k
  {
    assert NoWorse(name, tabs, j, k) && NoWorse(name, tabs, k, j);
  }

  // Activating the channel once more changes nothing.
  lemma ActivatedTwice(name: string, tabs: seq<Tab>, after: seq<Tab>, again: seq<Tab>)
    requires Activated(name, tabs, after) && Activated(name, after, again)
    ensures again == after
  {
    var k := OneTabIsSelected(name, tabs, after);
    assert Has(name, after[k]);
    var j :| IsBest(name, after, j) && SelectsOnly(after, again, j);
    BestIsUnique(name, after, j, k);
  }

  lemma ActivatesTwice(provider: Provider, name: string, a: seq<Window>, b: seq<Window>, c: seq<Window>)
    requires Activates(provider, name, a, b) && Activates(provider, name, b, c)
    ensures c == b
  {
    if !Refused(provider, name) {
      FirstMainIsUnique(a);
      FirstMainIsUnique(b);
      if m :| IsFirstMain(a, m) {
        assert IsFirstMain(b, m);
        ActivatedTwice(name, a[m].tabs, b[m].tabs, c[m].tabs);
      } else {
        var m := |a|;
        FirstMainIsLast(a, name);
        OnlyTab(name, c[m].tabs);
      }
    }
  }

  lemma FirstMainIsLast(windows: seq<Window>, name: string)
    requires forall m :: !IsFirstMain(windows, m)
    ensures IsFirstMain(windows + [NewWindow(name)], |windows|)
  {
    NoMain(windows, |windows|);
  }

  lemma {:induction false} NoMain(windows: seq<Window>, n: nat)
    requires n <= |windows| && forall m :: !IsFirstMain(windows, m)
    ensures forall i :: 0 <= i < n ==> windows[i].kind != Main
  {
    if n > 0 {
      NoMain(windows, n - 1);
      assert !IsFirstMain(windows, n - 1);
    }
  }

  lemma OnlyTab(name: string, again: seq<Tab>)
    requires Activated(name, [NewTab(name)], again)
    ensures again == [NewTab(name)]
  {
    NewTabHas(name);
    assert Has(name, [NewTab(name)][0]);
  }

  // The splits that show the channel through filters.
  function FilteredSplits(name: string, splits: seq<SplitDescriptor>): set<int> {
    set i | 0 <= i < |splits| && splits[i].channelName == name && splits[i].filters != []
  }

  lemma FilteredMore(name: string, init: seq<SplitDescriptor>, d: SplitDescriptor)
    ensures FilteredSplits(name, init + [d]) ==
            FilteredSplits(name, init) + if d.channelName == name && d.filters != [] then {|init|} else {}
  {
    var s := init + [d];
    assert forall i :: 0 <= i < |init| ==> s[i] == init[i];
    assert s[|init|] == d;
  }

  // The score of a tab: two for each split, and one more for each split that
  // shows the channel through filters.
  lemma {:induction false} ScoreCounts(name: string, splits: seq<SplitDescriptor>)
    ensures Score(name, splits) == 2 * |splits| + |FilteredSplits(name, splits)|
  {
    if splits != [] {
      var init, d := splits[..|splits| - 1], splits[|splits| - 1];
      SplitLast(splits);
      ScoreCounts(name, init);
      FilteredMore(name, init, d);
      assert |init| !in FilteredSplits(name, init);
    }
  }

  // The splits of a container are those of its items, one after the other.
  lemma {:induction false} SplitsInOrder(h: real, v: real, vertical: bool, a: seq<Node>, b: seq<Node>)
    ensures Splits(Container(h, v, vertical, a + b)) ==
            Splits(Container(h, v, vertical, a)) + Splits(Container(h, v, vertical, b))
  {
    if b == [] {
      assert a + b == a;
    } else {
      var init, last := b[..|b| - 1], b[|b| - 1];
      SplitsInOrder(h, v, vertical, a, init);
      assert (a + b)[..|a + b| - 1] == a + init;
      assert SplitsOf(a) + (SplitsOf(init) + Splits(last)) == SplitsOf(a) + SplitsOf(init) + Splits(last);
    }
  }

  // Only Twitch channels are activated, and no special ones.
  lemma OnlyTwitchChannels(provider: Provider, name: string, before: seq<Window>, after: seq<Window>)
    requires Activates(provider, name, before, after)
    requires provider != Twitch || (name != "" && name[0] in {'/', '$'})
    ensures after == before
  {
  }

  // Otherwise there is a main window afterwards, of whose tabs exactly one is
  // selected, and it shows the channel; all other windows are as before.
  lemma ChannelIsActive(name: string, before: seq<Window>, after: seq<Window>) returns (m: nat, k: nat)
    requires Activates(Twitch, name, before, after) && !(name != "" && name[0] in {'/', '$'})
    ensures m < |after| && after[m].kind == Main && (forall i :: 0 <= i < m ==> after[i].kind != Main)
    ensures k < |after[m].tabs| && after[m].tabs[k].root.Some?
    ensures exists d :: d in Splits(after[m].tabs[k].root.value) && d.channelName == name
    ensures forall i :: 0 <= i < |after[m].tabs| ==> (after[m].tabs[i].selected <==> i == k)
    ensures forall i :: 0 <= i < |before| && i != m ==> i < |after| && after[i] == before[i]
  {
    FirstMainIsUnique(before);
    if i :| IsFirstMain(before, i) {
      m := i;
      k := OneTabIsSelected(name, before[m].tabs, after[m].tabs);
      assert forall j :: 0 <= j < |before| && j != m ==> after[j] == before[j];
    } else {
      m, k := |before|, 0;
      NoMain(before, |before|);
      NewTabHas(name);
    }
    var t := after[m].tabs[k];
    var j :| 0 <= j < |SplitsIn(t)| && SplitsIn(t)[j].channelName == name;
    assert SplitsIn(t)[j] in Splits(t.root.value);
  }

  // ----- which tab it is -----

  predicate ShowsChannel(name: string, t: Tab) {
    t.root.Some? && exists d :: d in Splits(t.root.value) && d.channelName == name
  }

  lemma ShowsExactly(name: string, t: Tab)
    ensures Has(name, t) <==> ShowsChannel(name, t)
  {
    if Has(name, t) {
      var i :| 0 <= i < |SplitsIn(t)| && SplitsIn(t)[i].channelName == name;
      assert SplitsIn(t)[i] in Splits(t.root.value);
    }
    if ShowsChannel(name, t) {
      var d :| d in Splits(t.root.value) && d.channelName == name;
      assert exists i :: 0 <= i < |SplitsIn(t)| && SplitsIn(t)[i] == d;
    }
  }

  // Two for each split, and one more for each that shows the channel through filters.
  function Cost(name: string, n: Node): nat {
    2 * |Splits(n)| + |FilteredSplits(name, Splits(n))|
  }

  // The selected tab shows the channel at the least cost, and is the first of
  // those; no tab changes otherwise.
  lemma SelectedIsLeast(name: string, before: seq<Window>, after: seq<Window>, m: nat, j: nat) returns (k: nat)
    requires Activates(Twitch, name, before, after) && !(name != "" && name[0] in {'/', '$'})
    requires m < |before| && before[m].kind == Main && forall i :: 0 <= i < m ==> before[i].kind != Main
    requires j < |before[m].tabs| && ShowsChannel(name, before[m].tabs[j])
    ensures |after| == |before| && |after[m].tabs| == |before[m].tabs|
    ensures forall i :: 0 <= i < |after[m].tabs| ==> after[m].tabs[i] == before[m].tabs[i].(selected := i == k)
    ensures k < |before[m].tabs| && ShowsChannel(name, before[m].tabs[k])
    ensures var (best, other) := (Cost(name, before[m].tabs[k].root.value), Cost(name, before[m].tabs[j].root.value));
            best < other || (best == other && k <= j)
  {
    var tabs := before[m].tabs;
    FirstMainIsUnique(before);
    assert IsFirstMain(before, m);
    ShowsExactly(name, tabs[j]);
    k :| IsBest(name, tabs, k) && SelectsOnly(tabs, after[m].tabs, k);
    ShowsExactly(name, tabs[k]);
    assert NoWorse(name, tabs, k, j);
    ScoreCounts(name, Splits(tabs[k].root.value));
    ScoreCounts(name, Splits(tabs[j].root.value));
  }

  // A tab with a single split of the channel, which is as any new split.
  predicate IsNewTab(name: string, t: Tab) {
    && t.selected && t.highlights && t.title == "" && t.colour == ""
    && t.root.Some? && t.root.value.Split?
    && var d := t.root.value.split;
      && d.kind == "twitch" && d.channelName == name && d.filters == []
      && !d.anonymous && d.server == -1 && !d.moderationMode && d.autoModChannel == "" && d.spellCheck.None?
      && d.hidden == Hidden(false, false, false)
  }

  // A channel that no tab shows gets one at the end.
  lemma TabIsAdded(name: string, before: seq<Window>, after: seq<Window>, m: nat)
    requires Activates(Twitch, name, before, after) && !(name != "" && name[0] in {'/', '$'})
    requires m < |before| && before[m].kind == Main && forall i :: 0 <= i < m ==> before[i].kind != Main
    requires forall j :: 0 <= j < |before[m].tabs| ==> !ShowsChannel(name, before[m].tabs[j])
    ensures |after| == |before| && |after[m].tabs| == |before[m].tabs| + 1
    ensures forall i :: 0 <= i < |before[m].tabs| ==> after[m].tabs[i] == before[m].tabs[i].(selected := false)
    ensures IsNewTab(name, after[m].tabs[|before[m].tabs|])
  {
    var tabs := before[m].tabs;
    FirstMainIsUnique(before);
    assert IsFirstMain(before, m);
    forall j | 0 <= j < |tabs| ensures !Has(name, tabs[j]) {
      ShowsExactly(name, tabs[j]);
    }
    forall i | 0 <= i < |tabs| ensures after[m].tabs[i] == tabs[i].(selected := false) {
      assert after[m].tabs[..|tabs|][i] == after[m].tabs[i];
    }
  }

  // Without a main window, one with this tab is added.
  lemma WindowIsAdded(name: string, before: seq<Window>, after: seq<Window>)
    requires Activates(Twitch, name, before, after) && !(name != "" && name[0] in {'/', '$'})
    requires forall i :: 0 <= i < |before| ==> before[i].kind != Main
    ensures |after| == |before| + 1 && after[..|before|] == before
    ensures var w := after[|before|];
            w.kind == Main && w.state == NoState && w.popupId.None? && |w.tabs| == 1 && IsNewTab(name, w.tabs[0])
  {
  }
}
