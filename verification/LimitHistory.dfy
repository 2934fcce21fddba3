// The effect of every change of a channel's message limit
// (src/common/Channel.cpp).

module LimitHistory {
  import opened Messages
  import opened Sequences

  // Everything about a channel's history that its limit governs.  removed
  // lists the calls of messageRemovedFromStart.
  datatype History = History(
    limit: nat, defaultLimit: nat, raised: bool,
    items: seq<Message>, removed: seq<Message>)
  {
    predicate Valid() {
      && 1 <= defaultLimit <= limit
      && (!raised ==> limit == defaultLimit)
      && |items| <= limit
    }
  }

  datatype Step = Add(m: Message) | AddAtStart(ms: seq<Message>) | Grow(slots: nat) | Reset

  function Do(h: History, s: Step): History
    requires h.Valid()
  {
    match s
    case Add(m) =>
      if |h.items| < h.limit then h.(items := h.items + [m])
      else if h.raised then h.(limit := h.limit + 1, items := h.items + [m])
      else h.(items := h.items[1..] + [m], removed := h.removed + [h.items[0]])
    case AddAtStart(ms) =>
      h.(items := LastN(ms, h.limit - |h.items|) + h.items)
    case Grow(slots) =>
      if slots == 0 then h else h.(limit := h.limit + slots, raised := true)
    case Reset =>
      if !h.raised then h
      else
        var kept := LastN(h.items, h.defaultLimit);
        h.(limit := h.defaultLimit, raised := false, items := kept,
           removed := h.removed + h.items[..|h.items| - |kept|])
  }

  function AtStart(h: History, s: Step): seq<Message>
    requires h.Valid()
  {
    if s.AddAtStart? then LastN(s.ms, h.limit - |h.items|) else []
  }

  // What is signalled, apart from the removals.
  datatype Signal =
    | MessageAppended(m: Message)
    | LimitGrown(slots: nat)
    | LimitReset
    | AddedAtStart(ms: seq<Message>)
    | FilledIn(ms: seq<Message>)
    | MessageReplaced(index: nat, m: Message, replacement: Message)

  function Emitted(h: History, s: Step): seq<Signal>
    requires h.Valid()
  {
    match s
    case Add(m) => (if h.raised && |h.items| == h.limit then [LimitGrown(1)] else []) + [MessageAppended(m)]
    case AddAtStart(_) => if AtStart(h, s) == [] then [] else [AddedAtStart(AtStart(h, s))]
    case Grow(slots) => if slots == 0 then [] else [LimitGrown(slots)]
    case Reset => if h.raised then [LimitReset] else []
  }

  function Appended(s: Step): seq<Message> {
    if s.Add? then [s.m] else []
  }

  // Every step keeps the bounds and accounts for every message in order.
  lemma StepResult(h: History, s: Step)
    requires h.Valid()
    ensures Do(h, s).Valid()
    ensures h.removed <= Do(h, s).removed
    ensures Do(h, s).removed[|h.removed|..] + Do(h, s).items == AtStart(h, s) + h.items + Appended(s)
    ensures h.raised && !s.Reset? ==> Do(h, s).removed == h.removed && Do(h, s).raised
  {
    if s.Reset? && h.raised {
      var kept := LastN(h.items, h.defaultLimit);
      assert h.items == h.items[..|h.items| - |kept|] + kept;
    } else if s.Add? && |h.items| == h.limit && !h.raised {
      assert h.items == [h.items[0]] + h.items[1..];
    }
  }

  function Run(h: History, steps: seq<Step>): History
    requires h.Valid()
    ensures Run(h, steps).Valid()
    decreases |steps|
  {
    if steps == [] then h
    else
      StepResult(h, steps[0]);
      Run(Do(h, steps[0]), steps[1..])
  }

  // The messages a whole run appends, and those it adds at the start, with the
  // latest at the front.
  function AllAppended(steps: seq<Step>): seq<Message> {
    if steps == [] then [] else Appended(steps[0]) + AllAppended(steps[1..])
  }

  function AllAtStart(h: History, steps: seq<Step>): seq<Message>
    requires h.Valid()
    decreases |steps|
  {
    if steps == [] then []
    else
      StepResult(h, steps[0]);
      AllAtStart(Do(h, steps[0]), steps[1..]) + AtStart(h, steps[0])
  }

  // Over any run nothing is lost and nothing is reported twice.
  lemma {:induction false} RunConserves(h: History, steps: seq<Step>)
    requires h.Valid()
    ensures var r := Run(h, steps);
            multiset(r.removed) + multiset(r.items) ==
            multiset(h.removed) + multiset(h.items) +
            multiset(AllAtStart(h, steps)) + multiset(AllAppended(steps))
    decreases |steps|
  {
    if steps != [] {
      StepConserves(h, steps[0]);
      RunConserves(Do(h, steps[0]), steps[1..]);
    }
  }

  lemma StepConserves(h: History, s: Step)
    requires h.Valid()
    ensures multiset(Do(h, s).removed) + multiset(Do(h, s).items) ==
            multiset(h.removed) + multiset(h.items) + multiset(AtStart(h, s)) + multiset(Appended(s))
  {
    StepResult(h, s);
    SameCounts(h.removed, Do(h, s).removed, Do(h, s).items, AtStart(h, s), h.items, Appended(s));
  }

  lemma SameCounts(r: seq<Message>, r': seq<Message>, items': seq<Message>,
                   a: seq<Message>, items: seq<Message>, b: seq<Message>)
    requires r <= r' && r'[|r|..] + items' == a + items + b
    ensures multiset(r') + multiset(items') == multiset(r) + multiset(items) + multiset(a) + multiset(b)
  {
    var d := r'[|r|..];
    assert r' == r + d;
    assert multiset(d + items') == multiset(d) + multiset(items');
    assert multiset(a + items + b) == multiset(a) + multiset(items) + multiset(b);
    assert multiset(r') + multiset(items') == multiset(r) + (multiset(d) + multiset(items'));
  }

  lemma Around(a: seq<Message>, b: seq<Message>, c: seq<Message>, d: seq<Message>, e: seq<Message>)
    ensures a + (b + c + d) + e == (a + b) + c + (d + e)
  {
  }

  // While the limit is raised nothing is evicted: until the next reset the
  // history is what was added at the start, the old history and what was
  // appended, without a gap.
  lemma {:induction false} RaisedRunKeepsEverything(h: History, steps: seq<Step>)
    requires h.Valid() && h.raised
    requires forall s :: s in steps ==> !s.Reset?
    ensures var r := Run(h, steps);
            r.raised && r.removed == h.removed &&
            r.items == AllAtStart(h, steps) + h.items + AllAppended(steps)
    decreases |steps|
  {
    if steps != [] {
      var s := steps[0];
      StepResult(h, s);
      var n := Do(h, s);
      RaisedRunKeepsEverything(n, steps[1..]);
      assert n.items == AtStart(h, s) + h.items + Appended(s);
      Around(AllAtStart(n, steps[1..]), AtStart(h, s), h.items, Appended(s), AllAppended(steps[1..]));
    }
  }

  // With the limit at its default, any number of appended messages leaves
  // exactly the newest ones, and the others were reported oldest first.
  lemma {:induction false} DefaultRunKeepsNewest(h: History, steps: seq<Step>)
    requires h.Valid() && !h.raised
    requires forall s :: s in steps ==> s.Add?
    ensures var r := Run(h, steps);
            && r.items == LastN(h.items + AllAppended(steps), h.limit)
            && r.removed + r.items == h.removed + h.items + AllAppended(steps)
            && r.limit == h.limit
    decreases |steps|
  {
    if steps == [] {
      assert h.items + AllAppended(steps) == h.items;
    } else {
      DefaultRunKeepsNewest(Do(h, steps[0]), steps[1..]);
      AddAtDefault(h, steps[0].m, AllAppended(steps[1..]));
    }
  }

  lemma AddAtDefault(h: History, m: Message, rest: seq<Message>)
    requires h.Valid() && !h.raised
    ensures var n := Do(h, Add(m));
            && LastN(n.items + rest, h.limit) == LastN(h.items + ([m] + rest), h.limit)
            && n.removed + n.items + rest == h.removed + h.items + ([m] + rest)
  {
    var items, n := h.items, Do(h, Add(m));
    Regroup(items, [m], rest);
    Regroup(h.removed, items, [m] + rest);
    Regroup(h.removed, n.items, rest);
    if |items| == h.limit {
      FirstGoes(items, m, rest, h.limit);
      Regroup(h.removed, [items[0]], n.items + rest);
    }
  }

  lemma FirstGoes(items: seq<Message>, m: Message, rest: seq<Message>, limit: nat)
    requires 1 <= limit == |items|
    ensures items + ([m] + rest) == [items[0]] + (items[1..] + [m] + rest)
    ensures LastN(items[1..] + [m] + rest, limit) == LastN(items + ([m] + rest), limit)
  {
    var all, less := items + ([m] + rest), items[1..] + [m] + rest;
    assert all == [items[0]] + less;
    assert all[|all| - limit..] == less[|less| - limit..];
  }

  // What a listener hears of the messages added in front, behind, and of the
  // limit.
  function HeardInFront(signals: seq<Signal>): seq<Message> {
    if signals == [] then []
    else
      var last := signals[|signals| - 1];
      (if last.AddedAtStart? then last.ms else []) + HeardInFront(signals[..|signals| - 1])
  }

  function HeardBehind(signals: seq<Signal>): seq<Message> {
    if signals == [] then []
    else
      var last := signals[|signals| - 1];
      HeardBehind(signals[..|signals| - 1]) + if last.MessageAppended? then [last.m] else []
  }

  function HeardLimit(limit: nat, defaultLimit: nat, signals: seq<Signal>): nat {
    if signals == [] then limit
    else
      var before := HeardLimit(limit, defaultLimit, signals[..|signals| - 1]);
      match signals[|signals| - 1]
      case LimitGrown(slots) => before + slots
      case LimitReset => defaultLimit
      case _ => before
  }

  // The signals and the number of removals tell a listener the whole history
  // and its limit.
  lemma SignalsTellAll(h: History, s: Step)
    requires h.Valid()
    ensures Do(h, s).Valid()
    ensures var e, n := Emitted(h, s), Do(h, s);
      && |h.removed| <= |n.removed|
      && var all := HeardInFront(e) + h.items + HeardBehind(e);
         && |n.removed| - |h.removed| <= |all|
         && n.items == all[|n.removed| - |h.removed|..]
    ensures Do(h, s).limit == HeardLimit(h.limit, h.defaultLimit, Emitted(h, s))
  {
    StepResult(h, s);
    var e := Emitted(h, s);
    HeardOf(h, s);
    var gone := Do(h, s).removed[|h.removed|..];
    var all := HeardInFront(e) + h.items + HeardBehind(e);
    assert gone + Do(h, s).items == all;
    assert all[|gone|..] == Do(h, s).items;
  }

  lemma HeardOf(h: History, s: Step)
    requires h.Valid()
    ensures HeardInFront(Emitted(h, s)) == AtStart(h, s) && HeardBehind(Emitted(h, s)) == Appended(s)
    ensures Do(h, s).limit == HeardLimit(h.limit, h.defaultLimit, Emitted(h, s))
  {
    match s
    case Add(m) =>
      HeardOne(MessageAppended(m), h.limit, h.defaultLimit);
      HeardOne(LimitGrown(1), h.limit, h.defaultLimit);
      HeardMore([LimitGrown(1)], MessageAppended(m), h.limit, h.defaultLimit);
      NothingBehind([MessageAppended(m)]);
    case AddAtStart(_) => HeardOne(AddedAtStart(AtStart(h, s)), h.limit, h.defaultLimit);
    case Grow(slots) => HeardOne(LimitGrown(slots), h.limit, h.defaultLimit);
    case Reset => HeardOne(LimitReset, h.limit, h.defaultLimit);
  }

  lemma HeardOne(x: Signal, limit: nat, defaultLimit: nat)
    ensures HeardInFront([x]) == if x.AddedAtStart? then x.ms else []
    ensures HeardBehind([x]) == if x.MessageAppended? then [x.m] else []
    ensures HeardLimit(limit, defaultLimit, [x]) ==
            match x
            case LimitGrown(slots) => limit + slots
            case LimitReset => defaultLimit
            case _ => limit
  {
    HeardMore([], x, limit, defaultLimit);
    NothingBehind([x]);
  }

  lemma HeardMore(before: seq<Signal>, last: Signal, limit: nat, defaultLimit: nat)
    ensures HeardInFront(before + [last]) ==
            (if last.AddedAtStart? then last.ms else []) + HeardInFront(before)
    ensures HeardBehind(before + [last]) == HeardBehind(before) + if last.MessageAppended? then [last.m] else []
    ensures HeardLimit(limit, defaultLimit, before + [last]) ==
            match last
            case LimitGrown(slots) => HeardLimit(limit, defaultLimit, before) + slots
            case LimitReset => defaultLimit
            case _ => HeardLimit(limit, defaultLimit, before)
  {
    assert (before + [last])[..|before|] == before;
  }

  // Growing adds exactly the slots asked for; what is added at the start are the
  // last of the given messages, all of them or as many as there is room for.
  lemma GrownAndAdded(h: History, slots: nat, ms: seq<Message>)
    requires h.Valid()
    ensures Do(h, Grow(slots)).limit == h.limit + slots
    ensures Do(h, Grow(slots)).raised <==> h.raised || slots > 0
    ensures var n := Do(h, AddAtStart(ms));
            exists k :: 0 <= k <= |ms| && n.items == ms[k..] + h.items && (k == 0 || |n.items| == h.limit)
  {
    var room := h.limit - |h.items|;
    var k := if |ms| <= room then 0 else |ms| - room;
    assert ms[0..] == ms;
    assert Do(h, AddAtStart(ms)).items == ms[k..] + h.items;
  }
}
