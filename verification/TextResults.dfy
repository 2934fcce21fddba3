// What a reader sees of words, emotes, modifiers and breaks
// (src/messages/MessageBuilder.cpp).

module TextResults {
  import opened Options
  import opened Sequences
  import opened MessageElements
  import opened TextBuilding

  // ----- zero-width emotes -----

  predicate IsZeroWidth(env: Env, z: Emote) {
    IsKnown(env, z) && z.zeroWidth && z.placement == NoPlacement
  }

  predicate AreZeroWidth(env: Env, zs: seq<Emote>) {
    forall i :: 0 <= i < |zs| ==> IsZeroWidth(env, zs[i])
  }

  lemma OverFirst(zs: seq<Emote>)
    requires zs != []
    ensures Over(zs) == Over([zs[0]]) + Over(zs[1..])
  {
  }

  // The elements of emotes that stand for themselves.
  function OwnElements(zs: seq<Emote>): (r: seq<Element>)
    ensures |r| == |zs|
  {
    seq(|zs|, i requires 0 <= i < |zs| => EmoteElement(zs[i], {EmoteImage, EmoteText}, false, true))
  }

  lemma OwnFirst(zs: seq<Emote>)
    requires zs != []
    ensures OwnElements(zs) == [EmoteElement(zs[0], {EmoteImage, EmoteText}, false, true)] + OwnElements(zs[1..])
  {
  }

  lemma ZeroWidthInput(env: Env, st: State, z: Emote)
    requires IsZeroWidth(env, z) && st.pending == []
    ensures WithInput(env, st, TextInput(z.name)) == WithPlainEmote(env, st, z)
  {
    NothingBehind(st.elements);
    assert TextsOf(env, []) == [];
  }

  // Nothing that could carry another emote.
  predicate CarriesNothing(st: State) {
    st.elements == [] || !(st.Last().EmoteElement? || st.Last().LayeredEmoteElement?)
  }

  // Without the setting, or with nothing to lie over, the emote stands for itself.
  lemma StandsForItself(env: Env, st: State, z: Emote)
    requires IsZeroWidth(env, z) && st.pending == []
    requires !env.zeroWidthEmotes || CarriesNothing(st)
    ensures WithInput(env, st, TextInput(z.name)) ==
            State(st.elements + [EmoteElement(z, {EmoteImage, EmoteText}, false, true)], [])
  {
    ZeroWidthInput(env, st, z);
  }

  lemma {:induction false} EachStandsForItself(env: Env, st: State, zs: seq<Emote>)
    requires AreZeroWidth(env, zs) && st.pending == [] && !env.zeroWidthEmotes
    ensures WithInputs(env, st, Words(zs)) == State(st.elements + OwnElements(zs), [])
    decreases |zs|
  {
    if zs == [] {
      NothingBehind(st.elements);
    } else {
      var z, rest := zs[0], zs[1..];
      WordsStep(zs);
      RunStep(env, st, TextInput(z.name), Words(rest));
      StandsForItself(env, st, z);
      var e := EmoteElement(z, {EmoteImage, EmoteText}, false, true);
      EachStandsForItself(env, State(st.elements + [e], []), rest);
      OwnFirst(zs);
      Regroup(st.elements, [e], OwnElements(rest));
    }
  }

  // The state ends with one element of these layers, modifiers and tokens.
  predicate EndsWithLayers(st: State, before: seq<Element>, layers: seq<Layer>, ms: seq<Emote>, tokens: seq<Emote>,
                           flags: set<Flag>, trailing: bool)
  {
    && st.pending == [] && |st.elements| == |before| + 1 && st.elements[..|before|] == before
    && st.Last().LayeredEmoteElement?
    && st.Last().layers == layers && Modifiers(st.Last()) == ms && LayeredTokens(st.Last()) == tokens
    && st.Last().flags == flags && st.Last().trailingSpace == trailing
  }

  lemma LiesOverLayers(env: Env, st: State, before: seq<Element>, layers: seq<Layer>,
                       ms: seq<Emote>, tokens: seq<Emote>, flags: set<Flag>, trailing: bool, z: Emote)
    requires env.zeroWidthEmotes && IsZeroWidth(env, z)
    requires EndsWithLayers(st, before, layers, ms, tokens, flags, trailing)
    ensures EndsWithLayers(WithInput(env, st, TextInput(z.name)), before, layers + Over([z]), ms, tokens + [z],
                           flags + {EmoteImage, EmoteText}, trailing)
  {
    ZeroWidthInput(env, st, z);
    assert Over([z]) == [Layer(z, EMOTE)];
    assert Emotes(layers + [Layer(z, EMOTE)]) == Emotes(layers) + [z];
    var last := |st.elements| - 1;
    assert st.elements[..last] == before;
  }

  lemma {:induction false} AllLieOverLayers(env: Env, st: State, before: seq<Element>, layers: seq<Layer>,
                                            ms: seq<Emote>, tokens: seq<Emote>,
                                            flags: set<Flag>, trailing: bool, zs: seq<Emote>)
    requires env.zeroWidthEmotes && AreZeroWidth(env, zs)
    requires EndsWithLayers(st, before, layers, ms, tokens, flags, trailing)
    ensures EndsWithLayers(WithInputs(env, st, Words(zs)), before, layers + Over(zs), ms, tokens + zs,
                           if zs == [] then flags else flags + {EmoteImage, EmoteText}, trailing)
    decreases |zs|
  {
    if zs == [] {
      NothingBehind(layers);
      NothingBehind(tokens);
    } else {
      var z, rest := zs[0], zs[1..];
      WordsStep(zs);
      SplitFirst(zs);
      RunStep(env, st, TextInput(z.name), Words(rest));
      LiesOverLayers(env, st, before, layers, ms, tokens, flags, trailing, z);
      AllLieOverLayers(env, WithInput(env, st, TextInput(z.name)), before, layers + Over([z]), ms, tokens + [z],
                       flags + EMOTE, trailing, rest);
      assert flags + EMOTE + EMOTE == flags + EMOTE;
      OverFirst(zs);
      Regroup(layers, Over([z]), Over(rest));
      Regroup(tokens, [z], rest);
    }
  }

  // An emote of any kind is the bottom layer of what is laid over it.
  lemma AllLieOverEmote(env: Env, st: State, zs: seq<Emote>)
    requires env.zeroWidthEmotes && AreZeroWidth(env, zs) && zs != []
    requires st.pending == [] && st.elements != [] && st.Last().EmoteElement?
    ensures var e := st.Last();
            EndsWithLayers(WithInputs(env, st, Words(zs)), st.elements[..|st.elements| - 1],
                           [Layer(e.emote, e.flags)] + Over(zs), [], [e.emote] + zs,
                           e.flags + {EmoteImage, EmoteText}, true)
  {
    var e, before := st.Last(), st.elements[..|st.elements| - 1];
    var z, rest := zs[0], zs[1..];
    WordsStep(zs);
    SplitFirst(zs);
    RunStep(env, st, TextInput(z.name), Words(rest));
    ZeroWidthInput(env, st, z);
    var first := [Layer(e.emote, e.flags)] + Over([z]);
    assert first == [Layer(e.emote, e.flags), Layer(z, EMOTE)];
    assert Emotes(first) == [e.emote] + [z];
    var next := WithInput(env, st, TextInput(z.name));
    assert next.elements[..|before|] == before;
    AllLieOverLayers(env, next, before, first, [], [e.emote] + [z], e.flags + EMOTE, true, rest);
    assert e.flags + EMOTE + EMOTE == e.flags + EMOTE;
    OverFirst(zs);
    Regroup([Layer(e.emote, e.flags)], Over([z]), Over(rest));
    Regroup([e.emote], [z], rest);
  }

  // With the setting, an emote with its modifiers and the zero-width emotes
  // behind it become one element: the emote at the bottom, the others over it
  // in order, and the modifiers.
  lemma ZeroWidthGroupIsOneElement(env: Env, st: State, ps: seq<Emote>, base: Emote, ss: seq<Emote>, zs: seq<Emote>)
    requires st.Valid() && st.pending == [] && env.zeroWidthEmotes
    requires AreKnown(env, ps) && IsKnown(env, base) && AreKnown(env, ss) && AreZeroWidth(env, zs) && zs != []
    requires ArePrefixes(ps) && AreSuffixes(ss) && |ps| + |ss| <= 16
    requires base.placement == NoPlacement && !base.zeroWidth
    ensures var inputs := Words(ps) + ([TextInput(base.name)] + Words(ss)) + Words(zs);
            EndsWithLayers(WithInputs(env, st, inputs), st.elements,
                           [Layer(base, {EmoteImage, EmoteText})] + Over(zs), ps + ss, ps + [base] + ss + zs,
                           {EmoteImage, EmoteText}, true)
  {
    var group := Words(ps) + ([TextInput(base.name)] + Words(ss));
    GroupBecomesOneElement(env, st, ps, base, ss);
    RunsInSequence(env, st, group, Words(zs));
    var mid := WithInputs(env, st, group);
    if |ps| + |ss| == 0 {
      AllLieOverEmote(env, mid, zs);
      assert ps + ss == [] && ps + [base] + ss == [base];
      assert mid.elements[..|mid.elements| - 1] == st.elements;
    } else {
      AllLieOverLayers(env, mid, st.elements, [Layer(base, EMOTE)], ps + ss, ps + [base] + ss, EMOTE, true, zs);
    }
  }

  // ----- prefixes that find no emote -----

  // The texts that modifiers become.
  function Texts(env: Env, ms: seq<Emote>): (r: seq<Element>)
    ensures |r| == |ms|
  {
    seq(|ms|, i requires 0 <= i < |ms| => TextElement([ms[i].name], Plain, {Text}, env.color, 0, true))
  }

  lemma TextsAppend(env: Env, a: seq<Emote>, b: seq<Emote>)
    ensures Texts(env, a + b) == Texts(env, a) + Texts(env, b)
  {
  }

  lemma WordsAppend(a: seq<Emote>, b: seq<Emote>)
    ensures Words(a + b) == Words(a) + Words(b)
  {
  }

  // The 17th prefix in a row turns all of them into text.
  lemma SeventeenPrefixesAreText(env: Env, st: State, ps: seq<Emote>)
    requires |ps| == 17 && AreKnown(env, ps) && ArePrefixes(ps) && st.pending == []
    ensures WithInputs(env, st, Words(ps)) == State(st.elements + Texts(env, ps), [])
  {
    var first, last := ps[..16], ps[16];
    SplitLast(ps);
    WordsAppend(first, [last]);
    RunsInSequence(env, st, Words(first), Words([last]));
    PrefixesWait(env, st, first);
    NothingBehind(first);
    WordsStep([last]);
    RunStep(env, State(st.elements, first), TextInput(last.name), []);
    NothingBehind(Words([last]));
    TextsAppend(env, first, [last]);
    Regroup(st.elements, Texts(env, first), Texts(env, [last]));
  }

  // The 17th modifier of an emote is a text behind it.
  lemma SeventeenthModifierIsText(env: Env, st: State, before: seq<Element>, base: Emote,
                                  ps: seq<Emote>, ss: seq<Emote>, s: Emote)
    requires EndsWithGroup(st, before, base, ps, ss) && |ps| + |ss| == 16
    requires IsKnown(env, s) && s.placement == Suffix
    ensures WithInput(env, st, TextInput(s.name)) ==
            State(st.elements + [TextElement([s.name], Plain, {Text}, env.color, 0, true)], [])
  {
    GroupTarget(st, before, base, ps, ss);
  }

  // A break, an emoji, a GIF, a gigantified or a zero-width emote: what waits
  // becomes text in front of it.
  lemma NothingWaitsBehind(env: Env, st: State, i: Input)
    requires i.Break? || i.Emoji? || i.GifInput? || (i.TwitchEmote? && i.gigantified)
    ensures var waiting := st.elements + Texts(env, st.pending);
      WithInput(env, st, i) == State(
        waiting + match i
                  case Break => []
                  case Emoji(e) => [EmoteElement(e, {EmojiImage, EmojiText}, false, true)]
                  case TwitchEmote(e, _, trailing) => [EmoteElement(e, {EmoteImage, EmoteText}, true, trailing)]
                  case GifInput(text) =>
                    if env.showGifs then [ImageElement([]), ImageElement([text])]
                    else [TextElement([text], Link, {Text}, env.color, 0, true)]
                  case _ => [],
        [])
  {
    var waiting := st.elements + Texts(env, st.pending);
    assert Texts(env, st.pending) == TextsOf(env, st.pending);
    NothingBehind(waiting);
    if i.GifInput? && env.showGifs {
      Pair(ImageElement([]), ImageElement([i.originalText]));
      Regroup(waiting, [ImageElement([])], [ImageElement([i.originalText])]);
    }
  }

  // An emote behind a break has none of the modifiers in front of it.
  lemma BreakSeparates(env: Env, st: State, ps: seq<Emote>, base: Emote)
    requires st.pending == [] && |ps| <= 16
    requires AreKnown(env, ps) && ArePrefixes(ps) && IsKnown(env, base)
    requires base.placement == NoPlacement && !base.zeroWidth
    ensures WithInputs(env, st, Words(ps) + [Break, TextInput(base.name)]) ==
            State(st.elements + Texts(env, ps) + [EmoteElement(base, {EmoteImage, EmoteText}, false, true)], [])
  {
    RunsInSequence(env, st, Words(ps), [Break, TextInput(base.name)]);
    PrefixesWait(env, st, ps);
    NothingBehind(ps);
    var waiting := State(st.elements, ps);
    Pair(Break, TextInput(base.name));
    RunStep(env, waiting, Break, [TextInput(base.name)]);
    NothingWaitsBehind(env, waiting, Break);
    var s := State(st.elements + Texts(env, ps), []);
    NothingBehind(s.elements);
    assert WithInput(env, waiting, Break) == s;
    NothingBehind([TextInput(base.name)]);
    RunStep(env, s, TextInput(base.name), []);
    assert TextsOf(env, []) == [];
  }

  // ----- suffixes -----

  predicate IsSuffix(env: Env, s: Emote) {
    IsKnown(env, s) && s.placement == Suffix
  }

  // What a suffix is attached to: an emote of ordinary size, with layers and
  // modifiers or without.
  predicate TakesSuffix(e: Element) {
    match e
    case LayeredEmoteElement(_, _, _, _) => true
    case EmoteElement(_, flags, gigantified, _) => EmoteImage in flags && !gigantified
    case _ => false
  }

  // The suffix joins the emote in front of it, which stays as it is otherwise.
  lemma SuffixJoinsEmote(env: Env, st: State, s: Emote)
    requires IsSuffix(env, s) && st.pending == [] && st.elements != [] && TakesSuffix(st.Last())
    requires st.Last().LayeredEmoteElement? ==> |Modifiers(st.Last())| < 16
    ensures var (e, before) := (st.Last(), st.elements[..|st.elements| - 1]);
            if e.EmoteElement? then
              EndsWithLayers(WithInput(env, st, TextInput(s.name)), before, [Layer(e.emote, e.flags)], [s],
                             [e.emote, s], e.flags + {EmoteImage, EmoteText}, e.trailingSpace)
            else
              EndsWithLayers(WithInput(env, st, TextInput(s.name)), before, e.layers, Modifiers(e) + [s],
                             LayeredTokens(e) + [s], e.flags, e.trailingSpace)
  {
    var e, target := st.Last(), SuffixTarget(st).value;
    if e.EmoteElement? {
      assert Emotes([Layer(e.emote, e.flags)]) == [e.emote];
      Pair(e.emote, s);
      assert [] + [s] == [s];
    }
    SuffixJoinsTarget(env, st, target, s);
  }

  lemma SuffixJoinsTarget(env: Env, st: State, target: Element, s: Emote)
    requires IsSuffix(env, s) && st.pending == [] && st.elements != []
    requires SuffixTarget(st) == Some(target) && target.LayeredEmoteElement? && |Modifiers(target)| < 16
    ensures EndsWithLayers(WithInput(env, st, TextInput(s.name)), st.elements[..|st.elements| - 1], target.layers,
                           Modifiers(target) + [s], LayeredTokens(target) + [s], target.flags, target.trailingSpace)
  {
    WithModifierResult(DataOf(target), s);
    var r, before := AddModifier(target, s), st.elements[..|st.elements| - 1];
    assert WithInput(env, st, TextInput(s.name)) == State(before + [r], []);
    FrontOf(before, r);
  }

  lemma FrontOf(before: seq<Element>, e: Element)
    ensures (before + [e])[..|before|] == before
  {
  }

  // Behind anything else it is an emote of its own.
  lemma SuffixStandsForItself(env: Env, st: State, s: Emote)
    requires IsSuffix(env, s) && !s.zeroWidth && st.pending == []
    requires st.elements == [] || !TakesSuffix(st.Last())
    ensures WithInput(env, st, TextInput(s.name)) ==
            State(st.elements + [EmoteElement(s, {EmoteImage, EmoteText}, false, true)], [])
  {
    NothingBehind(st.elements);
    assert TextsOf(env, []) == [];
  }

  // A suffix behind prefixes that wait, or a zero-width emote there, joins
  // nothing: the prefixes become text, and so does the suffix.
  lemma NothingJoinsBehindPrefixes(env: Env, st: State, m: Emote)
    requires st.pending != [] && ((IsSuffix(env, m) && st.elements != []) || IsZeroWidth(env, m))
    ensures WithInput(env, st, TextInput(m.name)) ==
            State(st.elements + Texts(env, st.pending) +
                  [if m.placement == Suffix then TextElement([m.name], Plain, {Text}, env.color, 0, true)
                   else EmoteElement(m, {EmoteImage, EmoteText}, false, true)], [])
  {
    assert Texts(env, st.pending) == TextsOf(env, st.pending);
  }

  // At the beginning of a message the suffix is the emote they are for.
  lemma SuffixTakesPrefixesAtStart(env: Env, st: State, s: Emote)
    requires IsSuffix(env, s) && !s.zeroWidth && st.Valid() && st.pending != [] && st.elements == []
    ensures EndsWithGroup(WithInput(env, st, TextInput(s.name)), [], s, st.pending, [])
  {
    var l := PrefixesJoin(env, st, s);
    NothingBehind(st.pending);
    NothingBehind(st.pending + [s]);
    FrontOf([], l);
    assert WithInput(env, st, TextInput(s.name)) == State([] + [l], []);
  }

  // The element of an emote and the prefixes that wait for it.
  lemma PrefixesJoin(env: Env, st: State, e: Emote) returns (l: Element)
    requires st.Valid() && st.pending != [] && e.placement != Prefix && !e.zeroWidth
    ensures WithParsedEmote(env, st, e, false) == State(st.elements + [l], [])
    ensures IsPrefixed(l, Layer(e, EMOTE), st.pending)
  {
    l := AddModifiers(LayeredEmoteElement([Layer(e, EMOTE)], EMOTE, None, true), st.pending);
    PrefixedEmoteResult(env, st, e);
  }

  // Twitch's own emotes take the prefixes, too; what is behind them in the text
  // decides about the space.
  lemma TwitchEmoteTakesPrefixes(env: Env, st: State, e: Emote, trailing: bool)
    requires st.Valid() && e.placement == NoPlacement && !e.zeroWidth
    ensures var r := WithInput(env, st, TwitchEmote(e, false, trailing));
            if st.pending == [] then
              r == State(st.elements + [EmoteElement(e, {EmoteImage, EmoteText}, false, trailing)], [])
            else
              EndsWithLayers(r, st.elements, [Layer(e, {EmoteImage, EmoteText})], st.pending, st.pending + [e],
                             {EmoteImage, EmoteText}, trailing)
  {
    if st.pending == [] {
      NothingBehind(st.elements);
      assert TextsOf(env, []) == [];
      var shown := EmoteElement(e, EMOTE, false, true);
      assert WithParsedEmote(env, st, e, false) == State(st.elements + [shown], []);
      SpaceOfLast(env, st, e, trailing, shown);
    } else {
      var l := PrefixesJoin(env, st, e);
      SpaceOfLast(env, st, e, trailing, l);
      FrontOf(st.elements, SetTrailingSpace(l, trailing));
    }
  }

  lemma SpaceOfLast(env: Env, st: State, e: Emote, trailing: bool, l: Element)
    requires WithParsedEmote(env, st, e, false) == State(st.elements + [l], [])
    ensures WithInput(env, st, TwitchEmote(e, false, trailing)) ==
            State(st.elements + [SetTrailingSpace(l, trailing)], [])
  {
    FrontOf(st.elements, l);
  }

  // ----- prefixes written directly in front of an emote -----

  predicate IsDirectPrefix(env: Env, p: Emote) {
    |p.name| == 2 && p.name[1] == '!' && p.placement == Prefix && env.lookup(p.name) == Some(p)
  }

  // The word does not go on with another prefix.
  predicate EndsPrefixes(env: Env, rest: Word) {
    |rest| <= 2 || rest[1] != '!' || env.lookup(rest[..2]).None? || env.lookup(rest[..2]).value.placement != Prefix
  }

  lemma DirectFirst(p: Emote, more: seq<Emote>, rest: Word, word: Word)
    requires |p.name| == 2 && word == Concat(Names([p] + more)) + rest
    ensures |word| >= 2 && word[..2] == p.name && word[1] == p.name[1]
    ensures word[2..] == Concat(Names(more)) + rest
  {
    assert Names([p] + more) == [p.name] + Names(more);
    ConcatCons(p.name, Names(more));
    Regroup(p.name, Concat(Names(more)), rest);
  }

  lemma {:induction false} DirectLength(env: Env, ps: seq<Emote>, rest: Word, word: Word)
    requires forall i :: 0 <= i < |ps| ==> IsDirectPrefix(env, ps[i])
    requires word == Concat(Names(ps)) + rest
    ensures |word| == 2 * |ps| + |rest| && word[2 * |ps|..] == rest
  {
    if ps == [] {
      assert word == rest;
    } else {
      SplitFirst(ps);
      DirectFirst(ps[0], ps[1..], rest, word);
      DirectLength(env, ps[1..], rest, word[2..]);
      TailOfTail(word, 2, 2 * (|ps| - 1), 2 * |ps|);
    }
  }

  lemma TailOfTail(word: string, a: nat, b: nat, c: nat)
    requires a + b == c <= |word|
    ensures word[a..][b..] == word[c..]
  {
  }

  lemma {:induction false} DirectPrefixesAre(env: Env, ps: seq<Emote>, rest: Word, word: Word, n: nat)
    requires forall i :: 0 <= i < |ps| ==> IsDirectPrefix(env, ps[i])
    requires word == Concat(Names(ps)) + rest && rest != "" && |ps| <= n
    requires |ps| == n || EndsPrefixes(env, rest)
    ensures DirectModifiers(env, word, n) == ps
    decreases |ps|
  {
    if ps == [] {
      assert word == rest;
    } else {
      SplitFirst(ps);
      DirectFirst(ps[0], ps[1..], rest, word);
      DirectLength(env, ps, rest, word);
      DirectPrefixesAre(env, ps[1..], rest, word[2..], n - 1);
    }
  }

  lemma {:induction false} PrefixEmotesWait(env: Env, st: State, ps: seq<Emote>)
    requires ArePrefixes(ps) && |st.pending| + |ps| <= 16
    ensures WithModifierEmotes(env, st, ps) == State(st.elements, st.pending + ps)
    decreases |ps|
  {
    if ps == [] {
      NothingBehind(st.pending);
    } else {
      SplitFirst(ps);
      Regroup(st.pending, [ps[0]], ps[1..]);
      PrefixEmotesWait(env, State(st.elements, st.pending + [ps[0]]), ps[1..]);
    }
  }

  // Up to 16 prefixes and an emote written as one word become one element that
  // carries these modifiers.
  lemma DirectGroupIsOneElement(env: Env, st: State, ps: seq<Emote>, base: Emote, word: Word)
    requires st.Valid() && st.pending == [] && 1 <= |ps| <= 16
    requires forall i :: 0 <= i < |ps| ==> IsDirectPrefix(env, ps[i])
    requires base.name != "" && env.lookup(base.name) == Some(base)
    requires base.placement == NoPlacement && !base.zeroWidth
    requires word == Concat(Names(ps)) + base.name && (|ps| == 16 || EndsPrefixes(env, base.name))
    ensures EndsWithGroup(WithInput(env, st, TextInput(word)), st.elements, base, ps, [])
  {
    DirectLength(env, ps, base.name, word);
    DirectPrefixesAre(env, ps, base.name, word, 16);
    DirectBaseIs(env, word, ps, base);
    PrefixEmotesWait(env, st, ps);
    NothingBehind(ps);
    assert WithInput(env, st, TextInput(word)) == WithParsedEmote(env, State(st.elements, ps), base, false);
    WaitingGroup(env, st, ps, base);
  }

  lemma DirectBaseIs(env: Env, word: Word, ps: seq<Emote>, base: Emote)
    requires DirectModifiers(env, word, 16) == ps && ps != []
    requires 2 * |ps| <= |word| && word[2 * |ps|..] == base.name
    requires env.lookup(base.name) == Some(base) && base.placement == NoPlacement
    ensures DirectBase(env, word) == Some(base)
  {
  }

  // Prefixes in front of no emote, or of another modifier, are no modifiers but
  // part of a plain word.
  lemma DirectWithoutEmoteIsWord(env: Env, st: State, ps: seq<Emote>, rest: Word, word: Word)
    requires st.pending == [] && 1 <= |ps| <= 16
    requires forall i :: 0 <= i < |ps| ==> IsDirectPrefix(env, ps[i])
    requires word == Concat(Names(ps)) + rest && rest != "" && (|ps| == 16 || EndsPrefixes(env, rest))
    requires env.lookup(rest).Some? ==> env.lookup(rest).value.placement != NoPlacement
    requires env.lookup(word).None?
    ensures WithInput(env, st, TextInput(word)) ==
            if TakesWords(env, st) then
              st.SetLast(TextElement(st.Last().words + [word], Plain, {Text}, env.color, env.style, true))
            else st.Push(TextElement([word], Plain, {Text}, env.color, env.style, true))
  {
    DirectLength(env, ps, rest, word);
    DirectPrefixesAre(env, ps, rest, word, 16);
    NothingBehind(st.elements);
    assert TextsOf(env, []) == [];
  }

  lemma WaitingGroup(env: Env, st: State, ps: seq<Emote>, base: Emote)
    requires st.Valid() && 1 <= |ps| <= 16 && ArePrefixes(ps)
    requires base.placement == NoPlacement && !base.zeroWidth
    ensures EndsWithGroup(WithParsedEmote(env, State(st.elements, ps), base, false), st.elements, base, ps, [])
  {
    PrefixedEmoteResult(env, State(st.elements, ps), base);
    NothingBehind(ps);
    NothingBehind(ps + [base]);
  }

  // ----- plain words -----

  predicate IsPlainWord(env: Env, w: Word) {
    env.lookup(w).None? && EndsPrefixes(env, w)
  }

  // A text of the message that more words can go into.
  predicate TakesWords(env: Env, st: State) {
    st.pending == [] && st.elements != [] && st.Last().TextElement? &&
    st.Last() == TextElement(st.Last().words, Plain, {Text}, env.color, env.style, true)
  }

  lemma PlainWordInput(env: Env, st: State, w: Word)
    requires IsPlainWord(env, w) && st.pending == []
    ensures WithInput(env, st, TextInput(w)) ==
            if TakesWords(env, st) then
              st.SetLast(TextElement(st.Last().words + [w], Plain, {Text}, env.color, env.style, true))
            else st.Push(TextElement([w], Plain, {Text}, env.color, env.style, true))
  {
    assert DirectModifiers(env, w, 16) == [];
    NothingBehind(st.elements);
    assert TextsOf(env, []) == [];
  }

  function PlainInputs(ws: seq<Word>): (r: seq<Input>)
    ensures |r| == |ws|
  {
    seq(|ws|, i requires 0 <= i < |ws| => TextInput(ws[i]))
  }

  // Words that are no emotes go into one text, in order: into the last one, if
  // it is such a text, or into a new one.
  lemma {:induction false} PlainWordsAreOneText(env: Env, st: State, ws: seq<Word>)
    requires (forall i :: 0 <= i < |ws| ==> IsPlainWord(env, ws[i])) && ws != [] && st.pending == []
    ensures var old_ := if TakesWords(env, st) then st.Last().words else [];
            var before := if TakesWords(env, st) then st.elements[..|st.elements| - 1] else st.elements;
            WithInputs(env, st, PlainInputs(ws)) ==
            State(before + [TextElement(old_ + ws, Plain, {Text}, env.color, env.style, true)], [])
    decreases |ws|
  {
    var w, rest := ws[0], ws[1..];
    var words := if TakesWords(env, st) then st.Last().words else [];
    var before := if TakesWords(env, st) then st.elements[..|st.elements| - 1] else st.elements;
    assert PlainInputs(ws) == [TextInput(w)] + PlainInputs(rest);
    SplitFirst(ws);
    RunStep(env, st, TextInput(w), PlainInputs(rest));
    PlainWordInput(env, st, w);
    Regroup(words, [w], rest);
    NothingBehind([w]);
    var next := WithInput(env, st, TextInput(w));
    assert next == State(before + [TextElement(words + [w], Plain, {Text}, env.color, env.style, true)], []);
    assert next.elements[..|before|] == before;
    if rest == [] {
      NothingBehind(words + [w]);
    } else {
      PlainWordsAreOneText(env, next, rest);
    }
  }
}
