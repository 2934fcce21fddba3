// Building the text of a message from words, emotes, emoji and breaks
// (src/messages/MessageBuilder.cpp).

module TextBuilding {
  import opened Options
  import opened Sequences
  import opened MessageElements

  // What does not change while one message is built.  lookup stands for
  // parseEmote, which finds emotes by their name.
  datatype Env = Env(lookup: Word -> Option<Emote>, zeroWidthEmotes: bool, showGifs: bool, color: nat, style: nat)

  predicate Finds(lookup: Word -> Option<Emote>, name: Word) {
    lookup(name).Some? ==> lookup(name).value.name == name
  }

  ghost predicate IsValidEnv(env: Env) {
    forall name :: Finds(env.lookup, name)
  }

  datatype Input =
    | TextInput(word: Word)
    | TwitchEmote(emote: Emote, gigantified: bool, trailing: bool)
    | Emoji(emoji: Emote)
    | GifInput(originalText: Word)
    | Break

  // Twitch's own emotes are no modifiers.
  predicate IsValidInput(i: Input) {
    i.TwitchEmote? ==> i.emote.placement == NoPlacement
  }

  // The elements so far and the prefix modifiers that wait for their emote.
  datatype State = State(elements: seq<Element>, pending: seq<Emote>) {
    predicate Valid() {
      && |pending| <= MAX_MODIFIERS && ArePrefixes(pending)
      && forall i :: 0 <= i < |elements| ==> IsValidElement(elements[i])
    }

    // Everything that was put in, as it is copied out.
    function Tokens(): seq<Word> {
      Flatten(elements) + Names(pending)
    }

    function Push(e: Element): State {
      State(elements + [e], pending)
    }

    function Last(): Element
      requires elements != []
    {
      elements[|elements| - 1]
    }

    function SetLast(e: Element): State
      requires elements != []
    {
      State(elements[..|elements| - 1] + [e], pending)
    }
  }

  function TextOf(env: Env, word: Word): Element {
    TextElement([word], Plain, {Text}, env.color, 0, true)
  }

  function TextsOf(env: Env, emotes: seq<Emote>): (r: seq<Element>)
    ensures |r| == |emotes|
  {
    seq(|emotes|, i requires 0 <= i < |emotes| => TextOf(env, emotes[i].name))
  }

  function EmoteOf(emote: Emote, flags: set<Flag>, gigantified: bool): Element {
    EmoteElement(emote, flags, gigantified, true)
  }

  // Prefixes that found no emote become text.
  function Flush(env: Env, st: State): State {
    State(st.elements + TextsOf(env, st.pending), [])
  }

  function FlushThenText(env: Env, st: State, word: Word): State {
    Flush(env, st).Push(TextOf(env, word))
  }

  // The element a suffix is attached to: the last one if it takes modifiers.
  function SuffixTarget(st: State): Option<Element> {
    if st.elements == [] then None
    else
      match st.Last()
      case LayeredEmoteElement(_, _, _, _) => Some(st.Last())
      case EmoteElement(emote, flags, gigantified, trailing) =>
        if EmoteImage in flags && !gigantified then
          Some(LayeredEmoteElement([Layer(emote, flags)], flags + EMOTE, None, trailing))
        else None
      case _ => None
  }

  // None: the emote is no modifier here.
  function WithModifierEmote(env: Env, st: State, m: Emote): Option<State> {
    match m.placement
    case NoPlacement => None
    case Prefix =>
      Some(if |st.pending| < MAX_MODIFIERS then State(st.elements, st.pending + [m])
           else FlushThenText(env, st, m.name))
    case Suffix =>
      if st.elements == [] then None
      else if st.pending != [] then Some(FlushThenText(env, st, m.name))
      else
        var target := SuffixTarget(st);
        if target.None? then None
        else if |Modifiers(target.value)| >= MAX_MODIFIERS then Some(st.Push(TextOf(env, m.name)))
        else Some(st.SetLast(AddModifier(target.value, m)))
  }

  // A zero-width emote is laid over the emote in front of it.
  function WithPlainEmote(env: Env, st: State, e: Emote): State {
    var merges := e.zeroWidth && env.zeroWidthEmotes && st.elements != [];
    if merges && st.Last().EmoteElement? then
      var base := st.Last();
      st.SetLast(LayeredEmoteElement([Layer(base.emote, base.flags), Layer(e, EMOTE)], base.flags + EMOTE, None, true))
    else if merges && st.Last().LayeredEmoteElement? then
      st.SetLast(AddFlags(AddEmoteLayer(st.Last(), Layer(e, EMOTE)), EMOTE))
    else st.Push(EmoteOf(e, EMOTE, false))
  }

  function WithParsedEmote(env: Env, st: State, e: Emote, gigantified: bool): State {
    if gigantified then Flush(env, st).Push(EmoteOf(e, EMOTE, true))
    else if e.zeroWidth || st.pending == [] then WithPlainEmote(env, Flush(env, st), e)
    else
      State(st.elements + [AddModifiers(LayeredEmoteElement([Layer(e, EMOTE)], EMOTE, None, true), st.pending)], [])
  }

  function WithEmote(env: Env, st: State, e: Emote): State {
    var r := WithModifierEmote(env, st, e);
    if r.Some? then r.value else WithParsedEmote(env, st, e, false)
  }

  // A two-character prefix modifier such as h! in front of something.
  predicate StartsWithModifier(env: Env, word: Word) {
    |word| > 2 && word[1] == '!' &&
    env.lookup(word[..2]).Some? && env.lookup(word[..2]).value.placement == Prefix
  }

  // Prefixes written directly in front of an emote, such as h!v!Name: at most
  // n of them.
  function DirectModifiers(env: Env, word: Word, n: nat): seq<Emote>
    decreases n
  {
    if n == 0 || !StartsWithModifier(env, word) then []
    else [env.lookup(word[..2]).value] + DirectModifiers(env, word[2..], n - 1)
  }

  // The emote behind them, if the word is such a group.
  function DirectBase(env: Env, word: Word): Option<Emote> {
    var ms := DirectModifiers(env, word, MAX_MODIFIERS);
    if ms == [] || 2 * |ms| > |word| then None
    else
      var base := env.lookup(word[2 * |ms|..]);
      if base.Some? && base.value.placement == NoPlacement then base else None
  }

  function WithModifierEmotes(env: Env, st: State, ms: seq<Emote>): State
    decreases |ms|
  {
    if ms == [] then st
    else
      var r := WithModifierEmote(env, st, ms[0]);
      WithModifierEmotes(env, if r.Some? then r.value else st, ms[1..])
  }

  // A word that is no emote: plain words go into one text element.
  function WithWord(env: Env, st: State, word: Word): State {
    if st.elements != [] && st.Last().TextElement? && st.Last().kind.Plain? && st.Last().trailingSpace &&
       st.Last().style == env.style && st.Last().flags == {Text} && st.Last().color == env.color
    then st.SetLast(st.Last().(words := st.Last().words + [word]))
    else st.Push(TextElement([word], Plain, {Text}, env.color, env.style, true))
  }

  function WithTextOrEmote(env: Env, st: State, word: Word): State {
    var base := DirectBase(env, word);
    if base.Some? then
      WithParsedEmote(env, WithModifierEmotes(env, st, DirectModifiers(env, word, MAX_MODIFIERS)), base.value, false)
    else
      var emote := env.lookup(word);
      if emote.Some? then WithEmote(env, st, emote.value)
      else WithWord(env, Flush(env, st), word)
  }

  function WithInput(env: Env, st: State, i: Input): State {
    match i
    case TextInput(word) => WithTextOrEmote(env, st, word)
    case TwitchEmote(emote, gigantified, trailing) =>
      var r := WithParsedEmote(env, st, emote, gigantified);
      if r.elements == [] then r else r.SetLast(SetTrailingSpace(r.Last(), trailing))
    case Emoji(emoji) => Flush(env, st).Push(EmoteOf(emoji, EMOJI_ALL, false))
    case GifInput(text) =>
      if env.showGifs then Flush(env, st).Push(ImageElement([])).Push(ImageElement([text]))
      else Flush(env, st).Push(TextElement([text], Link, {Text}, env.color, 0, true))
    case Break => Flush(env, st)
  }

  function WithInputs(env: Env, st: State, inputs: seq<Input>): State
    decreases |inputs|
  {
    if inputs == [] then st else WithInputs(env, WithInput(env, st, inputs[0]), inputs[1..])
  }

  // The text an input stands for, as far as it is a word of the message.
  function InputText(i: Input): string {
    match i
    case TextInput(word) => word
    case TwitchEmote(emote, _, _) => emote.name
    case Emoji(emoji) => emoji.name
    case GifInput(text) => text
    case Break => ""
  }

  function InputsText(inputs: seq<Input>): string {
    if inputs == [] then "" else InputText(inputs[0]) + InputsText(inputs[1..])
  }

  function Concat(words: seq<Word>): string {
    if words == [] then "" else words[0] + Concat(words[1..])
  }

  // Every step below keeps a state valid and appends the words it is given.
  predicate Appends(st: State, r: State, words: seq<Word>) {
    st.Valid() ==> r.Valid() && r.Tokens() == st.Tokens() + words
  }

  lemma FlushResult(env: Env, st: State)
    ensures Appends(st, Flush(env, st), [])
  {
    var texts := TextsOf(env, st.pending);
    FlattenAppend(st.elements, texts);
    FlattenTexts(env, st.pending);
    assert Names([]) == [];
    assert st.Tokens() + [] == st.Tokens();
  }

  lemma {:induction false} FlattenTexts(env: Env, ms: seq<Emote>)
    ensures Flatten(TextsOf(env, ms)) == Names(ms)
  {
    if ms != [] {
      var init, m := ms[..|ms| - 1], ms[|ms| - 1];
      FlattenTexts(env, init);
      assert TextsOf(env, ms) == TextsOf(env, init) + [TextOf(env, m.name)];
      FlattenPush(TextsOf(env, init), TextOf(env, m.name));
      assert Names(ms) == Names(init) + [m.name];
    }
  }

  lemma PushResult(st: State, e: Element)
    requires st.pending == [] && IsValidElement(e)
    ensures Appends(st, st.Push(e), CopyTokens(e))
  {
    FlattenPush(st.elements, e);
    assert Names([]) == [];
    assert st.Tokens() == Flatten(st.elements);
  }

  lemma SetLastResult(st: State, e: Element, words: seq<Word>)
    requires st.pending == [] && st.elements != [] && (st.Valid() ==> IsValidElement(e))
    requires st.Valid() ==> CopyTokens(e) == CopyTokens(st.Last()) + words
    ensures Appends(st, st.SetLast(e), words)
  {
    var init := st.elements[..|st.elements| - 1];
    var bare := State(init, []);
    assert st.elements == init + [st.Last()];
    if st.Valid() {
      PushResult(bare, e);
      PushResult(bare, st.Last());
      assert bare.Tokens() + (CopyTokens(st.Last()) + words) == bare.Tokens() + CopyTokens(st.Last()) + words;
    }
  }

  lemma FlushThenTextResult(env: Env, st: State, word: Word)
    ensures Appends(st, FlushThenText(env, st, word), [word])
  {
    FlushResult(env, st);
    PushResult(Flush(env, st), TextOf(env, word));
  }

  lemma ModifierEmoteResult(env: Env, st: State, m: Emote)
    ensures m.placement == Prefix ==> WithModifierEmote(env, st, m).Some?
    ensures var r := WithModifierEmote(env, st, m); r.Some? ==> Appends(st, r.value, [m.name])
  {
    var r := WithModifierEmote(env, st, m);
    if m.placement == Prefix {
      if |st.pending| < MAX_MODIFIERS {
        NamesAppend(st.pending, [m]);
        assert Names([m]) == [m.name];
        assert Flatten(st.elements) + (Names(st.pending) + [m.name]) == st.Tokens() + [m.name];
      } else {
        FlushThenTextResult(env, st, m.name);
      }
    } else if r.Some? {
      if st.pending != [] {
        FlushThenTextResult(env, st, m.name);
      } else {
        SuffixResult(env, st, m);
      }
    }
  }

  lemma SuffixResult(env: Env, st: State, m: Emote)
    requires m.placement == Suffix && st.pending == []
    ensures var r := WithModifierEmote(env, st, m); r.Some? ==> Appends(st, r.value, [m.name])
  {
    var target := SuffixTarget(st);
    if st.Valid() && target.Some? {
      TargetResult(st);
      if |Modifiers(target.value)| >= MAX_MODIFIERS {
        PushResult(st, TextOf(env, m.name));
      } else {
        AddSuffixResult(target.value, m);
        SetLastResult(st, AddModifier(target.value, m), [m.name]);
      }
    }
  }

  lemma TargetResult(st: State)
    requires st.Valid() && SuffixTarget(st).Some?
    ensures var e := SuffixTarget(st).value;
            e.LayeredEmoteElement? && IsValidElement(e) && CopyTokens(e) == CopyTokens(st.Last())
  {
    if st.Last().EmoteElement? {
      assert Emotes([Layer(st.Last().emote, st.Last().flags)]) == [st.Last().emote];
      assert Names([st.Last().emote]) == [st.Last().emote.name];
    }
  }

  lemma PlainEmoteResult(env: Env, st: State, e: Emote)
    requires st.pending == []
    ensures Appends(st, WithPlainEmote(env, st, e), [e.name])
  {
    if st.Valid() {
      var merges := e.zeroWidth && env.zeroWidthEmotes && st.elements != [];
      if merges && st.Last().EmoteElement? {
        var base := st.Last();
        var layers := [Layer(base.emote, base.flags), Layer(e, EMOTE)];
        assert Emotes(layers) == [base.emote, e];
        assert Names([base.emote, e]) == [base.emote.name] + [e.name];
        SetLastResult(st, LayeredEmoteElement(layers, base.flags + EMOTE, None, true), [e.name]);
      } else if merges && st.Last().LayeredEmoteElement? {
        AddEmoteLayerResult(st.Last(), Layer(e, EMOTE));
        SetLastResult(st, AddFlags(AddEmoteLayer(st.Last(), Layer(e, EMOTE)), EMOTE), [e.name]);
      } else {
        PushResult(st, EmoteOf(e, EMOTE, false));
      }
    }
  }

  lemma ParsedEmoteResult(env: Env, st: State, e: Emote, gigantified: bool)
    requires e.placement != Prefix
    ensures Appends(st, WithParsedEmote(env, st, e, gigantified), [e.name])
    ensures var r := WithParsedEmote(env, st, e, gigantified); r.elements != [] && r.pending == []
  {
    FlushResult(env, st);
    if gigantified {
      PushResult(Flush(env, st), EmoteOf(e, EMOTE, true));
    } else if e.zeroWidth || st.pending == [] {
      PlainEmoteResult(env, Flush(env, st), e);
    } else if st.Valid() {
      PrefixedEmoteResult(env, st, e);
    }
  }

  // A layered element that carries the pending prefixes.
  lemma PrefixedEmoteResult(env: Env, st: State, e: Emote)
    requires st.Valid() && e.placement != Prefix
    ensures var base := Layer(e, EMOTE);
            var l := AddModifiers(LayeredEmoteElement([base], EMOTE, None, true), st.pending);
            IsPrefixed(l, base, st.pending) && Appends(st, State(st.elements + [l], []), [e.name])
  {
    var base := Layer(e, EMOTE);
    var bare := LayeredEmoteElement([base], EMOTE, None, true);
    assert Emotes([base]) == [e] && [] + [e] == [e];
    AddPrefixesResult(bare, base, st.pending);
    PrefixedTokens(st, base, AddModifiers(bare, st.pending));
  }

  lemma PrefixedTokens(st: State, base: Layer, l: Element)
    requires st.Valid() && IsPrefixed(l, base, st.pending)
    ensures Appends(st, State(st.elements + [l], []), [base.emote.name])
  {
    var name := base.emote.name;
    NamesAppend(st.pending, [base.emote]);
    assert Names([base.emote]) == [name];
    PushResult(State(st.elements, []), l);
    assert Names([]) == [];
    assert State(st.elements, []).Tokens() == Flatten(st.elements);
    assert Flatten(st.elements) + (Names(st.pending) + [name]) == st.Tokens() + [name];
  }

  lemma EmoteResult(env: Env, st: State, e: Emote)
    ensures Appends(st, WithEmote(env, st, e), [e.name])
  {
    ModifierEmoteResult(env, st, e);
    if WithModifierEmote(env, st, e).None? {
      ParsedEmoteResult(env, st, e, false);
    }
  }

  lemma {:induction false} ModifierEmotesResult(env: Env, st: State, ms: seq<Emote>)
    requires ArePrefixes(ms)
    ensures Appends(st, WithModifierEmotes(env, st, ms), Names(ms))
    decreases |ms|
  {
    if ms == [] {
      assert st.Tokens() + Names(ms) == st.Tokens();
    } else {
      ModifierEmoteResult(env, st, ms[0]);
      var r := WithModifierEmote(env, st, ms[0]).value;
      ModifierEmotesResult(env, r, ms[1..]);
      assert Names(ms) == [ms[0].name] + Names(ms[1..]);
      assert st.Tokens() + ([ms[0].name] + Names(ms[1..])) == st.Tokens() + [ms[0].name] + Names(ms[1..]);
    }
  }

  lemma WordResult(env: Env, st: State, word: Word)
    requires st.pending == []
    ensures Appends(st, WithWord(env, st, word), [word])
  {
    var r := WithWord(env, st, word);
    if |r.elements| == |st.elements| {
      SetLastResult(st, st.Last().(words := st.Last().words + [word]), [word]);
    } else {
      PushResult(st, TextElement([word], Plain, {Text}, env.color, env.style, true));
    }
  }

  // Words and what stands for them.

  lemma {:induction false} ConcatAppend(a: seq<Word>, b: seq<Word>)
    ensures Concat(a + b) == Concat(a) + Concat(b)
  {
    if a == [] {
      assert a + b == b;
    } else {
      ConcatAppend(a[1..], b);
      assert (a + b)[1..] == a[1..] + b;
      Regroup(a[0], Concat(a[1..]), Concat(b));
    }
  }

  // The direct prefixes and the rest make up the word.
  lemma {:induction false} DirectModifiersResult(env: Env, word: Word, n: nat)
    requires IsValidEnv(env)
    ensures var ms := DirectModifiers(env, word, n);
            && ArePrefixes(ms) && |ms| <= n && (ms != [] ==> 2 * |ms| < |word|)
            && 2 * |ms| <= |word| && Concat(Names(ms)) + word[2 * |ms|..] == word
    decreases n
  {
    var ms := DirectModifiers(env, word, n);
    if ms == [] {
      assert Concat(Names(ms)) + word[0..] == word;
    } else {
      var m, rest := ms[0], word[2..];
      DirectModifiersResult(env, rest, n - 1);
      assert Finds(env.lookup, word[..2]);
      DirectStep(m, DirectModifiers(env, rest, n - 1), word);
    }
  }

  lemma DirectStep(m: Emote, ms: seq<Emote>, word: Word)
    requires |word| > 2 && m.name == word[..2]
    requires 2 * |ms| <= |word| - 2 && Concat(Names(ms)) + word[2..][2 * |ms|..] == word[2..]
    ensures Concat(Names([m] + ms)) + word[2 * (|ms| + 1)..] == word
  {
    var k := 2 * |ms|;
    assert word[2..][k..] == word[2 + k..];
    assert Names([m] + ms) == [m.name] + Names(ms);
    ConcatCons(m.name, Names(ms));
    assert m.name + Concat(Names(ms)) + word[2 + k..] == m.name + (Concat(Names(ms)) + word[2 + k..]);
  }

  lemma ConcatCons(w: Word, rest: seq<Word>)
    ensures Concat([w] + rest) == w + Concat(rest)
  {
    assert ([w] + rest)[1..] == rest;
  }

  // The words a word of the message is copied as: one, unless it is a group of
  // prefixes with their emote.
  function WordTokens(env: Env, word: Word): seq<Word> {
    var base := DirectBase(env, word);
    if base.Some? then Names(DirectModifiers(env, word, MAX_MODIFIERS)) + [base.value.name] else [word]
  }

  lemma WordTokensResult(env: Env, word: Word)
    requires IsValidEnv(env)
    ensures Concat(WordTokens(env, word)) == word
  {
    var base := DirectBase(env, word);
    if base.Some? {
      DirectModifiersResult(env, word, MAX_MODIFIERS);
      var ms := DirectModifiers(env, word, MAX_MODIFIERS);
      assert Finds(env.lookup, word[2 * |ms|..]);
      ConcatAppend(Names(ms), [base.value.name]);
      assert Concat([base.value.name]) == base.value.name + Concat([][..]);
    } else {
      assert [word][1..] == [];
    }
  }

  lemma TextOrEmoteResult(env: Env, st: State, word: Word)
    requires IsValidEnv(env)
    ensures Appends(st, WithTextOrEmote(env, st, word), WordTokens(env, word))
  {
    var base := DirectBase(env, word);
    var emote := env.lookup(word);
    assert Finds(env.lookup, word);
    if base.Some? {
      DirectModifiersResult(env, word, MAX_MODIFIERS);
      var ms := DirectModifiers(env, word, MAX_MODIFIERS);
      ModifierEmotesResult(env, st, ms);
      ParsedEmoteResult(env, WithModifierEmotes(env, st, ms), base.value, false);
      assert st.Tokens() + (Names(ms) + [base.value.name]) == st.Tokens() + Names(ms) + [base.value.name];
    } else if emote.Some? {
      EmoteResult(env, st, emote.value);
    } else {
      FlushResult(env, st);
      WordResult(env, Flush(env, st), word);
    }
  }

  function InputTokens(env: Env, i: Input): seq<Word> {
    match i
    case TextInput(word) => WordTokens(env, word)
    case Break => []
    case _ => [InputText(i)]
  }

  function InputsTokens(env: Env, inputs: seq<Input>): seq<Word> {
    if inputs == [] then [] else InputTokens(env, inputs[0]) + InputsTokens(env, inputs[1..])
  }

  lemma InputResult(env: Env, st: State, i: Input)
    requires IsValidEnv(env) && IsValidInput(i)
    ensures Appends(st, WithInput(env, st, i), InputTokens(env, i))
  {
    FlushResult(env, st);
    var flushed := Flush(env, st);
    match i
    case TextInput(word) => TextOrEmoteResult(env, st, word);
    case TwitchEmote(emote, gigantified, trailing) =>
      ParsedEmoteResult(env, st, emote, gigantified);
      TrailingResult(WithParsedEmote(env, st, emote, gigantified), trailing);
    case Emoji(emoji) => PushResult(flushed, EmoteOf(emoji, EMOJI_ALL, false));
    case GifInput(text) =>
      if env.showGifs {
        GifResult(env, flushed, text);
      } else {
        PushResult(flushed, TextElement([text], Link, {Text}, env.color, 0, true));
      }
    case Break =>
  }

  lemma TrailingResult(st: State, trailing: bool)
    requires st.elements != [] && st.pending == []
    ensures Appends(st, st.SetLast(SetTrailingSpace(st.Last(), trailing)), [])
  {
    var e := SetTrailingSpace(st.Last(), trailing);
    assert CopyTokens(e) == CopyTokens(st.Last()) == CopyTokens(st.Last()) + [];
    SetLastResult(st, e, []);
  }

  lemma GifResult(env: Env, st: State, text: Word)
    requires st.pending == []
    ensures Appends(st, st.Push(ImageElement([])).Push(ImageElement([text])), [text])
  {
    PushResult(st, ImageElement([]));
    PushResult(st.Push(ImageElement([])), ImageElement([text]));
  }

  // The main result: over every run of inputs nothing is lost, nothing is
  // reordered, and no list of modifiers grows over its limit.
  lemma {:induction false} RunResult(env: Env, st: State, inputs: seq<Input>)
    requires IsValidEnv(env) && forall i :: 0 <= i < |inputs| ==> IsValidInput(inputs[i])
    ensures Appends(st, WithInputs(env, st, inputs), InputsTokens(env, inputs))
    decreases |inputs|
  {
    if inputs == [] {
      assert st.Tokens() + [] == st.Tokens();
    } else {
      InputResult(env, st, inputs[0]);
      RunResult(env, WithInput(env, st, inputs[0]), inputs[1..]);
      var a, b := InputTokens(env, inputs[0]), InputsTokens(env, inputs[1..]);
      assert st.Tokens() + (a + b) == st.Tokens() + a + b;
    }
  }

  // What the inputs are copied as is their text.
  lemma {:induction false} TokensAreTheText(env: Env, inputs: seq<Input>)
    requires IsValidEnv(env)
    ensures Concat(InputsTokens(env, inputs)) == InputsText(inputs)
    decreases |inputs|
  {
    if inputs != [] {
      var i := inputs[0];
      if i.TextInput? {
        WordTokensResult(env, i.word);
      } else if !i.Break? {
        assert [InputText(i)][1..] == [];
      }
      TokensAreTheText(env, inputs[1..]);
      ConcatAppend(InputTokens(env, i), InputsTokens(env, inputs[1..]));
    }
  }

  lemma NothingPending(st: State)
    requires st.pending == []
    ensures st.Tokens() == Flatten(st.elements)
  {
    assert Names([]) == [];
  }

  // The released message is copied as what was there before, followed by exactly
  // the text that was put in.
  lemma ReleasedMessage(env: Env, st: State, inputs: seq<Input>)
    requires IsValidEnv(env) && st.Valid() && forall i :: 0 <= i < |inputs| ==> IsValidInput(inputs[i])
    ensures Flush(env, WithInputs(env, st, inputs)).Valid()
    ensures Flush(env, WithInputs(env, st, inputs)).pending == []
    ensures Flatten(Flush(env, WithInputs(env, st, inputs)).elements) == st.Tokens() + InputsTokens(env, inputs)
    ensures Concat(InputsTokens(env, inputs)) == InputsText(inputs)
  {
    var s := WithInputs(env, st, inputs);
    RunResult(env, st, inputs);
    FlushResult(env, s);
    NothingPending(Flush(env, s));
    NothingBehind(s.Tokens());
    TokensAreTheText(env, inputs);
  }

  lemma RunStep(env: Env, st: State, i: Input, rest: seq<Input>)
    ensures WithInputs(env, st, [i] + rest) == WithInputs(env, WithInput(env, st, i), rest)
  {
    assert ([i] + rest)[1..] == rest;
  }

  lemma {:induction false} RunsInSequence(env: Env, st: State, a: seq<Input>, b: seq<Input>)
    ensures WithInputs(env, st, a + b) == WithInputs(env, WithInputs(env, st, a), b)
    decreases |a|
  {
    if a == [] {
      assert a + b == b;
    } else {
      var i, rest := a[0], a[1..];
      assert a == [i] + rest && a + b == [i] + (rest + b);
      RunStep(env, st, i, rest + b);
      RunStep(env, st, i, rest);
      RunsInSequence(env, WithInput(env, st, i), rest, b);
    }
  }

  function Words(emotes: seq<Emote>): (r: seq<Input>)
    ensures |r| == |emotes|
  {
    seq(|emotes|, i requires 0 <= i < |emotes| => TextInput(emotes[i].name))
  }

  // Emotes the message may use under their own names.
  predicate AreKnown(env: Env, emotes: seq<Emote>) {
    forall i :: 0 <= i < |emotes| ==> IsKnown(env, emotes[i])
  }

  predicate AreSuffixes(ms: seq<Emote>) {
    forall i :: 0 <= i < |ms| ==> ms[i].placement == Suffix
  }

  lemma WordsStep(emotes: seq<Emote>)
    requires emotes != []
    ensures Words(emotes) == [TextInput(emotes[0].name)] + Words(emotes[1..])
  {
  }

  predicate IsKnown(env: Env, e: Emote) {
    env.lookup(e.name) == Some(e) && DirectBase(env, e.name).None?
  }

  lemma PrefixWaits(env: Env, st: State, p: Emote)
    requires IsKnown(env, p) && p.placement == Prefix && |st.pending| < MAX_MODIFIERS
    ensures WithInput(env, st, TextInput(p.name)) == State(st.elements, st.pending + [p])
  {
  }

  lemma {:induction false} PrefixesWait(env: Env, st: State, ps: seq<Emote>)
    requires AreKnown(env, ps) && ArePrefixes(ps) && |st.pending| + |ps| <= MAX_MODIFIERS
    ensures WithInputs(env, st, Words(ps)) == State(st.elements, st.pending + ps)
    decreases |ps|
  {
    if ps == [] {
      assert st.pending + ps == st.pending;
    } else {
      var p, rest := ps[0], ps[1..];
      assert st.pending + [p] + rest == st.pending + ps;
      WordsStep(ps);
      RunStep(env, st, TextInput(p.name), Words(rest));
      PrefixWaits(env, st, p);
      PrefixesWait(env, State(st.elements, st.pending + [p]), rest);
    }
  }

  // An emote with modifiers around it; without any it is a plain emote.
  predicate IsGroup(e: Element, base: Emote, ps: seq<Emote>, ss: seq<Emote>) {
    if |ps| + |ss| == 0 then e == EmoteOf(base, EMOTE, false)
    else
      && e.LayeredEmoteElement? && IsValidElement(e)
      && e.layers == [Layer(base, EMOTE)] && e.flags == EMOTE && e.trailingSpace
      && Modifiers(e) == ps + ss
      && LayeredTokens(e) == ps + [base] + ss
  }

  predicate EndsWithGroup(st: State, before: seq<Element>, base: Emote, ps: seq<Emote>, ss: seq<Emote>) {
    && st.pending == [] && |st.elements| == |before| + 1 && st.elements[..|before|] == before
    && IsGroup(st.Last(), base, ps, ss)
  }

  lemma GroupTarget(st: State, before: seq<Element>, base: Emote, ps: seq<Emote>, ss: seq<Emote>)
    requires EndsWithGroup(st, before, base, ps, ss)
    ensures SuffixTarget(st).Some?
    ensures var t := SuffixTarget(st).value;
            && t.LayeredEmoteElement? && IsValidElement(t)
            && t.layers == [Layer(base, EMOTE)] && t.flags == EMOTE && t.trailingSpace
            && Modifiers(t) == ps + ss && LayeredTokens(t) == ps + [base] + ss
  {
    assert Emotes([Layer(base, EMOTE)]) == [base];
  }

  lemma SuffixJoinsElement(e: Element, base: Emote, ps: seq<Emote>, ss: seq<Emote>, s: Emote)
    requires e.LayeredEmoteElement? && IsValidElement(e) && e.layers == [Layer(base, EMOTE)]
    requires e.flags == EMOTE && e.trailingSpace
    requires Modifiers(e) == ps + ss && LayeredTokens(e) == ps + [base] + ss
    requires |ps| + |ss| < MAX_MODIFIERS && s.placement == Suffix
    ensures IsGroup(AddModifier(e, s), base, ps, ss + [s])
  {
    assert ps + ss + [s] == ps + (ss + [s]);
    assert ps + [base] + ss + [s] == ps + [base] + (ss + [s]);
    AddSuffixResult(e, s);
  }

  lemma SuffixJoins(env: Env, st: State, before: seq<Element>, base: Emote, ps: seq<Emote>, ss: seq<Emote>, s: Emote)
    requires EndsWithGroup(st, before, base, ps, ss) && |ps| + |ss| < MAX_MODIFIERS
    requires IsKnown(env, s) && s.placement == Suffix
    ensures EndsWithGroup(WithInput(env, st, TextInput(s.name)), before, base, ps, ss + [s])
  {
    GroupTarget(st, before, base, ps, ss);
    var target := SuffixTarget(st).value;
    SuffixJoinsElement(target, base, ps, ss, s);
    assert WithInput(env, st, TextInput(s.name)) == st.SetLast(AddModifier(target, s));
  }

  lemma {:induction false} SuffixesJoin(env: Env, st: State, before: seq<Element>, base: Emote,
                                        ps: seq<Emote>, ss: seq<Emote>, more: seq<Emote>)
    requires EndsWithGroup(st, before, base, ps, ss) && |ps| + |ss| + |more| <= MAX_MODIFIERS
    requires AreKnown(env, more) && AreSuffixes(more)
    ensures EndsWithGroup(WithInputs(env, st, Words(more)), before, base, ps, ss + more)
    decreases |more|
  {
    if more == [] {
      NothingBehind(ss);
    } else {
      var s, rest := more[0], more[1..];
      SplitFirst(more);
      Regroup(ss, [s], rest);
      WordsStep(more);
      RunStep(env, st, TextInput(s.name), Words(rest));
      SuffixJoins(env, st, before, base, ps, ss, s);
      SuffixesJoin(env, WithInput(env, st, TextInput(s.name)), before, base, ps, ss + [s], rest);
    }
  }

  lemma BaseJoins(env: Env, st: State, ps: seq<Emote>, base: Emote)
    requires st.Valid() && st.pending == ps
    requires IsKnown(env, base) && base.placement == NoPlacement && !base.zeroWidth
    ensures EndsWithGroup(WithInput(env, st, TextInput(base.name)), st.elements, base, ps, [])
  {
    var joined := WithInput(env, st, TextInput(base.name));
    assert joined == WithParsedEmote(env, st, base, false);
    assert ps + [] == ps && ps + [base] + [] == ps + [base];
    if ps == [] {
      assert Flush(env, st).elements == st.elements;
      assert joined == st.Push(EmoteOf(base, EMOTE, false));
    } else {
      PrefixedEmoteResult(env, st, base);
    }
  }

  // Prefixes, an emote and suffixes, written as separate words, become one
  // element that carries all the modifiers.
  lemma GroupBecomesOneElement(env: Env, st: State, ps: seq<Emote>, base: Emote, ss: seq<Emote>)
    requires st.Valid() && st.pending == []
    requires AreKnown(env, ps) && IsKnown(env, base) && AreKnown(env, ss)
    requires ArePrefixes(ps) && AreSuffixes(ss) && |ps| + |ss| <= MAX_MODIFIERS
    requires base.placement == NoPlacement && !base.zeroWidth
    ensures var inputs := Words(ps) + ([TextInput(base.name)] + Words(ss));
            EndsWithGroup(WithInputs(env, st, inputs), st.elements, base, ps, ss)
  {
    assert [] + ps == ps && [] + ss == ss;
    var waiting := State(st.elements, ps);
    RunsInSequence(env, st, Words(ps), [TextInput(base.name)] + Words(ss));
    PrefixesWait(env, st, ps);
    RunStep(env, waiting, TextInput(base.name), Words(ss));
    BaseJoins(env, waiting, ps, base);
    SuffixesJoin(env, WithInput(env, waiting, TextInput(base.name)), st.elements, base, ps, [], ss);
  }
}
