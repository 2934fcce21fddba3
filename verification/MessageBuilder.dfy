// The builder of a message's text (src/messages/MessageBuilder.cpp).

module MessageBuilders {
  import opened Options
  import opened Sequences
  import opened MessageElements
  import opened TextBuilding

  class MessageBuilder {
    const env: Env
    var elements: seq<Element>
    var pendingPrefixModifiers: seq<Emote>

    constructor (env: Env)
      ensures this.env == env && St() == State([], [])
    {
      this.env := env;
      elements, pendingPrefixModifiers := [], [];
    }

    function St(): State
      reads this
    {
      State(elements, pendingPrefixModifiers)
    }

    method Emplace(e: Element)
      modifies this
      ensures St() == old(St()).Push(e)
    {
      elements := elements + [e];
    }

    method FlushPendingModifiers()
      modifies this
      ensures St() == Flush(env, old(St()))
    {
      ghost var texts := TextsOf(env, pendingPrefixModifiers);
      var i := 0;
      while i < |pendingPrefixModifiers|
        invariant 0 <= i <= |pendingPrefixModifiers|
        invariant pendingPrefixModifiers == old(pendingPrefixModifiers)
        invariant elements == old(elements) + texts[..i]
      {
        assert texts[..i + 1] == texts[..i] + [texts[i]];
        Emplace(TextOf(env, pendingPrefixModifiers[i].name));
        i := i + 1;
      }
      assert texts[..i] == texts;
      pendingPrefixModifiers := [];
    }

    method ReplaceBack(e: Element)
      requires elements != []
      modifies this
      ensures St() == old(St()).SetLast(e)
    {
      elements := elements[..|elements| - 1] + [e];
    }

    method AppendModifier(modifier: Emote) returns (appended: bool)
      requires |pendingPrefixModifiers| <= MAX_MODIFIERS
      modifies this
      ensures appended <==> WithModifierEmote(env, old(St()), modifier).Some?
      ensures St() == if appended then WithModifierEmote(env, old(St()), modifier).value else old(St())
    {
      if modifier.placement == Prefix {
        if |pendingPrefixModifiers| >= MAX_MODIFIERS {
          FlushPendingModifiers();
          Emplace(TextOf(env, modifier.name));
          return true;
        }
        pendingPrefixModifiers := pendingPrefixModifiers + [modifier];
        return true;
      }
      if modifier.placement != Suffix || elements == [] {
        return false;
      }
      if pendingPrefixModifiers != [] {
        FlushPendingModifiers();
        Emplace(TextOf(env, modifier.name));
        return true;
      }
      var back := elements[|elements| - 1];
      if back.LayeredEmoteElement? {
        if |Modifiers(back)| >= MAX_MODIFIERS {
          Emplace(TextOf(env, modifier.name));
          return true;
        }
        ReplaceBack(AddModifier(back, modifier));
        return true;
      }
      if !back.EmoteElement? || EmoteImage !in back.flags || back.gigantified {
        return false;
      }
      var layered := LayeredEmoteElement([Layer(back.emote, back.flags)], back.flags + EMOTE, None, back.trailingSpace);
      ReplaceBack(AddModifier(layered, modifier));
      return true;
    }

    method AppendEmote(emote: Emote)
      modifies this
      ensures St() == WithPlainEmote(env, old(St()), emote)
    {
      if emote.zeroWidth && env.zeroWidthEmotes && elements != [] {
        var back := elements[|elements| - 1];
        if back.EmoteElement? {
          var layers := [Layer(back.emote, back.flags), Layer(emote, EMOTE)];
          ReplaceBack(LayeredEmoteElement(layers, back.flags + EMOTE, None, true));
          return;
        }
        if back.LayeredEmoteElement? {
          ReplaceBack(AddFlags(AddEmoteLayer(back, Layer(emote, EMOTE)), EMOTE));
          return;
        }
      }
      Emplace(EmoteOf(emote, EMOTE, false));
    }

    method AppendParsedEmote(emote: Emote, gigantified: bool)
      modifies this
      ensures St() == WithParsedEmote(env, old(St()), emote, gigantified)
    {
      if emote.zeroWidth || gigantified || pendingPrefixModifiers == [] {
        NothingToFlush(env, St());
        if pendingPrefixModifiers != [] {
          FlushPendingModifiers();
        }
        if gigantified {
          Emplace(EmoteOf(emote, EMOTE, true));
          return;
        }
        AppendEmote(emote);
        return;
      }
      var bare := LayeredEmoteElement([Layer(emote, EMOTE)], EMOTE, None, true);
      var layered := bare;
      var ms := pendingPrefixModifiers;
      var i := 0;
      while i < |ms|
        invariant 0 <= i <= |ms| && layered.LayeredEmoteElement?
        invariant layered == AddModifiers(bare, ms[..i])
      {
        assert ms[..i + 1][..i] == ms[..i] && ms[..i + 1][i] == ms[i];
        layered := AddModifier(layered, ms[i]);
        i := i + 1;
      }
      assert ms[..i] == ms;
      Emplace(layered);
      pendingPrefixModifiers := [];
    }

    method TryAppendEmote(name: Word) returns (success: bool)
      requires |pendingPrefixModifiers| <= MAX_MODIFIERS
      modifies this
      ensures success <==> env.lookup(name).Some?
      ensures St() == if success then WithEmote(env, old(St()), env.lookup(name).value) else old(St())
    {
      var emote := env.lookup(name);
      if emote.None? {
        return false;
      }
      if emote.value.placement != NoPlacement {
        var appended := AppendModifier(emote.value);
        if appended {
          return true;
        }
      }
      AppendParsedEmote(emote.value, false);
      return true;
    }

    // The last branch of addWordFromUserMessage, for words that are no link,
    // mention or channel name.
    method AddPlainWord(word: Word)
      modifies this
      ensures St() == WithWord(env, old(St()), word)
    {
      if elements != [] {
        var back := elements[|elements| - 1];
        if back.TextElement? && back.style == env.style && back.kind.Plain? && back.trailingSpace &&
           back.flags == {Text} && back.color == env.color
        {
          ReplaceBack(TextElement(back.words + [word], Plain, back.flags, back.color, back.style, back.trailingSpace));
          return;
        }
      }
      Emplace(TextElement([word], Plain, {Text}, env.color, env.style, true));
    }

    // The prefixes in front of the rest of a word.
    method SplitDirectModifiers(word: Word) returns (ms: seq<Emote>, remainder: Word)
      ensures ms == DirectModifiers(env, word, MAX_MODIFIERS)
      ensures 2 * |ms| <= |word| && remainder == word[2 * |ms|..]
    {
      ms, remainder := [], word;
      while |ms| < MAX_MODIFIERS && StartsWithModifier(env, remainder)
        invariant |ms| <= MAX_MODIFIERS && 2 * |ms| <= |word| && remainder == word[2 * |ms|..]
        invariant DirectModifiers(env, word, MAX_MODIFIERS) ==
                  ms + DirectModifiers(env, remainder, MAX_MODIFIERS - |ms|)
        decreases |remainder|
      {
        var m := env.lookup(remainder[..2]).value;
        DirectUnfold(env, ms, remainder, MAX_MODIFIERS - |ms|, m);
        ms, remainder := NextDirect(word, ms, remainder, m);
      }
      DirectStops(env, ms, remainder, MAX_MODIFIERS - |ms|);
    }

    static method NextDirect(word: Word, ms: seq<Emote>, remainder: Word, m: Emote)
      returns (more: seq<Emote>, rest: Word)
      requires 2 * |ms| <= |word| && remainder == word[2 * |ms|..] && |remainder| > 2
      ensures more == ms + [m] && rest == remainder[2..]
      ensures 2 * |more| <= |word| && rest == word[2 * |more|..]
    {
      return ms + [m], remainder[2..];
    }

    method AddTextOrEmote(word: Word)
      requires |pendingPrefixModifiers| <= MAX_MODIFIERS && IsValidEnv(env)
      modifies this
      ensures St() == WithTextOrEmote(env, old(St()), word)
    {
      var ms, remainder := SplitDirectModifiers(word);
      if ms != [] {
        var base := env.lookup(remainder);
        if base.Some? && base.value.placement == NoPlacement {
          AppendModifiers(ms);
          AppendParsedEmote(base.value, false);
          return;
        }
      }
      if pendingPrefixModifiers != [] {
        var merged := TryAppendEmote(word);
        if merged {
          return;
        }
        FlushPendingModifiers();
      }
      NothingToFlush(env, St());
      var success := TryAppendEmote(word);
      if !success {
        AddPlainWord(word);
      }
    }

    method AppendModifiers(ms: seq<Emote>)
      requires |pendingPrefixModifiers| <= MAX_MODIFIERS
      modifies this
      ensures St() == WithModifierEmotes(env, old(St()), ms)
      ensures |pendingPrefixModifiers| <= MAX_MODIFIERS
    {
      var i := 0;
      assert ms[0..] == ms;
      while i < |ms|
        invariant 0 <= i <= |ms| && |pendingPrefixModifiers| <= MAX_MODIFIERS
        invariant WithModifierEmotes(env, St(), ms[i..]) == WithModifierEmotes(env, old(St()), ms)
      {
        assert ms[i..][0] == ms[i] && ms[i..][1..] == ms[i + 1..];
        var _ := AppendModifier(ms[i]);
        i := i + 1;
      }
    }

    // What the tokenizer's visitor does with one item.
    method AddInput(i: Input)
      requires |pendingPrefixModifiers| <= MAX_MODIFIERS && IsValidEnv(env)
      modifies this
      ensures St() == WithInput(env, old(St()), i)
    {
      match i {
        case TextInput(word) => AddTextOrEmote(word);
        case TwitchEmote(emote, gigantified, trailing) =>
          AppendParsedEmote(emote, gigantified);
          if elements != [] {
            ReplaceBack(SetTrailingSpace(elements[|elements| - 1], trailing));
          }
        case Emoji(emoji) =>
          FlushPendingModifiers();
          Emplace(EmoteOf(emoji, EMOJI_ALL, false));
        case GifInput(text) =>
          FlushPendingModifiers();
          if env.showGifs {
            Emplace(ImageElement([]));
            Emplace(ImageElement([text]));
          } else {
            Emplace(TextElement([text], Link, {Text}, env.color, 0, true));
          }
        case Break => FlushPendingModifiers();
      }
    }

    // Adds the text of a message behind what the builder holds already.
    method AddWords(inputs: seq<Input>)
      requires St().Valid() && IsValidEnv(env)
      requires forall i :: 0 <= i < |inputs| ==> IsValidInput(inputs[i])
      modifies this
      ensures St() == Flush(env, WithInputs(env, old(St()), inputs))
      ensures St().Valid() && pendingPrefixModifiers == []
      ensures Flatten(elements) == old(St().Tokens()) + InputsTokens(env, inputs)
      ensures Concat(InputsTokens(env, inputs)) == InputsText(inputs)
    {
      ReleasedMessage(env, St(), inputs);
      var i := 0;
      assert inputs[0..] == inputs;
      while i < |inputs|
        invariant 0 <= i <= |inputs| && St().Valid()
        invariant WithInputs(env, St(), inputs[i..]) == WithInputs(env, old(St()), inputs)
      {
        TailStep(inputs, i);
        RunStep(env, St(), inputs[i], inputs[i + 1..]);
        InputResult(env, St(), inputs[i]);
        AddInput(inputs[i]);
        i := i + 1;
      }
      FlushPendingModifiers();
    }
  }

  lemma DirectUnfold(env: Env, ms: seq<Emote>, remainder: Word, n: nat, m: Emote)
    requires n > 0 && StartsWithModifier(env, remainder) && m == env.lookup(remainder[..2]).value
    ensures ms + DirectModifiers(env, remainder, n) == ms + [m] + DirectModifiers(env, remainder[2..], n - 1)
  {
    var tail := DirectModifiers(env, remainder[2..], n - 1);
    assert ms + ([m] + tail) == ms + [m] + tail;
  }

  lemma DirectStops(env: Env, ms: seq<Emote>, remainder: Word, n: nat)
    requires n == 0 || !StartsWithModifier(env, remainder)
    ensures ms + DirectModifiers(env, remainder, n) == ms
  {
  }

  lemma NothingToFlush(env: Env, st: State)
    ensures st.pending == [] ==> Flush(env, st) == st
  {
    assert st.pending == [] ==> st.elements + TextsOf(env, st.pending) == st.elements;
  }
}
