// The elements a message is made of and the text they stand for
// (src/messages/MessageElement.cpp).

module MessageElements {
  import opened Options
  import opened Sequences

  // A text without a space: what the tokenizer calls a word, and an emote's
  // name.  Splitting it at spaces gives back the text alone.
  type Word = s: string | ' ' !in s witness ""

  datatype Placement = NoPlacement | Prefix | Suffix

  // id keeps emotes of the same name apart.
  datatype Emote = Emote(id: nat, name: Word, placement: Placement, zeroWidth: bool)

  datatype Flag = Text | EmoteImage | EmoteText | EmojiImage | EmojiText

  const EMOTE: set<Flag> := {EmoteImage, EmoteText}
  const EMOJI_ALL: set<Flag> := {EmojiImage, EmojiText}

  const MAX_MODIFIERS := 16

  datatype Layer = Layer(emote: Emote, flags: set<Flag>)

  // Modifiers of an emote and, for copying, all its emotes in reading order.
  datatype ModifierData = ModifierData(modifiers: seq<Emote>, copyTokens: seq<Emote>)

  datatype TextKind = Plain | Mention | Link

  datatype Element =
    | TextElement(words: seq<Word>, kind: TextKind, flags: set<Flag>, color: nat, style: nat, trailingSpace: bool)
    | EmoteElement(emote: Emote, flags: set<Flag>, gigantified: bool, trailingSpace: bool)
    | LayeredEmoteElement(layers: seq<Layer>, flags: set<Flag>, modifierData: Option<ModifierData>, trailingSpace: bool)
    | ImageElement(copyText: seq<Word>)

  function Names(emotes: seq<Emote>): (r: seq<Word>)
    ensures |r| == |emotes|
  {
    seq(|emotes|, i requires 0 <= i < |emotes| => emotes[i].name)
  }

  function Emotes(layers: seq<Layer>): (r: seq<Emote>)
    ensures |r| == |layers|
  {
    seq(|layers|, i requires 0 <= i < |layers| => layers[i].emote)
  }

  // The emotes a layered element is copied as.
  function LayeredTokens(e: Element): seq<Emote>
    requires e.LayeredEmoteElement?
  {
    if e.modifierData.Some? then e.modifierData.value.copyTokens else Emotes(e.layers)
  }

  function Modifiers(e: Element): seq<Emote>
    requires e.LayeredEmoteElement?
  {
    if e.modifierData.Some? then e.modifierData.value.modifiers else []
  }

  // The words an element is copied as.
  function CopyTokens(e: Element): seq<Word> {
    match e
    case TextElement(words, _, _, _, _, _) => words
    case EmoteElement(emote, _, _, _) => [emote.name]
    case LayeredEmoteElement(_, _, _, _) => Names(LayeredTokens(e))
    case ImageElement(copyText) => copyText
  }

  function Flatten(elements: seq<Element>): seq<Word> {
    if elements == [] then [] else Flatten(elements[..|elements| - 1]) + CopyTokens(elements[|elements| - 1])
  }

  lemma {:induction false} FlattenAppend(a: seq<Element>, b: seq<Element>)
    ensures Flatten(a + b) == Flatten(a) + Flatten(b)
  {
    if b == [] {
      assert a + b == a;
    } else {
      var init, last := b[..|b| - 1], b[|b| - 1];
      var t := CopyTokens(last);
      calc {
        Flatten(a + b);
        { assert a + b == (a + init) + [last]; FlattenPush(a + init, last); }
        Flatten(a + init) + t;
        { FlattenAppend(a, init); }
        Flatten(a) + Flatten(init) + t;
        Flatten(a) + (Flatten(init) + t);
      }
    }
  }

  lemma FlattenPush(a: seq<Element>, e: Element)
    ensures Flatten(a + [e]) == Flatten(a) + CopyTokens(e)
  {
    assert (a + [e])[..|a|] == a;
  }

  lemma NamesAppend(a: seq<Emote>, b: seq<Emote>)
    ensures Names(a + b) == Names(a) + Names(b)
  {
  }

  // The modifiers and the layers are all there is to copy.
  predicate IsAccountedFor(e: Element)
    requires e.LayeredEmoteElement?
  {
    e.modifierData.Some? ==>
      multiset(e.modifierData.value.copyTokens) == multiset(Emotes(e.layers)) + multiset(e.modifierData.value.modifiers)
  }

  predicate IsValidElement(e: Element) {
    e.LayeredEmoteElement? ==> |Modifiers(e)| <= MAX_MODIFIERS && IsAccountedFor(e)
  }

  // The layers of emotes that are laid over another.
  function Over(zs: seq<Emote>): (r: seq<Layer>)
    ensures |r| == |zs|
  {
    seq(|zs|, i requires 0 <= i < |zs| => Layer(zs[i], {EmoteImage, EmoteText}))
  }

  function AddEmoteLayer(e: Element, layer: Layer): (r: Element)
    requires e.LayeredEmoteElement?
    ensures r.LayeredEmoteElement?
  {
    e.(layers := e.layers + [layer],
       modifierData :=
         match e.modifierData
         case None => None
         case Some(d) => Some(d.(copyTokens := d.copyTokens + [layer.emote])))
  }

  function AddFlags(e: Element, more: set<Flag>): Element {
    match e
    case TextElement(words, kind, flags, color, style, trailing) =>
      TextElement(words, kind, flags + more, color, style, trailing)
    case EmoteElement(emote, flags, gigantified, trailing) => EmoteElement(emote, flags + more, gigantified, trailing)
    case LayeredEmoteElement(layers, flags, data, trailing) => LayeredEmoteElement(layers, flags + more, data, trailing)
    case ImageElement(_) => e
  }

  function SetTrailingSpace(e: Element, value: bool): Element {
    match e
    case TextElement(words, kind, flags, color, style, _) => TextElement(words, kind, flags, color, style, value)
    case EmoteElement(emote, flags, gigantified, _) => EmoteElement(emote, flags, gigantified, value)
    case LayeredEmoteElement(layers, flags, data, _) => LayeredEmoteElement(layers, flags, data, value)
    case ImageElement(_) => e
  }

  // The number of prefixes a list of emotes starts with.
  function PrefixCount(emotes: seq<Emote>): (k: nat)
    ensures k <= |emotes|
    ensures forall i :: 0 <= i < k ==> emotes[i].placement == Prefix
    ensures k < |emotes| ==> emotes[k].placement != Prefix
  {
    if emotes == [] || emotes[0].placement != Prefix then 0 else 1 + PrefixCount(emotes[1..])
  }

  // A prefix goes behind the prefixes, a suffix to the end.
  function WithModifier(d: ModifierData, modifier: Emote): ModifierData {
    var k := if modifier.placement == Prefix then PrefixCount(d.copyTokens) else |d.copyTokens|;
    ModifierData(d.modifiers + [modifier], Insert(d.copyTokens, k, modifier))
  }

  function DataOf(e: Element): ModifierData
    requires e.LayeredEmoteElement?
  {
    if e.modifierData.Some? then e.modifierData.value else ModifierData([], Emotes(e.layers))
  }

  function AddModifier(e: Element, modifier: Emote): (r: Element)
    requires e.LayeredEmoteElement?
    ensures r.LayeredEmoteElement?
  {
    if modifier.placement == NoPlacement then e
    else e.(modifierData := Some(WithModifier(DataOf(e), modifier)))
  }

  lemma WithModifierResult(d: ModifierData, m: Emote)
    ensures multiset(WithModifier(d, m).copyTokens) == multiset(d.copyTokens) + multiset{m}
    ensures multiset(WithModifier(d, m).modifiers) == multiset(d.modifiers) + multiset{m}
    ensures m.placement != Prefix ==> WithModifier(d, m).copyTokens == d.copyTokens + [m]
  {
    var k := if m.placement == Prefix then PrefixCount(d.copyTokens) else |d.copyTokens|;
    InsertCounts(d.copyTokens, k, m);
    assert Insert(d.copyTokens, |d.copyTokens|, m) == d.copyTokens + [m];
  }

  lemma AddModifierResult(e: Element, m: Emote)
    requires e.LayeredEmoteElement? && IsValidElement(e) && |Modifiers(e)| < MAX_MODIFIERS
    ensures IsValidElement(AddModifier(e, m))
    ensures m.placement != NoPlacement ==> Modifiers(AddModifier(e, m)) == Modifiers(e) + [m]
  {
    WithModifierResult(DataOf(e), m);
  }

  lemma AddEmoteLayerResult(e: Element, layer: Layer)
    requires e.LayeredEmoteElement? && IsValidElement(e)
    ensures var r := AddEmoteLayer(e, layer);
            IsValidElement(r) && CopyTokens(r) == CopyTokens(e) + [layer.emote.name]
  {
    assert Emotes(e.layers + [layer]) == Emotes(e.layers) + [layer.emote];
  }

  lemma AddSuffixResult(e: Element, m: Emote)
    requires e.LayeredEmoteElement? && IsValidElement(e) && |Modifiers(e)| < MAX_MODIFIERS
    requires m.placement == Suffix
    ensures IsValidElement(AddModifier(e, m))
    ensures Modifiers(AddModifier(e, m)) == Modifiers(e) + [m]
    ensures LayeredTokens(AddModifier(e, m)) == LayeredTokens(e) + [m]
    ensures CopyTokens(AddModifier(e, m)) == CopyTokens(e) + [m.name]
  {
    AddModifierResult(e, m);
    WithModifierResult(DataOf(e), m);
    NamesAppend(LayeredTokens(e), [m]);
    assert Names([m]) == [m.name];
  }

  function AddModifiers(e: Element, modifiers: seq<Emote>): (r: Element)
    requires e.LayeredEmoteElement?
    ensures r.LayeredEmoteElement?
  {
    if modifiers == [] then e
    else AddModifier(AddModifiers(e, modifiers[..|modifiers| - 1]), modifiers[|modifiers| - 1])
  }

  predicate ArePrefixes(ms: seq<Emote>) {
    forall i :: 0 <= i < |ms| ==> ms[i].placement == Prefix
  }

  lemma {:induction false} PrefixCountOf(ms: seq<Emote>, base: Emote)
    requires ArePrefixes(ms) && base.placement != Prefix
    ensures PrefixCount(ms + [base]) == |ms|
  {
    if ms != [] {
      PrefixCountOf(ms[1..], base);
      assert (ms + [base])[1..] == ms[1..] + [base];
    }
  }

  // r is the given emote with the given prefixes in front of it.
  predicate IsPrefixed(r: Element, base: Layer, ms: seq<Emote>) {
    && r.LayeredEmoteElement? && IsValidElement(r)
    && r.layers == [base] && r.flags == base.flags && r.trailingSpace
    && Modifiers(r) == ms
    && LayeredTokens(r) == ms + [base.emote]
  }

  lemma AddPrefixStep(e: Element, base: Layer, ms: seq<Emote>, m: Emote)
    requires IsPrefixed(e, base, ms) && |ms| < MAX_MODIFIERS
    requires base.emote.placement != Prefix && m.placement == Prefix && ArePrefixes(ms)
    ensures IsPrefixed(AddModifier(e, m), base, ms + [m])
  {
    AddModifierResult(e, m);
    PrefixCountOf(ms, base.emote);
    assert Insert(ms + [base.emote], |ms|, m) == ms + [m] + [base.emote];
  }

  // The pending prefixes of an emote come to stand in front of it, in order.
  lemma {:induction false} AddPrefixesResult(e: Element, base: Layer, ms: seq<Emote>)
    requires IsPrefixed(e, base, []) && base.emote.placement != Prefix
    requires |ms| <= MAX_MODIFIERS && ArePrefixes(ms)
    ensures IsPrefixed(AddModifiers(e, ms), base, ms)
  {
    if ms != [] {
      var init, m := ms[..|ms| - 1], ms[|ms| - 1];
      assert ms == init + [m];
      AddPrefixesResult(e, base, init);
      AddPrefixStep(AddModifiers(e, init), base, init, m);
    }
  }
}
