// Turning words of an already shown message into newly added personal emotes
// (Channel::upsertPersonalSeventvEmotes in src/common/Channel.cpp).

module PersonalEmotes {
  import opened Options
  import opened Sequences
  import opened MessageElements

  // Emotes are stored under their names.
  ghost predicate IsEmoteMap(emotes: map<Word, Emote>) {
    forall name :: name in emotes ==> emotes[name].name == name
  }

  // The elements that hold what the user wrote.
  predicate IsMessageText(e: Element) {
    e.TextElement? && e.kind.Plain? && Text in e.flags
  }

  predicate NamesAnEmote(e: Element, emotes: map<Word, Emote>) {
    IsMessageText(e) && exists i :: 0 <= i < |e.words| && e.words[i] in emotes
  }

  predicate NamesNoEmote(elements: seq<Element>, emotes: map<Word, Emote>) {
    forall i :: 0 <= i < |elements| ==> !NamesAnEmote(elements[i], emotes)
  }

  // The new elements so far and the words that are not in one of them yet.
  datatype Progress = Progress(elements: seq<Element>, words: seq<Word>) {
    function Tokens(): seq<Word> {
      Flatten(elements) + words
    }

    predicate TakesZeroWidth() {
      words == [] && elements != [] &&
      (elements[|elements| - 1].EmoteElement? || elements[|elements| - 1].LayeredEmoteElement?)
    }
  }

  function TextLike(t: Element, words: seq<Word>): Element
    requires t.TextElement?
  {
    TextElement(words, Plain, t.flags, t.color, t.style, true)
  }

  // An emote laid over the last one.
  function LaidOver(base: Element, emote: Emote): Element
    requires base.EmoteElement? || base.LayeredEmoteElement?
  {
    if base.EmoteElement? then
      LayeredEmoteElement([Layer(base.emote, base.flags), Layer(emote, EMOTE)], base.flags + EMOTE, None, true)
    else AddFlags(AddEmoteLayer(base, Layer(emote, EMOTE)), EMOTE)
  }

  function WithWord(p: Progress, t: Element, word: Word, emotes: map<Word, Emote>): Progress
    requires t.TextElement?
  {
    if word !in emotes then Progress(p.elements, p.words + [word])
    else if emotes[word].zeroWidth && p.TakesZeroWidth() then
      var last := |p.elements| - 1;
      Progress(p.elements[..last] + [LaidOver(p.elements[last], emotes[word])], [])
    else
      Progress(p.elements + [TextLike(t, p.words)] + [EmoteElement(emotes[word], EMOTE, false, true)], [])
  }

  function WithWords(p: Progress, t: Element, words: seq<Word>, emotes: map<Word, Emote>): Progress
    requires t.TextElement?
  {
    if words == [] then p
    else WithWord(WithWords(p, t, words[..|words| - 1], emotes), t, words[|words| - 1], emotes)
  }

  // A text is taken apart only if it names an emote.
  function WithElement(elements: seq<Element>, e: Element, emotes: map<Word, Emote>): seq<Element> {
    if NamesAnEmote(e, emotes) then
      var p := WithWords(Progress(elements, []), e, e.words, emotes);
      p.elements + [TextLike(e, p.words)]
    else elements + [e]
  }

  function Upsert(elements: seq<Element>, emotes: map<Word, Emote>): seq<Element> {
    if elements == [] then []
    else WithElement(Upsert(elements[..|elements| - 1], emotes), elements[|elements| - 1], emotes)
  }

  // One word keeps the text and leaves no emote's name behind.
  predicate Keeps(p: Progress, r: Progress, words: seq<Word>, emotes: map<Word, Emote>) {
    && r.Tokens() == p.Tokens() + words
    && (NamesNoEmote(p.elements, emotes) ==> NamesNoEmote(r.elements, emotes))
    && ((forall i :: 0 <= i < |p.words| ==> p.words[i] !in emotes) ==>
         forall i :: 0 <= i < |r.words| ==> r.words[i] !in emotes)
  }

  lemma WordKeeps(p: Progress, t: Element, word: Word, emotes: map<Word, Emote>)
    requires t.TextElement? && IsEmoteMap(emotes)
    requires forall i :: 0 <= i < |p.words| ==> p.words[i] !in emotes
    ensures Keeps(p, WithWord(p, t, word, emotes), [word], emotes)
  {
    if word !in emotes {
      assert Flatten(p.elements) + (p.words + [word]) == p.Tokens() + [word];
    } else if emotes[word].zeroWidth && p.TakesZeroWidth() {
      LaidOverKeeps(p, emotes[word], emotes);
    } else {
      NewEmoteKeeps(p, TextLike(t, p.words), EmoteElement(emotes[word], EMOTE, false, true), emotes);
    }
  }

  lemma NewEmoteKeeps(p: Progress, text: Element, emote: Element, emotes: map<Word, Emote>)
    requires text.TextElement? && text.words == p.words && emote.EmoteElement?
    requires forall i :: 0 <= i < |p.words| ==> p.words[i] !in emotes
    ensures Keeps(p, Progress(p.elements + [text] + [emote], []), [emote.emote.name], emotes)
  {
    var r := Progress(p.elements + [text] + [emote], []);
    FlattenPush(p.elements, text);
    FlattenPush(p.elements + [text], emote);
    assert r.Tokens() == Flatten(r.elements);
  }

  lemma LaidOverKeeps(p: Progress, emote: Emote, emotes: map<Word, Emote>)
    requires p.TakesZeroWidth()
    ensures var last := |p.elements| - 1;
            Keeps(p, Progress(p.elements[..last] + [LaidOver(p.elements[last], emote)], []), [emote.name], emotes)
  {
    var init, base := p.elements[..|p.elements| - 1], p.elements[|p.elements| - 1];
    var over := LaidOver(base, emote);
    assert p.elements == init + [base];
    FlattenPush(init, base);
    FlattenPush(init, over);
    LaidOverTokens(base, emote);
    var r := Progress(init + [over], []);
    assert r.Tokens() == Flatten(r.elements) && p.Tokens() == Flatten(p.elements);
    assert Flatten(init) + (CopyTokens(base) + [emote.name]) == Flatten(init) + CopyTokens(base) + [emote.name];
  }

  lemma LaidOverTokens(base: Element, emote: Emote)
    requires base.EmoteElement? || base.LayeredEmoteElement?
    ensures CopyTokens(LaidOver(base, emote)) == CopyTokens(base) + [emote.name]
  {
    if base.EmoteElement? {
      assert Emotes([Layer(base.emote, base.flags), Layer(emote, EMOTE)]) == [base.emote, emote];
      assert Names([base.emote, emote]) == [base.emote.name] + [emote.name];
    } else {
      assert Emotes(base.layers + [Layer(emote, EMOTE)]) == Emotes(base.layers) + [emote];
      NamesAppend(LayeredTokens(base), [emote]);
      assert Names([emote]) == [emote.name];
    }
  }

  lemma {:induction false} WordsKeep(p: Progress, t: Element, words: seq<Word>, emotes: map<Word, Emote>)
    requires t.TextElement? && IsEmoteMap(emotes)
    requires forall i :: 0 <= i < |p.words| ==> p.words[i] !in emotes
    ensures Keeps(p, WithWords(p, t, words, emotes), words, emotes)
  {
    if words == [] {
      assert p.Tokens() + [] == p.Tokens();
    } else {
      var init, word := words[..|words| - 1], words[|words| - 1];
      assert words == init + [word];
      assert p.Tokens() + (init + [word]) == p.Tokens() + init + [word];
      WordsKeep(p, t, init, emotes);
      WordKeeps(WithWords(p, t, init, emotes), t, word, emotes);
    }
  }

  lemma ElementKeeps(elements: seq<Element>, e: Element, emotes: map<Word, Emote>)
    requires IsEmoteMap(emotes)
    ensures Flatten(WithElement(elements, e, emotes)) == Flatten(elements) + CopyTokens(e)
    ensures NamesNoEmote(elements, emotes) ==> NamesNoEmote(WithElement(elements, e, emotes), emotes)
  {
    if NamesAnEmote(e, emotes) {
      var start := Progress(elements, []);
      WordsKeep(start, e, e.words, emotes);
      NothingBehind(Flatten(elements));
      RestKeeps(start, WithWords(start, e, e.words, emotes), e, emotes);
    } else {
      FlattenPush(elements, e);
    }
  }

  // The words that are left become a text.
  lemma RestKeeps(start: Progress, p: Progress, e: Element, emotes: map<Word, Emote>)
    requires e.TextElement? && start.words == [] && Keeps(start, p, e.words, emotes)
    ensures Flatten(p.elements + [TextLike(e, p.words)]) == start.Tokens() + e.words
    ensures NamesNoEmote(start.elements, emotes) ==> NamesNoEmote(p.elements + [TextLike(e, p.words)], emotes)
  {
    FlattenPush(p.elements, TextLike(e, p.words));
  }

  // The main result: the text of the message is kept, no word of it names an
  // emote any more, and doing it again changes nothing.
  lemma UpsertResult(elements: seq<Element>, emotes: map<Word, Emote>)
    requires IsEmoteMap(emotes)
    ensures Flatten(Upsert(elements, emotes)) == Flatten(elements)
    ensures NamesNoEmote(Upsert(elements, emotes), emotes)
    ensures Upsert(Upsert(elements, emotes), emotes) == Upsert(elements, emotes)
  {
    UpsertKeeps(elements, emotes);
    NothingToUpsert(Upsert(elements, emotes), emotes);
  }

  lemma {:induction false} UpsertKeeps(elements: seq<Element>, emotes: map<Word, Emote>)
    requires IsEmoteMap(emotes)
    ensures Flatten(Upsert(elements, emotes)) == Flatten(elements)
    ensures NamesNoEmote(Upsert(elements, emotes), emotes)
  {
    if elements != [] {
      UpsertKeeps(elements[..|elements| - 1], emotes);
      ElementKeeps(Upsert(elements[..|elements| - 1], emotes), elements[|elements| - 1], emotes);
    }
  }

  lemma {:induction false} NothingToUpsert(elements: seq<Element>, emotes: map<Word, Emote>)
    requires NamesNoEmote(elements, emotes)
    ensures Upsert(elements, emotes) == elements
  {
    if elements != [] {
      var init, last := elements[..|elements| - 1], elements[|elements| - 1];
      assert elements == init + [last];
      NothingToUpsert(init, emotes);
    }
  }

  // A zero-width emote directly behind another emote is laid over it, in the
  // same text or in the one behind it.
  lemma ZeroWidthIsLaidOver(elements: seq<Element>, t: Element, a: Word, z: Word, emotes: map<Word, Emote>)
    requires IsMessageText(t) && t.words == [a, z] && a in emotes && z in emotes
    requires !emotes[a].zeroWidth && emotes[z].zeroWidth
    ensures WithElement(elements, t, emotes) ==
            elements + [TextLike(t, []),
                        LayeredEmoteElement([Layer(emotes[a], EMOTE), Layer(emotes[z], EMOTE)], EMOTE, None, true),
                        TextLike(t, [])]
  {
    var start := Progress(elements, []);
    assert t.words[0] in emotes;
    assert [a, z][..1] == [a] && [a][..0] == [];
    var text, emote := TextLike(t, []), EmoteElement(emotes[a], EMOTE, false, true);
    assert WithWords(start, t, [], emotes) == start;
    assert WithWords(start, t, [a], emotes) == WithWord(start, t, a, emotes);
    var p := Progress(elements + [text] + [emote], []);
    assert WithWord(start, t, a, emotes) == p;
    assert p.elements[..|p.elements| - 1] == elements + [text];
    assert EMOTE + EMOTE == EMOTE;
  }

  // The loop over the words of one text element.
  method UpsertWords(elements: seq<Element>, t: Element, emotes: map<Word, Emote>) returns (r: seq<Element>)
    requires IsMessageText(t)
    ensures r == WithElement(elements, t, emotes)
  {
    r := elements;
    var words: seq<Word> := [];
    var anyChange := false;
    var i := 0;
    while i < |t.words|
      invariant 0 <= i <= |t.words|
      invariant Progress(r, words) == WithWords(Progress(elements, []), t, t.words[..i], emotes)
      invariant anyChange <==> exists k :: 0 <= k < i && t.words[k] in emotes
      invariant !anyChange ==> r == elements
    {
      var word := t.words[i];
      assert t.words[..i + 1][..i] == t.words[..i];
      if word !in emotes {
        words := words + [word];
      } else {
        anyChange := true;
        var emote := emotes[word];
        if emote.zeroWidth && Progress(r, words).TakesZeroWidth() {
          r := r[..|r| - 1] + [LaidOver(r[|r| - 1], emote)];
        } else {
          r := r + [TextLike(t, words)];
          words := [];
          r := r + [EmoteElement(emote, EMOTE, false, true)];
        }
      }
      i := i + 1;
    }
    assert t.words[..i] == t.words;
    if anyChange {
      r := r + [TextLike(t, words)];
    } else {
      r := r + [t];
    }
  }

  method UpsertPersonalEmotes(elements: seq<Element>, emotes: map<Word, Emote>) returns (r: seq<Element>)
    requires IsEmoteMap(emotes)
    ensures r == Upsert(elements, emotes)
    ensures Flatten(r) == Flatten(elements) && NamesNoEmote(r, emotes) && Upsert(r, emotes) == r
  {
    r := [];
    var i := 0;
    while i < |elements|
      invariant 0 <= i <= |elements| && r == Upsert(elements[..i], emotes)
    {
      var e := elements[i];
      assert elements[..i + 1][..i] == elements[..i];
      if IsMessageText(e) {
        r := UpsertWords(r, e, emotes);
      } else {
        r := r + [e];
      }
      i := i + 1;
    }
    assert elements[..i] == elements;
    UpsertResult(elements, emotes);
  }

  // ----- what a reader sees -----

  // A word of the message's text, any other word, or an emote.
  datatype Piece = MessageWord(word: Word) | OtherWord(word: Word) | Picture(emote: Emote)

  function MessageWords(words: seq<Word>): (r: seq<Piece>)
    ensures |r| == |words|
  {
    seq(|words|, i requires 0 <= i < |words| => MessageWord(words[i]))
  }

  function OtherWords(words: seq<Word>): (r: seq<Piece>)
    ensures |r| == |words|
  {
    seq(|words|, i requires 0 <= i < |words| => OtherWord(words[i]))
  }

  function Pictures(shown: seq<Emote>): (r: seq<Piece>)
    ensures |r| == |shown|
  {
    seq(|shown|, i requires 0 <= i < |shown| => Picture(shown[i]))
  }

  function PiecesOf(e: Element): seq<Piece> {
    match e
    case TextElement(words, _, _, _, _, _) => if IsMessageText(e) then MessageWords(words) else OtherWords(words)
    case EmoteElement(emote, _, _, _) => [Picture(emote)]
    case LayeredEmoteElement(_, _, _, _) => Pictures(LayeredTokens(e))
    case ImageElement(copyText) => OtherWords(copyText)
  }

  function Pieces(elements: seq<Element>): seq<Piece> {
    if elements == [] then [] else Pieces(elements[..|elements| - 1]) + PiecesOf(elements[|elements| - 1])
  }

  // The word as the emote of that name, if there is one.
  function AsEmote(p: Piece, emotes: map<Word, Emote>): Piece {
    if p.MessageWord? && p.word in emotes then Picture(emotes[p.word]) else p
  }

  function AsEmotes(ps: seq<Piece>, emotes: map<Word, Emote>): (r: seq<Piece>)
    ensures |r| == |ps|
  {
    seq(|ps|, i requires 0 <= i < |ps| => AsEmote(ps[i], emotes))
  }

  lemma PiecesPush(elements: seq<Element>, e: Element)
    ensures Pieces(elements + [e]) == Pieces(elements) + PiecesOf(e)
  {
    assert (elements + [e])[..|elements|] == elements;
  }

  // Everything so far, and the words that are not in an element yet.
  function PiecesSoFar(p: Progress): seq<Piece> {
    Pieces(p.elements) + MessageWords(p.words)
  }

  lemma LaidOverPieces(base: Element, emote: Emote)
    requires base.EmoteElement? || base.LayeredEmoteElement?
    ensures PiecesOf(LaidOver(base, emote)) == PiecesOf(base) + [Picture(emote)]
  {
    if base.EmoteElement? {
      assert Emotes([Layer(base.emote, base.flags), Layer(emote, EMOTE)]) == [base.emote, emote];
    } else {
      assert Emotes(base.layers + [Layer(emote, EMOTE)]) == Emotes(base.layers) + [emote];
    }
  }

  lemma LaidOverSoFar(p: Progress, emote: Emote)
    requires p.TakesZeroWidth()
    ensures var last := |p.elements| - 1;
            PiecesSoFar(Progress(p.elements[..last] + [LaidOver(p.elements[last], emote)], [])) ==
            PiecesSoFar(p) + [Picture(emote)]
  {
    var init, base := p.elements[..|p.elements| - 1], p.elements[|p.elements| - 1];
    LaidOverPieces(base, emote);
    PiecesPush(init, LaidOver(base, emote));
    Regroup(Pieces(init), PiecesOf(base), [Picture(emote)]);
    assert MessageWords([]) == [];
    NothingBehind(Pieces(init + [LaidOver(base, emote)]));
    NothingBehind(Pieces(p.elements));
  }

  lemma NewEmoteSoFar(p: Progress, t: Element, emote: Emote)
    requires IsMessageText(t)
    ensures var shown := EmoteElement(emote, EMOTE, false, true);
            PiecesSoFar(Progress(p.elements + [TextLike(t, p.words)] + [shown], [])) ==
            PiecesSoFar(p) + [Picture(emote)]
  {
    var text, e := TextLike(t, p.words), EmoteElement(emote, EMOTE, false, true);
    PiecesPush(p.elements, text);
    PiecesPush(p.elements + [text], e);
    assert MessageWords([]) == [];
    NothingBehind(Pieces(p.elements + [text] + [e]));
  }

  lemma WordSoFar(p: Progress, t: Element, word: Word, emotes: map<Word, Emote>)
    requires IsMessageText(t)
    ensures PiecesSoFar(WithWord(p, t, word, emotes)) == PiecesSoFar(p) + [AsEmote(MessageWord(word), emotes)]
  {
    if word !in emotes {
      assert MessageWords(p.words + [word]) == MessageWords(p.words) + [MessageWord(word)];
      Regroup(Pieces(p.elements), MessageWords(p.words), [MessageWord(word)]);
    } else if emotes[word].zeroWidth && p.TakesZeroWidth() {
      LaidOverSoFar(p, emotes[word]);
    } else {
      NewEmoteSoFar(p, t, emotes[word]);
    }
  }

  lemma AsEmotesMore(words: seq<Word>, word: Word, emotes: map<Word, Emote>)
    ensures AsEmotes(MessageWords(words + [word]), emotes) ==
            AsEmotes(MessageWords(words), emotes) + [AsEmote(MessageWord(word), emotes)]
  {
  }

  lemma {:induction false} WordsSoFar(p: Progress, t: Element, words: seq<Word>, emotes: map<Word, Emote>)
    requires IsMessageText(t)
    ensures PiecesSoFar(WithWords(p, t, words, emotes)) == PiecesSoFar(p) + AsEmotes(MessageWords(words), emotes)
  {
    if words == [] {
      assert AsEmotes(MessageWords(words), emotes) == [];
      NothingBehind(PiecesSoFar(p));
    } else {
      var init, word := words[..|words| - 1], words[|words| - 1];
      SplitLast(words);
      WordsSoFar(p, t, init, emotes);
      WordSoFar(WithWords(p, t, init, emotes), t, word, emotes);
      AsEmotesMore(init, word, emotes);
      Regroup(PiecesSoFar(p), AsEmotes(MessageWords(init), emotes), [AsEmote(MessageWord(word), emotes)]);
    }
  }

  lemma ElementPieces(elements: seq<Element>, e: Element, emotes: map<Word, Emote>)
    ensures Pieces(WithElement(elements, e, emotes)) == Pieces(elements) + AsEmotes(PiecesOf(e), emotes)
  {
    if NamesAnEmote(e, emotes) {
      var start := Progress(elements, []);
      var p := WithWords(start, e, e.words, emotes);
      WordsSoFar(start, e, e.words, emotes);
      PiecesPush(p.elements, TextLike(e, p.words));
      assert MessageWords([]) == [];
      NothingBehind(Pieces(elements));
    } else {
      PiecesPush(elements, e);
      assert AsEmotes(PiecesOf(e), emotes) == PiecesOf(e);
    }
  }

  lemma AsEmotesAppend(a: seq<Piece>, b: seq<Piece>, emotes: map<Word, Emote>)
    ensures AsEmotes(a + b, emotes) == AsEmotes(a, emotes) + AsEmotes(b, emotes)
  {
  }

  // A reader sees the same message, in the same order, but for each word of its
  // text that names an emote: that is the emote now.
  lemma {:induction false} UpsertShowsEmotes(elements: seq<Element>, emotes: map<Word, Emote>)
    ensures Pieces(Upsert(elements, emotes)) == AsEmotes(Pieces(elements), emotes)
  {
    if elements == [] {
      assert AsEmotes([], emotes) == [];
    } else {
      var init, e := elements[..|elements| - 1], elements[|elements| - 1];
      UpsertShowsEmotes(init, emotes);
      ElementPieces(Upsert(init, emotes), e, emotes);
      AsEmotesAppend(Pieces(init), PiecesOf(e), emotes);
    }
  }

  // ----- which elements there are -----

  // Plain words, an emote, and the zero-width emotes directly behind it.
  datatype Group = Group(words: seq<Word>, emote: Word, over: seq<Word>)

  function GroupWords(groups: seq<Group>): seq<Word> {
    if groups == [] then []
    else
      var g := groups[|groups| - 1];
      GroupWords(groups[..|groups| - 1]) + (g.words + ([g.emote] + g.over))
  }

  predicate AreNoEmotes(words: seq<Word>, emotes: map<Word, Emote>) {
    forall i :: 0 <= i < |words| ==> words[i] !in emotes
  }

  predicate AreZeroWidth(words: seq<Word>, emotes: map<Word, Emote>) {
    forall i :: 0 <= i < |words| ==> words[i] in emotes && emotes[words[i]].zeroWidth
  }

  predicate IsGroup(g: Group, emotes: map<Word, Emote>) {
    AreNoEmotes(g.words, emotes) && AreZeroWidth(g.over, emotes) && g.emote in emotes
  }

  predicate AreGroups(groups: seq<Group>, emotes: map<Word, Emote>) {
    forall i :: 0 <= i < |groups| ==> IsGroup(groups[i], emotes)
  }

  // A zero-width emote stands for itself behind words, or first of all if there
  // is no emote in front of it.
  predicate EachStandsForItself(groups: seq<Group>, emotes: map<Word, Emote>, noneInFront: bool)
    requires AreGroups(groups, emotes)
  {
    forall i :: 0 <= i < |groups| && emotes[groups[i].emote].zeroWidth ==>
      groups[i].words != [] || (noneInFront && i == 0)
  }

  predicate EndsWithPicture(elements: seq<Element>) {
    elements != [] && IsPicture(elements[|elements| - 1])
  }

  predicate IsPicture(e: Element) {
    e.EmoteElement? || e.LayeredEmoteElement?
  }

  function EmotesOf(words: seq<Word>, emotes: map<Word, Emote>): (r: seq<Emote>)
    requires AreZeroWidth(words, emotes)
    ensures |r| == |words|
  {
    seq(|words|, i requires 0 <= i < |words| => emotes[words[i]])
  }

  // An element with emotes laid over it, in order.
  function Covered(base: Element, over: seq<Emote>): Element {
    if over == [] then base
    else
      match base
      case EmoteElement(emote, flags, _, _) =>
        LayeredEmoteElement([Layer(emote, flags)] + Over(over), flags + {EmoteImage, EmoteText}, None, true)
      case LayeredEmoteElement(layers, flags, None, trailing) =>
        LayeredEmoteElement(layers + Over(over), flags + {EmoteImage, EmoteText}, None, trailing)
      case LayeredEmoteElement(layers, flags, Some(d), trailing) =>
        LayeredEmoteElement(layers + Over(over), flags + {EmoteImage, EmoteText},
                            Some(ModifierData(d.modifiers, d.copyTokens + over)), trailing)
      case _ => base
  }

  function WithLastCovered(elements: seq<Element>, over: seq<Emote>): seq<Element> {
    if elements == [] then []
    else elements[..|elements| - 1] + [Covered(elements[|elements| - 1], over)]
  }

  // A group is a text of its words and an emote.
  function GroupElements(t: Element, groups: seq<Group>, emotes: map<Word, Emote>): seq<Element>
    requires t.TextElement? && AreGroups(groups, emotes)
  {
    if groups == [] then []
    else
      var g := groups[|groups| - 1];
      GroupElements(t, groups[..|groups| - 1], emotes) +
      [TextElement(g.words, Plain, t.flags, t.color, t.style, true),
       Covered(EmoteElement(emotes[g.emote], {EmoteImage, EmoteText}, false, true), EmotesOf(g.over, emotes))]
  }

  lemma {:induction false} WithWordsAppend(p: Progress, t: Element, a: seq<Word>, b: seq<Word>,
                                           emotes: map<Word, Emote>)
    requires t.TextElement?
    ensures WithWords(p, t, a + b, emotes) == WithWords(WithWords(p, t, a, emotes), t, b, emotes)
  {
    if b == [] {
      NothingBehind(a);
    } else {
      var init, w := b[..|b| - 1], b[|b| - 1];
      SplitLast(b);
      Regroup(a, init, [w]);
      WithOneMore(p, t, a + init, w, emotes);
      WithWordsAppend(p, t, a, init, emotes);
    }
  }

  lemma WithOneMore(p: Progress, t: Element, ws: seq<Word>, w: Word, emotes: map<Word, Emote>)
    requires t.TextElement?
    ensures WithWords(p, t, ws + [w], emotes) == WithWord(WithWords(p, t, ws, emotes), t, w, emotes)
  {
    assert (ws + [w])[..|ws|] == ws;
  }

  lemma {:induction false} PlainWordsWait(p: Progress, t: Element, ws: seq<Word>, emotes: map<Word, Emote>)
    requires t.TextElement? && AreNoEmotes(ws, emotes)
    ensures WithWords(p, t, ws, emotes) == Progress(p.elements, p.words + ws)
  {
    if ws == [] {
      NothingBehind(p.words);
    } else {
      var init, w := ws[..|ws| - 1], ws[|ws| - 1];
      SplitLast(ws);
      PlainWordsWait(p, t, init, emotes);
      Regroup(p.words, init, [w]);
    }
  }

  lemma CoveredOnce(base: Element, over: seq<Emote>, z: Emote)
    requires IsPicture(base)
    ensures IsPicture(Covered(base, over)) && LaidOver(Covered(base, over), z) == Covered(base, over + [z])
  {
    assert EMOTE + EMOTE == EMOTE && Over(over + [z]) == Over(over) + [Layer(z, EMOTE)];
    if over == [] {
      assert over + [z] == [z] && Over([z]) == [Layer(z, EMOTE)];
      assert base.EmoteElement? ==> [Layer(base.emote, base.flags)] + [Layer(z, EMOTE)] ==
                                    [Layer(base.emote, base.flags), Layer(z, EMOTE)];
    } else {
      assert base.flags + EMOTE + EMOTE == base.flags + EMOTE;
      CoveredStep(base, over, z);
    }
  }

  lemma CoveredStep(base: Element, over: seq<Emote>, z: Emote)
    requires IsPicture(base)
    ensures base.EmoteElement? ==> [Layer(base.emote, base.flags)] + Over(over) + [Layer(z, EMOTE)] ==
                                   [Layer(base.emote, base.flags)] + (Over(over) + [Layer(z, EMOTE)])
    ensures base.LayeredEmoteElement? ==>
              base.layers + Over(over) + [Layer(z, EMOTE)] == base.layers + (Over(over) + [Layer(z, EMOTE)])
    ensures base.LayeredEmoteElement? && base.modifierData.Some? ==>
              base.modifierData.value.copyTokens + over + [z] == base.modifierData.value.copyTokens + (over + [z])
  {
  }

  lemma {:induction false} ZeroWidthsCover(elements: seq<Element>, t: Element, zs: seq<Word>, emotes: map<Word, Emote>)
    requires t.TextElement? && EndsWithPicture(elements) && AreZeroWidth(zs, emotes)
    ensures WithWords(Progress(elements, []), t, zs, emotes) ==
            Progress(WithLastCovered(elements, EmotesOf(zs, emotes)), [])
  {
    if zs == [] {
      SplitLast(elements);
    } else {
      var init, z := zs[..|zs| - 1], zs[|zs| - 1];
      SplitLast(zs);
      ZeroWidthsCover(elements, t, init, emotes);
      WithOneMore(Progress(elements, []), t, init, z, emotes);
      OneCoversMore(elements, t, init, z, emotes);
    }
  }

  lemma OneCoversMore(elements: seq<Element>, t: Element, zs: seq<Word>, z: Word, emotes: map<Word, Emote>)
    requires t.TextElement? && EndsWithPicture(elements)
    requires AreZeroWidth(zs, emotes) && z in emotes && emotes[z].zeroWidth
    ensures AreZeroWidth(zs + [z], emotes)
    ensures WithWord(Progress(WithLastCovered(elements, EmotesOf(zs, emotes)), []), t, z, emotes) ==
            Progress(WithLastCovered(elements, EmotesOf(zs + [z], emotes)), [])
  {
    var before, base, over := elements[..|elements| - 1], elements[|elements| - 1], EmotesOf(zs, emotes);
    assert EmotesOf(zs + [z], emotes) == over + [emotes[z]];
    CoveredOnce(base, over, emotes[z]);
    LastCoveredAgain(before, Covered(base, over), t, z, emotes);
  }

  lemma LastCoveredAgain(before: seq<Element>, e: Element, t: Element, z: Word, emotes: map<Word, Emote>)
    requires t.TextElement? && IsPicture(e) && z in emotes && emotes[z].zeroWidth
    ensures WithWord(Progress(before + [e], []), t, z, emotes) == Progress(before + [LaidOver(e, emotes[z])], [])
  {
    assert (before + [e])[..|before|] == before;
  }

  lemma WithGroup(elements: seq<Element>, t: Element, g: Group, emotes: map<Word, Emote>)
    requires t.TextElement? && IsGroup(g, emotes)
    requires emotes[g.emote].zeroWidth ==> g.words != [] || !EndsWithPicture(elements)
    ensures WithWords(Progress(elements, []), t, g.words + ([g.emote] + g.over), emotes) ==
            Progress(elements + GroupElements(t, [g], emotes), [])
  {
    var start := Progress(elements, []);
    WithWordsAppend(start, t, g.words, [g.emote] + g.over, emotes);
    PlainWordsWait(start, t, g.words, emotes);
    assert [] + g.words == g.words;
    var waiting := Progress(elements, g.words);
    WithWordsAppend(waiting, t, [g.emote], g.over, emotes);
    WithOneMore(waiting, t, [], g.emote, emotes);
    assert [] + [g.emote] == [g.emote];
    var text, emote := TextLike(t, g.words), EmoteElement(emotes[g.emote], EMOTE, false, true);
    ZeroWidthsCover(elements + [text] + [emote], t, g.over, emotes);
    assert (elements + [text] + [emote])[..|elements| + 1] == elements + [text];
    OneGroup(elements, t, g, emotes);
  }

  lemma OneGroup(elements: seq<Element>, t: Element, g: Group, emotes: map<Word, Emote>)
    requires t.TextElement? && IsGroup(g, emotes)
    ensures elements + GroupElements(t, [g], emotes) ==
            elements + [TextLike(t, g.words)] +
            [Covered(EmoteElement(emotes[g.emote], EMOTE, false, true), EmotesOf(g.over, emotes))]
  {
    assert [g][..0] == [];
  }

  lemma GroupsAppend(t: Element, groups: seq<Group>, g: Group, emotes: map<Word, Emote>)
    requires t.TextElement? && AreGroups(groups + [g], emotes)
    ensures AreGroups(groups, emotes) && AreGroups([g], emotes)
    ensures GroupElements(t, groups + [g], emotes) == GroupElements(t, groups, emotes) + GroupElements(t, [g], emotes)
    ensures GroupWords(groups + [g]) == GroupWords(groups) + (g.words + ([g.emote] + g.over))
  {
    var all := groups + [g];
    assert all[..|groups|] == groups && all[|groups|] == g && [g][..0] == [];
    forall i | 0 <= i < |groups| ensures IsGroup(groups[i], emotes) {
      assert IsGroup(all[i], emotes);
    }
  }

  lemma {:induction false} WithGroups(elements: seq<Element>, t: Element, groups: seq<Group>, emotes: map<Word, Emote>)
    requires t.TextElement? && AreGroups(groups, emotes)
    requires EachStandsForItself(groups, emotes, !EndsWithPicture(elements))
    ensures WithWords(Progress(elements, []), t, GroupWords(groups), emotes) ==
            Progress(elements + GroupElements(t, groups, emotes), [])
  {
    if groups == [] {
      NothingBehind(elements);
    } else {
      var init, g := groups[..|groups| - 1], groups[|groups| - 1];
      SplitLast(groups);
      GroupsAppend(t, init, g, emotes);
      WithGroups(elements, t, init, emotes);
      WithWordsAppend(Progress(elements, []), t, GroupWords(init), g.words + ([g.emote] + g.over), emotes);
      NothingBehind(elements);
      WithGroup(elements + GroupElements(t, init, emotes), t, g, emotes);
      Regroup(elements, GroupElements(t, init, emotes), GroupElements(t, [g], emotes));
    }
  }

  // A text of the message, from left to right: the zero-width emotes it begins
  // with are laid over the emote in front of it, each group becomes a text and an
  // emote with those behind it laid over it, and the rest stays a text. The texts
  // are as the old one.
  lemma ElementsOfText(elements: seq<Element>, t: Element, zs: seq<Word>, groups: seq<Group>, rest: seq<Word>,
                       emotes: map<Word, Emote>)
    requires IsMessageText(t) && t.words == zs + GroupWords(groups) + rest && (zs != [] || groups != [])
    requires AreZeroWidth(zs, emotes) && AreGroups(groups, emotes) && AreNoEmotes(rest, emotes)
    requires EachStandsForItself(groups, emotes, !EndsWithPicture(elements)) && (zs != [] ==> EndsWithPicture(elements))
    ensures WithElement(elements, t, emotes) ==
            (if zs == [] then elements else WithLastCovered(elements, EmotesOf(zs, emotes))) +
            GroupElements(t, groups, emotes) + [TextElement(rest, Plain, t.flags, t.color, t.style, true)]
  {
    var start := Progress(elements, []);
    var before := if zs == [] then elements else WithLastCovered(elements, EmotesOf(zs, emotes));
    WithWordsAppend(start, t, zs + GroupWords(groups), rest, emotes);
    WithWordsAppend(start, t, zs, GroupWords(groups), emotes);
    if zs != [] {
      ZeroWidthsCover(elements, t, zs, emotes);
    }
    WithGroups(before, t, groups, emotes);
    PlainWordsWait(Progress(before + GroupElements(t, groups, emotes), []), t, rest, emotes);
    assert [] + rest == rest;
    TextNamesEmote(t, zs, groups, rest, emotes);
  }

  lemma TextNamesEmote(t: Element, zs: seq<Word>, groups: seq<Group>, rest: seq<Word>, emotes: map<Word, Emote>)
    requires IsMessageText(t) && t.words == zs + GroupWords(groups) + rest && (zs != [] || groups != [])
    requires AreZeroWidth(zs, emotes) && AreGroups(groups, emotes)
    ensures NamesAnEmote(t, emotes)
  {
    if zs != [] {
      assert t.words[0] == zs[0];
    } else {
      var init, g := groups[..|groups| - 1], groups[|groups| - 1];
      var k := |GroupWords(init)| + |g.words|;
      assert GroupWords(groups)[k] == g.emote;
      assert t.words[k] == g.emote;
    }
  }
}
