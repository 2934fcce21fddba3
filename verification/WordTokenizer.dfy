// Taking a message apart into words, special items (Twitch emotes and GIFs) and
// breaks (tokenizeWords in src/messages/MessageBuilder.cpp).

module WordTokenizer {
  import opened Utf16
  import opened Sequences

  const SPACE: CodeUnit := ' ' as int

  datatype Data = Emote(emote: nat) | Gif(gif: nat)

  datatype Special = Special(start: nat, length: nat, data: Data) {
    function End(): nat { start + length }
  }

  // What the visitor is called with.  Where a token carries no view in the
  // source, begin and end record the place it comes from.
  datatype Token =
    | TextToken(begin: nat, end: nat)
    | EmoteToken(begin: nat, end: nat, emote: nat, trailingSpace: bool, gigantified: bool)
    | GifToken(begin: nat, end: nat, gif: nat)
    | BreakToken(begin: nat, end: nat)

  predicate IsWellFormed(text: Text, specials: seq<Special>) {
    && (forall i :: 0 <= i < |specials| ==>
         specials[i].length > 0 && specials[i].End() <= |text| && text[specials[i].start] != SPACE)
    && (forall i, j :: 0 <= i < j < |specials| ==> specials[i].End() <= specials[j].start)
  }

  predicate Inside(specials: seq<Special>, p: int) {
    exists i :: 0 <= i < |specials| && specials[i].start <= p < specials[i].End()
  }

  predicate IsWordCharacter(text: Text, specials: seq<Special>, p: int) {
    0 <= p < |text| && text[p] != SPACE && !Inside(specials, p)
  }

  predicate IsOpenSpace(text: Text, specials: seq<Special>, p: int) {
    0 <= p < |text| && text[p] == SPACE && !Inside(specials, p)
  }

  predicate IsWord(text: Text, specials: seq<Special>, begin: nat, end: nat) {
    && begin < end <= |text|
    && (forall p :: begin <= p < end ==> IsWordCharacter(text, specials, p))
    && !IsWordCharacter(text, specials, begin - 1)
    && !IsWordCharacter(text, specials, end)
  }

  function SpecialToken(text: Text, s: Special, gigantifiedStart: int): Token
    requires s.End() <= |text|
  {
    match s.data
    case Emote(e) =>
      EmoteToken(s.start, s.End(), e, s.End() == |text| || text[s.End()] == SPACE, s.start == gigantifiedStart)
    case Gif(g) => GifToken(s.start, s.End(), g)
  }

  // The tokens of a text: the maximal runs of word characters, the special
  // items, and a break at every space behind a space.
  ghost predicate IsToken(text: Text, specials: seq<Special>, gigantifiedStart: int, t: Token)
    requires IsWellFormed(text, specials)
  {
    match t
    case TextToken(b, e) => IsWord(text, specials, b, e)
    case BreakToken(b, e) => b == e && IsOpenSpace(text, specials, b) && IsOpenSpace(text, specials, b - 1)
    case _ => exists i :: 0 <= i < |specials| && t == SpecialToken(text, specials[i], gigantifiedStart)
  }

  predicate InOrder(tokens: seq<Token>) {
    forall a, b :: 0 <= a < b < |tokens| ==>
      tokens[a].begin < tokens[b].begin && tokens[a].end <= tokens[b].begin
  }

  // The result: every token of the text, once, from left to right.
  ghost predicate IsTokenization(text: Text, specials: seq<Special>, gigantifiedStart: int, tokens: seq<Token>)
    requires IsWellFormed(text, specials)
  {
    && InOrder(tokens)
    && (forall t :: t in tokens <==> IsToken(text, specials, gigantifiedStart, t))
  }

  // The tokens that are complete before position c is read.
  predicate IsDone(t: Token, c: nat) {
    match t
    case TextToken(_, e) => e < c
    case _ => t.begin < c
  }

  // Where the loop is: the word that is open (from wordBegin on, if that is
  // not negative) and the special items that are left (from k on).
  ghost predicate IsAt(text: Text, specials: seq<Special>,
                       current: nat, k: nat, wordBegin: int, previousWasSpace: bool)
  {
    && current <= |text| && k <= |specials|
    && (forall i :: 0 <= i < k ==> specials[i].End() <= current)
    && (forall i :: k <= i < |specials| ==> current <= specials[i].start)
    && (previousWasSpace <==> IsOpenSpace(text, specials, current - 1))
    && (if wordBegin >= 0 then
          && wordBegin < current
          && (forall p :: wordBegin <= p < current ==> IsWordCharacter(text, specials, p))
          && !IsWordCharacter(text, specials, wordBegin - 1)
        else !IsWordCharacter(text, specials, current - 1))
  }

  function Reached(current: nat, wordBegin: int): nat {
    if wordBegin >= 0 then wordBegin else current
  }

  // What it has found.
  ghost predicate HasFound(text: Text, specials: seq<Special>, g: int, current: nat, wordBegin: int, tokens: seq<Token>)
    requires IsWellFormed(text, specials)
  {
    && InOrder(tokens)
    && (forall t :: t in tokens ==> t.begin < Reached(current, wordBegin) && t.end <= Reached(current, wordBegin))
    && (forall t :: t in tokens <==> IsToken(text, specials, g, t) && IsDone(t, current))
  }

  ghost predicate IsState(text: Text, specials: seq<Special>, g: int,
                          current: nat, k: nat, wordBegin: int, previousWasSpace: bool, tokens: seq<Token>)
    requires IsWellFormed(text, specials)
  {
    && IsAt(text, specials, current, k, wordBegin, previousWasSpace)
    && HasFound(text, specials, g, current, wordBegin, tokens)
  }

  // A break in front of the second of two spaces.
  function Breaks(current: nat, twoSpaces: bool): seq<Token> {
    if twoSpaces then [BreakToken(current, current)] else []
  }

  // The word that ends in front of current.
  function OpenWord(current: nat, wordBegin: int): seq<Token> {
    if wordBegin >= 0 then [TextToken(wordBegin, current)] else []
  }

  lemma WordBeginIsUnique(text: Text, specials: seq<Special>, b: nat, w: int, end: nat)
    requires IsWord(text, specials, b, end)
    requires 0 <= w < end && !IsWordCharacter(text, specials, w - 1)
    requires forall p :: w <= p < end ==> IsWordCharacter(text, specials, p)
    ensures b == w
  {
  }

  // Reading on from current to next completes the word that ends at current,
  // if there is one, and what begins from current on.
  lemma Completed(text: Text, specials: seq<Special>, g: int, current: nat, next: nat, k: nat,
                  wordBegin: int, previousWasSpace: bool, t: Token)
    requires IsWellFormed(text, specials) && current < next <= |text|
    requires IsAt(text, specials, current, k, wordBegin, previousWasSpace)
    requires forall p :: current <= p < next - 1 ==> !IsWordCharacter(text, specials, p)
    requires next > current + 1 ==> !IsWordCharacter(text, specials, next - 1)
    requires t.TextToken?
    ensures IsToken(text, specials, g, t) && IsDone(t, next) && !IsDone(t, current) <==>
            wordBegin >= 0 && t == TextToken(wordBegin, current) && !IsWordCharacter(text, specials, current)
  {
    if IsToken(text, specials, g, t) && IsDone(t, next) && !IsDone(t, current) {
      assert IsWordCharacter(text, specials, t.end - 1);
      assert t.end == current;
      WordBeginIsUnique(text, specials, t.begin, wordBegin, current);
    }
  }

  // Adding what has been completed.
  lemma AddCompleted(text: Text, specials: seq<Special>, g: int, current: nat, next: nat,
                     wordBegin: int, tokens: seq<Token>, found: seq<Token>)
    requires IsWellFormed(text, specials) && current < next
    requires HasFound(text, specials, g, current, wordBegin, tokens)
    requires forall t :: t in found <==> IsToken(text, specials, g, t) && IsDone(t, next) && !IsDone(t, current)
    requires InOrder(found)
    requires forall t :: t in found ==> Reached(current, wordBegin) <= t.begin < next && t.end <= next
    requires wordBegin < current
    ensures HasFound(text, specials, g, next, -1, tokens + found)
  {
    var all := tokens + found;
    forall a, b | 0 <= a < b < |all| ensures all[a].begin < all[b].begin && all[a].end <= all[b].begin {
      assert a < |tokens| ==> all[a] in tokens;
      assert b >= |tokens| ==> all[b] in found;
    }
  }

  // One round of the loop at a space.
  lemma SpaceStep(text: Text, specials: seq<Special>, g: int,
                  current: nat, k: nat, wordBegin: int, previousWasSpace: bool, tokens: seq<Token>)
    requires IsWellFormed(text, specials)
    requires IsState(text, specials, g, current, k, wordBegin, previousWasSpace, tokens)
    requires current < |text| && text[current] == SPACE
    requires k < |specials| ==> specials[k].start != current
    ensures IsState(text, specials, g, current + 1, k, -1, true,
                    tokens + Breaks(current, previousWasSpace) + OpenWord(current, wordBegin))
  {
    assert wordBegin >= 0 ==> IsWordCharacter(text, specials, current - 1);
    NotInside(text, specials, current, k);
    var found := Breaks(current, previousWasSpace) + OpenWord(current, wordBegin);
    forall t ensures t in found <==> IsToken(text, specials, g, t) && IsDone(t, current + 1) && !IsDone(t, current) {
      match t
      case TextToken(_, _) => Completed(text, specials, g, current, current + 1, k, wordBegin, previousWasSpace, t);
      case BreakToken(_, _) =>
      case _ => SpecialStartsInside(text, specials, g, t);
    }
    AddCompleted(text, specials, g, current, current + 1, wordBegin, tokens, found);
    Regroup(tokens, Breaks(current, previousWasSpace), OpenWord(current, wordBegin));
  }

  lemma NotInside(text: Text, specials: seq<Special>, current: nat, k: nat)
    requires IsWellFormed(text, specials) && k <= |specials|
    requires forall i :: 0 <= i < k ==> specials[i].End() <= current
    requires forall i :: k <= i < |specials| ==> current <= specials[i].start
    requires k < |specials| ==> specials[k].start != current
    ensures !Inside(specials, current)
    ensures k < |specials| ==> current < specials[k].start
    ensures forall i :: k <= i < |specials| ==> current < specials[i].start
  {
    forall i | k < i < |specials| ensures current < specials[i].start {
      assert specials[k].End() <= specials[i].start;
    }
  }

  lemma SpecialStartsInside(text: Text, specials: seq<Special>, g: int, t: Token)
    requires IsWellFormed(text, specials) && !t.TextToken? && !t.BreakToken?
    ensures IsToken(text, specials, g, t) ==> Inside(specials, t.begin)
  {
  }

  // One round of the loop inside a word.
  lemma WordStep(text: Text, specials: seq<Special>, g: int,
                 current: nat, k: nat, wordBegin: int, previousWasSpace: bool, tokens: seq<Token>)
    requires IsWellFormed(text, specials)
    requires IsState(text, specials, g, current, k, wordBegin, previousWasSpace, tokens)
    requires current < |text| && text[current] != SPACE
    requires k < |specials| ==> specials[k].start != current
    ensures IsState(text, specials, g, current + 1, k, if wordBegin >= 0 then wordBegin else current, false, tokens)
  {
    NotInside(text, specials, current, k);
    assert IsWordCharacter(text, specials, current);
    forall t ensures !(IsToken(text, specials, g, t) && IsDone(t, current + 1) && !IsDone(t, current)) {
      match t
      case TextToken(_, _) => Completed(text, specials, g, current, current + 1, k, wordBegin, previousWasSpace, t);
      case BreakToken(_, _) =>
      case _ => SpecialStartsInside(text, specials, g, t);
    }
  }

  // One round of the loop at a special item.
  lemma SpecialStep(text: Text, specials: seq<Special>, g: int,
                    current: nat, k: nat, wordBegin: int, previousWasSpace: bool, tokens: seq<Token>)
    requires IsWellFormed(text, specials)
    requires IsState(text, specials, g, current, k, wordBegin, previousWasSpace, tokens)
    requires k < |specials| && specials[k].start == current
    ensures IsState(text, specials, g, specials[k].End(), k + 1, -1, false,
                    tokens + OpenWord(current, wordBegin) + [SpecialToken(text, specials[k], g)])
  {
    var s := specials[k];
    var found := OpenWord(current, wordBegin) + [SpecialToken(text, s, g)];
    InsideSpecial(specials, k);
    forall t ensures t in found <==> IsToken(text, specials, g, t) && IsDone(t, s.End()) && !IsDone(t, current) {
      if t.TextToken? {
        Completed(text, specials, g, current, s.End(), k, wordBegin, previousWasSpace, t);
      } else {
        CompletedInSpecial(text, specials, g, k, t);
      }
    }
    AddCompleted(text, specials, g, current, s.End(), wordBegin, tokens, found);
    assert tokens + found == tokens + OpenWord(current, wordBegin) + [SpecialToken(text, s, g)];
  }

  lemma InsideSpecial(specials: seq<Special>, k: nat)
    requires k < |specials|
    ensures forall p :: specials[k].start <= p < specials[k].End() ==> Inside(specials, p)
  {
  }

  lemma CompletedInSpecial(text: Text, specials: seq<Special>, g: int, k: nat, t: Token)
    requires IsWellFormed(text, specials) && k < |specials| && !t.TextToken?
    ensures IsToken(text, specials, g, t) && specials[k].start <= t.begin < specials[k].End() <==>
            t == SpecialToken(text, specials[k], g)
  {
    InsideSpecial(specials, k);
    SpecialsApart(text, specials, k);
  }

  lemma SpecialsApart(text: Text, specials: seq<Special>, k: nat)
    requires IsWellFormed(text, specials) && k < |specials|
    ensures forall i :: 0 <= i < |specials| && specials[k].start <= specials[i].start < specials[k].End() ==> i == k
  {
  }

  // The end of the text completes the open word.
  lemma LastStep(text: Text, specials: seq<Special>, g: int,
                 k: nat, wordBegin: int, previousWasSpace: bool, tokens: seq<Token>)
    requires IsWellFormed(text, specials)
    requires IsState(text, specials, g, |text|, k, wordBegin, previousWasSpace, tokens)
    ensures IsTokenization(text, specials, g, tokens + OpenWord(|text|, wordBegin))
  {
    var done := tokens + OpenWord(|text|, wordBegin);
    forall t ensures t in done <==> IsToken(text, specials, g, t) {
      if t.TextToken? && IsToken(text, specials, g, t) && t.end == |text| {
        assert IsWordCharacter(text, specials, t.end - 1);
        WordBeginIsUnique(text, specials, t.begin, wordBegin, |text|);
      }
    }
  }

  // The loop between two rounds.
  datatype Reading = Reading(text: Text, specials: seq<Special>, g: int,
                             current: nat, k: nat, wordBegin: int, previousWasSpace: bool, tokens: seq<Token>)
  {
    ghost predicate Valid() {
      IsWellFormed(text, specials) && IsState(text, specials, g, current, k, wordBegin, previousWasSpace, tokens)
    }

    predicate AtSpecial() {
      k < |specials| && current == specials[k].start
    }

    predicate AtSpace() {
      current < |text| && text[current] == SPACE
    }
  }

  type ValidReading = r: Reading | r.Valid() ghost witness Reading([], [], 0, 0, 0, -1, false, [])

  lemma Start(text: Text, specials: seq<Special>, g: int) returns (r: ValidReading)
    requires IsWellFormed(text, specials)
    ensures r == Reading(text, specials, g, 0, 0, -1, false, [])
  {
    r := Reading(text, specials, g, 0, 0, -1, false, []);
  }

  // One round of the loop.
  function Next(r: Reading): Reading
    requires r.current < |r.text| && (r.AtSpecial() ==> r.specials[r.k].End() <= |r.text|)
  {
    var before := r.tokens + Breaks(r.current, r.AtSpace() && r.previousWasSpace);
    var closed := before + OpenWord(r.current, r.wordBegin);
    if r.AtSpecial() then
      Reading(r.text, r.specials, r.g, r.specials[r.k].End(), r.k + 1, -1, r.AtSpace(),
              closed + [SpecialToken(r.text, r.specials[r.k], r.g)])
    else if r.AtSpace() then
      Reading(r.text, r.specials, r.g, r.current + 1, r.k, -1, true, closed)
    else
      var begin := if r.wordBegin >= 0 then r.wordBegin else r.current;
      Reading(r.text, r.specials, r.g, r.current + 1, r.k, begin, false, before)
  }

  lemma SpecialIsValid(r: Reading)
    requires r.Valid() && r.AtSpecial()
    ensures r.current < |r.text| && r.specials[r.k].End() <= |r.text| && Next(r).Valid()
  {
    NothingBehind(r.tokens);
    SpecialStep(r.text, r.specials, r.g, r.current, r.k, r.wordBegin, r.previousWasSpace, r.tokens);
  }

  lemma SpaceIsValid(r: Reading)
    requires r.Valid() && !r.AtSpecial() && r.AtSpace()
    ensures Next(r).Valid()
  {
    SpaceStep(r.text, r.specials, r.g, r.current, r.k, r.wordBegin, r.previousWasSpace, r.tokens);
  }

  lemma WordIsValid(r: Reading)
    requires r.Valid() && !r.AtSpecial() && !r.AtSpace() && r.current < |r.text|
    ensures Next(r).Valid()
  {
    NothingBehind(r.tokens);
    WordStep(r.text, r.specials, r.g, r.current, r.k, r.wordBegin, r.previousWasSpace, r.tokens);
  }

  lemma NextIsValid(r: ValidReading) returns (n: ValidReading)
    requires r.current < |r.text|
    ensures r.AtSpecial() ==> r.specials[r.k].End() <= |r.text|
    ensures n == Next(r)
  {
    if r.AtSpecial() {
      SpecialIsValid(r);
    } else if r.AtSpace() {
      SpaceIsValid(r);
    } else {
      WordIsValid(r);
    }
    n := Next(r);
  }

  lemma Finish(r: ValidReading)
    requires r.current == |r.text|
    ensures IsTokenization(r.text, r.specials, r.g, r.tokens + OpenWord(|r.text|, r.wordBegin))
  {
    LastStep(r.text, r.specials, r.g, r.k, r.wordBegin, r.previousWasSpace, r.tokens);
  }

  method TokenizeWords(text: Text, specials: seq<Special>, gigantifiedEmoteStart: int) returns (tokens: seq<Token>)
    ensures IsWellFormed(text, specials) ==> IsTokenization(text, specials, gigantifiedEmoteStart, tokens)
  {
    ghost var wellFormed := IsWellFormed(text, specials);
    tokens := [];
    var current, k := 0, 0;
    var wordBegin := -1;
    var previousWasSpace := false;
    ghost var r: ValidReading;
    if wellFormed {
      r := Start(text, specials, gigantifiedEmoteStart);
    } else {
      r := Start([], [], 0);
    }
    while current < |text|
      invariant 0 <= current <= |text| && 0 <= k <= |specials|
      invariant wordBegin == -1 || 0 <= wordBegin < current
      invariant wellFormed ==>
                  r == Reading(text, specials, gigantifiedEmoteStart, current, k, wordBegin, previousWasSpace, tokens)
      decreases |text| - current, |specials| - k
    {
      if wellFormed {
        r := NextIsValid(r);
      }
      var isSpecial := k < |specials| && current == specials[k].start;
      var isSpace := text[current] == SPACE;
      tokens := tokens + Breaks(current, isSpace && previousWasSpace);
      previousWasSpace := isSpace;
      if isSpecial || isSpace {
        tokens := tokens + OpenWord(current, wordBegin);
        wordBegin := -1;
      }
      if isSpecial {
        if specials[k].End() > |text| {
          return;
        }
        tokens := tokens + [SpecialToken(text, specials[k], gigantifiedEmoteStart)];
        current := specials[k].End();
        k := k + 1;
      } else {
        if !isSpace && wordBegin < 0 {
          wordBegin := current;
        }
        current := current + 1;
      }
    }
    if wellFormed {
      Finish(r);
    }
    tokens := tokens + OpenWord(|text|, wordBegin);
  }

  // A text has one tokenization.
  lemma {:induction false} SameTokens(a: seq<Token>, b: seq<Token>)
    requires InOrder(a) && InOrder(b) && forall t :: t in a <==> t in b
    ensures a == b
  {
    assert a != [] ==> a[0] in b;
    assert b != [] ==> b[0] in a;
    if a != [] {
      FirstIsLeftmost(a, b[0]);
      FirstIsLeftmost(b, a[0]);
      forall t ensures t in a[1..] <==> t in b[1..] {
        RestIsBehind(a, t);
        RestIsBehind(b, t);
      }
      SameTokens(a[1..], b[1..]);
    }
  }

  lemma FirstIsLeftmost(a: seq<Token>, t: Token)
    requires InOrder(a) && t in a
    ensures t == a[0] || a[0].begin < t.begin
  {
    var i :| 0 <= i < |a| && a[i] == t;
  }

  lemma RestIsBehind(a: seq<Token>, t: Token)
    requires InOrder(a) && a != []
    ensures t in a[1..] <==> t in a && t != a[0]
  {
    assert a == [a[0]] + a[1..];
    forall i | 0 <= i < |a[1..]| ensures a[1..][i] != a[0] {
      assert a[0].begin < a[i + 1].begin;
    }
  }

  lemma TokenizationIsUnique(text: Text, specials: seq<Special>, g: int, a: seq<Token>, b: seq<Token>)
    requires IsWellFormed(text, specials)
    requires IsTokenization(text, specials, g, a) && IsTokenization(text, specials, g, b)
    ensures a == b
  {
    SameTokens(a, b);
  }

  predicate Covers(t: Token, p: nat) {
    t.begin <= p < t.end
  }

  // The spans of the tokens cover exactly the characters that are no open
  // spaces, each of them once.
  lemma TokensCover(text: Text, specials: seq<Special>, g: int, tokens: seq<Token>, p: nat)
    requires IsWellFormed(text, specials) && IsTokenization(text, specials, g, tokens)
    requires p < |text|
    ensures (exists a :: 0 <= a < |tokens| && Covers(tokens[a], p)) <==> !IsOpenSpace(text, specials, p)
    ensures forall a, b :: 0 <= a < b < |tokens| ==> !(Covers(tokens[a], p) && Covers(tokens[b], p))
  {
    if Inside(specials, p) {
      var i :| 0 <= i < |specials| && specials[i].start <= p < specials[i].End();
      var t := SpecialToken(text, specials[i], g);
      assert t in tokens && Covers(t, p);
    } else if text[p] != SPACE {
      var b, e := WordAround(text, specials, p);
      var t := TextToken(b, e);
      assert IsToken(text, specials, g, t);
      assert t in tokens && Covers(t, p);
    } else {
      forall a | 0 <= a < |tokens| ensures !Covers(tokens[a], p) {
        assert IsToken(text, specials, g, tokens[a]);
        SpecialStaysInside(text, specials, g, tokens[a], p);
        assert !IsWordCharacter(text, specials, p);
      }
    }
  }

  lemma SpecialStaysInside(text: Text, specials: seq<Special>, g: int, t: Token, p: nat)
    requires IsWellFormed(text, specials) && IsToken(text, specials, g, t)
    ensures !t.TextToken? && Covers(t, p) ==> Inside(specials, p)
  {
  }

  lemma WordAround(text: Text, specials: seq<Special>, p: nat) returns (b: nat, e: nat)
    requires IsWordCharacter(text, specials, p)
    ensures b <= p < e && IsWord(text, specials, b, e)
  {
    b, e := p, p + 1;
    while IsWordCharacter(text, specials, b - 1)
      invariant b <= p && forall q :: b <= q <= p ==> IsWordCharacter(text, specials, q)
      decreases b
    {
      b := b - 1;
    }
    while IsWordCharacter(text, specials, e)
      invariant p < e <= |text| && forall q :: b <= q < e ==> IsWordCharacter(text, specials, q)
      decreases |text| - e
    {
      e := e + 1;
    }
  }

  // The tokens of special items: one for each, with its place. An emote has a
  // space behind it at the end of the text or in front of a space, and is
  // gigantified if it starts where the gigantified one does.
  lemma SpecialsAreTokens(text: Text, specials: seq<Special>, g: int, tokens: seq<Token>, i: nat)
    requires IsWellFormed(text, specials) && IsTokenization(text, specials, g, tokens) && i < |specials|
    ensures var begin, end := specials[i].start, specials[i].start + specials[i].length;
      match specials[i].data
      case Emote(e) =>
        EmoteToken(begin, end, e, end == |text| || (end < |text| && text[end] == ' ' as int), begin == g) in tokens
      case Gif(gif) => GifToken(begin, end, gif) in tokens
  {
    var t := SpecialToken(text, specials[i], g);
    assert IsToken(text, specials, g, t);
  }

  predicate Outside(specials: seq<Special>, p: int) {
    forall i :: 0 <= i < |specials| ==> p < specials[i].start || p >= specials[i].start + specials[i].length
  }

  // The texts are the longest runs of characters that are no spaces and outside
  // all special items; a break stands for the second of two adjacent spaces
  // outside them.
  lemma TextsAndBreaks(text: Text, specials: seq<Special>, g: int, tokens: seq<Token>, b: nat, e: nat)
    requires IsWellFormed(text, specials) && IsTokenization(text, specials, g, tokens)
    ensures TextToken(b, e) in tokens <==>
      && b < e <= |text|
      && (forall p :: b <= p < e ==> text[p] != ' ' as int && Outside(specials, p))
      && (b == 0 || text[b - 1] == ' ' as int || !Outside(specials, b - 1))
      && (e == |text| || text[e] == ' ' as int || !Outside(specials, e))
    ensures BreakToken(b, e) in tokens <==>
      && b == e && 0 < b < |text|
      && text[b] == ' ' as int && Outside(specials, b)
      && text[b - 1] == ' ' as int && Outside(specials, b - 1)
  {
    forall p: int
      ensures IsWordCharacter(text, specials, p) <==>
              0 <= p < |text| && text[p] != ' ' as int && Outside(specials, p)
      ensures IsOpenSpace(text, specials, p) <==>
              0 <= p < |text| && text[p] == ' ' as int && Outside(specials, p)
    {
    }
    assert TextToken(b, e) in tokens <==> IsToken(text, specials, g, TextToken(b, e));
    assert BreakToken(b, e) in tokens <==> IsToken(text, specials, g, BreakToken(b, e));
  }
}
