// Cheers in a message: which cheermote a word is, and what becomes of the bits
// of the message (src/messages/MessageBuilder.cpp and
// src/providers/twitch/TwitchChannel.cpp).

module Numerals {

  predicate IsDigit(c: char) { '0' <= c <= '9' }

  predicate AllDigits(s: string) {
    forall i :: 0 <= i < |s| ==> IsDigit(s[i])
  }

  // Decimal, without a leading zero.
  predicate IsNumeral(s: string) {
    s != "" && s[0] != '0' && AllDigits(s)
  }

  function Digit(n: nat): (c: char)
    requires n < 10
    ensures IsDigit(c)
  {
    ('0' as int + n) as char
  }

  function DigitValue(c: char): (n: nat)
    requires IsDigit(c)
    ensures n < 10 && Digit(n) == c
  {
    c as int - '0' as int
  }

  function Value(s: string): (v: nat)
    requires AllDigits(s)
  {
    if s == "" then 0 else Value(s[..|s| - 1]) * 10 + DigitValue(s[|s| - 1])
  }

  function Number(n: nat): (s: string)
    ensures s != "" && AllDigits(s)
  {
    if n < 10 then [Digit(n)] else Number(n / 10) + [Digit(n % 10)]
  }

  function Power(n: nat): (p: nat)
    ensures p > 0
  {
    if n == 0 then 1 else 10 * Power(n - 1)
  }

  // Writing a number and reading it again.
  lemma {:induction false} ValueOfNumber(n: nat)
    ensures Value(Number(n)) == n
    ensures n > 0 ==> IsNumeral(Number(n))
  {
    if n >= 10 {
      ValueOfNumber(n / 10);
      var s := Number(n);
      assert s[..|s| - 1] == Number(n / 10);
    }
  }

  // Reading a numeral and writing it again.
  lemma {:induction false} NumberOfValue(s: string)
    requires IsNumeral(s)
    ensures Number(Value(s)) == s && Value(s) > 0
  {
    var init := s[..|s| - 1];
    if init != "" {
      NumberOfValue(init);
    } else {
      assert Value(init) == 0;
    }
  }

  lemma {:induction false} ValueBound(s: string)
    requires AllDigits(s)
    ensures Value(s) < Power(|s|)
  {
    if s != "" {
      ValueBound(s[..|s| - 1]);
    }
  }

  lemma {:induction false} ValueAtLeast(s: string)
    requires IsNumeral(s)
    ensures Value(s) >= Power(|s| - 1)
  {
    var init := s[..|s| - 1];
    if init != "" {
      ValueAtLeast(init);
    } else {
      assert Value(init) == 0;
    }
  }

  lemma {:induction false} PowerMonotone(m: nat, n: nat)
    requires m <= n
    ensures Power(m) <= Power(n)
  {
    if m < n {
      PowerMonotone(m, n - 1);
    }
  }

  // A smaller number is not longer.
  lemma SmallerIsNotLonger(s: string, v: nat)
    requires IsNumeral(s) && 0 < v <= Value(s)
    ensures IsNumeral(Number(v)) && |Number(v)| <= |s|
  {
    ValueOfNumber(v);
    if |s| < |Number(v)| {
      LongerIsLarger(s, Number(v));
    }
  }

  lemma LongerIsLarger(s: string, t: string)
    requires IsNumeral(s) && IsNumeral(t) && |s| < |t|
    ensures Value(s) < Value(t)
  {
    ValueBound(s);
    PowerMonotone(|s|, |t| - 1);
    ValueAtLeast(t);
  }

  // The number the digits at the end of a word make.
  function TailValue(w: string): nat {
    if w == "" || !IsDigit(w[|w| - 1]) then 0
    else TailValue(w[..|w| - 1]) * 10 + DigitValue(w[|w| - 1])
  }

  lemma {:induction false} TailOf(p: string, d: string)
    requires AllDigits(d)
    ensures TailValue(p + d) == TailValue(p) * Power(|d|) + Value(d)
  {
    if d == "" {
      assert p + d == p;
    } else {
      var init := d[..|d| - 1];
      assert (p + d)[..|p + d| - 1] == p + init;
      TailOf(p, init);
      assert (p + d)[|p + d| - 1] == d[|d| - 1];
      TimesTen(TailValue(p), Power(|init|), Value(init));
    }
  }

  lemma TimesTen(a: nat, b: nat, c: nat)
    ensures (a * b + c) * 10 == a * (10 * b) + c * 10
  {
  }
}

module Cheermotes {
  import opened Numerals
  import opened Sequences
  import opened Options

  datatype Tier = Tier(id: int, minBits: int, coloured: bool)
  datatype CheerSet = CheerSet(prefix: string, tiers: seq<Tier>)

  // A cheermote that a word stands for, with the digits behind its prefix.
  datatype Cheer = Cheer(tier: Tier, amount: string)

  // The cheermotes of a channel; fold is what ignoring case means.
  datatype CheerEmotes = CheerEmotes(fold: char -> char, sets: seq<CheerSet>)

  datatype Element = StaticEmote(tier: Tier) | AnimatedEmote(tier: Tier) | Amount(text: string)

  // toInt: 0 for what an int cannot hold.
  function ToInt(s: string): (v: nat)
    requires AllDigits(s)
  {
    if Value(s) < 0x8000_0000 then Value(s) else 0
  }

  predicate SamePrefix(fold: char -> char, prefix: string, word: string) {
    |prefix| <= |word| && forall i :: 0 <= i < |prefix| ==> fold(word[i]) == fold(prefix[i])
  }

  // The regular expression of a set.
  function Captured(fold: char -> char, prefix: string, word: string): (r: Option<string>)
    ensures r.Some? ==> IsNumeral(r.value) && |r.value| <= |word| &&
                        word == word[..|word| - |r.value|] + r.value
  {
    if SamePrefix(fold, prefix, word) && IsNumeral(word[|prefix|..]) then Some(word[|prefix|..]) else None
  }

  // The first tier that takes so many bits.
  function FirstTier(tiers: seq<Tier>, bits: int): (r: Option<Tier>)
    ensures r.Some? ==> r.value in tiers && r.value.minBits <= bits
    ensures r.None? <==> forall t :: t in tiers ==> bits < t.minBits
  {
    if tiers == [] then None
    else if tiers[0].minBits <= bits then Some(tiers[0])
    else FirstTier(tiers[1..], bits)
  }

  function CheerEmote(fold: char -> char, sets: seq<CheerSet>, word: string): (r: Option<Cheer>)
    ensures r.Some? ==> IsNumeral(r.value.amount) && |r.value.amount| <= |word| &&
                        word == word[..|word| - |r.value.amount|] + r.value.amount &&
                        r.value.tier.minBits <= ToInt(r.value.amount)
  {
    if sets == [] then None
    else
      var amount := Captured(fold, sets[0].prefix, word);
      var tier := if amount.Some? then FirstTier(sets[0].tiers, ToInt(amount.value)) else None;
      if tier.Some? then Some(Cheer(tier.value, amount.value)) else CheerEmote(fold, sets[1..], word)
  }

  predicate Descending(tiers: seq<Tier>) {
    forall i, j :: 0 <= i < j < |tiers| ==> tiers[i].minBits >= tiers[j].minBits
  }

  // What setCheerEmoteSets leaves: every set has its tiers by descending cost.
  predicate IsSorted(sets: seq<CheerSet>) {
    forall i :: 0 <= i < |sets| ==> Descending(sets[i].tiers)
  }

  // Set k is the first that knows the word and has a tier so cheap.
  ghost predicate TakesWord(fold: char -> char, sets: seq<CheerSet>, word: string, k: int) {
    && 0 <= k < |sets|
    && var amount := Captured(fold, sets[k].prefix, word);
       amount.Some? && exists t :: t in sets[k].tiers && t.minBits <= ToInt(amount.value)
  }

  lemma {:induction false} FirstTierIsBest(tiers: seq<Tier>, bits: int)
    requires Descending(tiers)
    ensures var r := FirstTier(tiers, bits);
            r.Some? ==> forall t :: t in tiers && t.minBits <= bits ==> t.minBits <= r.value.minBits
  {
    if tiers != [] && tiers[0].minBits > bits {
      FirstTierIsBest(tiers[1..], bits);
    }
  }

  // The cheermote is one of the first set that takes the word, and there the
  // most expensive tier the word pays for.
  ghost predicate IsBest(fold: char -> char, sets: seq<CheerSet>, word: string, cheer: Cheer, k: int) {
    && TakesWord(fold, sets, word, k)
    && (forall j :: 0 <= j < k ==> !TakesWord(fold, sets, word, j))
    && Captured(fold, sets[k].prefix, word) == Some(cheer.amount)
    && cheer.tier in sets[k].tiers
    && forall t :: t in sets[k].tiers && t.minBits <= ToInt(cheer.amount) ==> t.minBits <= cheer.tier.minBits
  }

  lemma LaterSet(fold: char -> char, sets: seq<CheerSet>, word: string, k: int)
    requires sets != [] && k > 0
    ensures TakesWord(fold, sets, word, k) <==> TakesWord(fold, sets[1..], word, k - 1)
  {
    assert 0 <= k - 1 < |sets[1..]| ==> sets[k] == sets[1..][k - 1];
  }

  lemma LaterBest(fold: char -> char, sets: seq<CheerSet>, word: string, cheer: Cheer, k: int)
    requires sets != [] && k > 0 && !TakesWord(fold, sets, word, 0)
    requires IsBest(fold, sets[1..], word, cheer, k - 1)
    ensures IsBest(fold, sets, word, cheer, k)
  {
    LaterSet(fold, sets, word, k);
    forall j | 0 <= j < k ensures !TakesWord(fold, sets, word, j) {
      if j > 0 {
        LaterSet(fold, sets, word, j);
      }
    }
  }

  lemma {:induction false} CheerEmoteIsBest(fold: char -> char, sets: seq<CheerSet>, word: string) returns (k: int)
    requires IsSorted(sets)
    ensures var r := CheerEmote(fold, sets, word);
            if r.None? then forall j :: !TakesWord(fold, sets, word, j)
            else IsBest(fold, sets, word, r.value, k)
  {
    k := 0;
    if sets != [] {
      var amount := Captured(fold, sets[0].prefix, word);
      var tier := if amount.Some? then FirstTier(sets[0].tiers, ToInt(amount.value)) else None;
      if tier.Some? {
        FirstTierIsBest(sets[0].tiers, ToInt(amount.value));
      } else {
        var i := CheerEmoteIsBest(fold, sets[1..], word);
        k := i + 1;
        var r := CheerEmote(fold, sets[1..], word);
        if r.Some? {
          LaterBest(fold, sets, word, r.value, k);
        } else {
          forall j | j > 0 ensures !TakesWord(fold, sets, word, j) {
            LaterSet(fold, sets, word, j);
          }
        }
      }
    }
  }

  datatype Outcome = Success | Failure

  // What the words of one message share.
  datatype Bits = Bits(bitsLeft: int, bitsStacked: bool, elements: seq<Element>)

  datatype Setting = Setting(fold: char -> char, sets: seq<CheerSet>, stackBits: bool)

  function Shown(tier: Tier, text: string): seq<Element> {
    [StaticEmote(tier), AnimatedEmote(tier)] + if tier.coloured then [Amount(text)] else []
  }

  // The word with a smaller amount behind it.
  function Reduced(word: string, amount: string, v: nat): (w: string)
    requires |amount| <= |word|
  {
    word[..|word| - |amount|] + Number(v)
  }

  lemma ReducedIsSmaller(word: string, amount: string, v: nat)
    requires |amount| <= |word| && word == word[..|word| - |amount|] + amount
    requires IsNumeral(amount) && 0 < v < Value(amount)
    ensures var w := Reduced(word, amount, v);
            |w| < |word| || (|w| == |word| && TailValue(w) < TailValue(word))
  {
    var p := word[..|word| - |amount|];
    SmallerIsNotLonger(amount, v);
    TailOf(p, amount);
    TailOf(p, Number(v));
    ValueOfNumber(v);
  }

  // By how much the cheer is for more than is left.
  function Excess(c: Setting, cheer: Cheer, st: Bits): int
    requires IsNumeral(cheer.amount)
  {
    if c.stackBits then 0 else ToInt(cheer.amount) - st.bitsLeft
  }

  // What a cheer shows and takes. Stacked, the first one shows all the bits.
  function Paid(c: Setting, cheer: Cheer, st: Bits): Bits
    requires IsNumeral(cheer.amount)
  {
    if !c.stackBits then
      Bits(st.bitsLeft - ToInt(cheer.amount), st.bitsStacked, st.elements + Shown(cheer.tier, cheer.amount))
    else if st.bitsStacked then st
    else Bits(st.bitsLeft, true,
              st.elements + Shown(cheer.tier, if st.bitsLeft >= 0 then Number(st.bitsLeft) else ""))
  }

  // The cheer that a word stands for. A cheer for more than is left is tried
  // again with the excess as its amount.
  function CheerOf(c: Setting, word: string, st: Bits): (r: Option<Cheer>)
    requires st.bitsLeft >= 0
    ensures r.Some? ==> st.bitsLeft > 0 && IsNumeral(r.value.amount) && Excess(c, r.value, st) <= 0
    decreases |word|, TailValue(word)
  {
    var cheer := CheerEmote(c.fold, c.sets, word);
    if st.bitsLeft == 0 || cheer.None? then None
    else
      var excess := Excess(c, cheer.value, st);
      if excess <= 0 then cheer
      else
        ReducedIsSmaller(word, cheer.value.amount, excess);
        CheerOf(c, Reduced(word, cheer.value.amount, excess), st)
  }

  lemma CheerOfPays(c: Setting, word: string, cheer: Cheer, st: Bits)
    requires st.bitsLeft > 0 && CheerEmote(c.fold, c.sets, word) == Some(cheer) && Excess(c, cheer, st) <= 0
    ensures CheerOf(c, word, st) == Some(cheer)
  {
  }

  lemma CheerOfAgain(c: Setting, word: string, cheer: Cheer, st: Bits)
    requires st.bitsLeft > 0 && CheerEmote(c.fold, c.sets, word) == Some(cheer) && Excess(c, cheer, st) > 0
    ensures CheerOf(c, word, st) == CheerOf(c, Reduced(word, cheer.amount, Excess(c, cheer, st)), st)
  {
  }

  // What a word of the message does to its bits.
  function Tried(c: Setting, word: string, st: Bits): (r: (Outcome, Bits))
    requires st.bitsLeft >= 0
    ensures r.1.bitsLeft >= 0
  {
    match CheerOf(c, word, st)
    case None => (Failure, st)
    case Some(cheer) => (Success, Paid(c, cheer, st))
  }

  function AllTried(c: Setting, words: seq<string>, st: Bits): (r: Bits)
    requires st.bitsLeft >= 0
    ensures r.bitsLeft >= 0
  {
    if words == [] then st
    else
      var init := AllTried(c, words[..|words| - 1], st);
      Tried(c, words[|words| - 1], init).1
  }

  // The cheers of a message.
  function CheersOf(c: Setting, words: seq<string>, st: Bits): seq<Cheer>
    requires st.bitsLeft >= 0
  {
    if words == [] then []
    else
      var init := words[..|words| - 1];
      CheersOf(c, init, st) +
      match CheerOf(c, words[|words| - 1], AllTried(c, init, st))
      case None => []
      case Some(cheer) => [cheer]
  }

  // What the cheers are for, and the part of it that has no colour to be shown in.
  function AmountOf(cheer: Cheer): nat {
    if AllDigits(cheer.amount) then Value(cheer.amount) else 0
  }

  function Total(cheers: seq<Cheer>): nat {
    if cheers == [] then 0 else Total(cheers[..|cheers| - 1]) + AmountOf(cheers[|cheers| - 1])
  }

  function Hidden(cheers: seq<Cheer>): nat {
    if cheers == [] then 0
    else
      var last := cheers[|cheers| - 1];
      Hidden(cheers[..|cheers| - 1]) + if last.tier.coloured then 0 else AmountOf(last)
  }

  lemma NextWord(c: Setting, init: seq<string>, word: string, st: Bits)
    requires st.bitsLeft >= 0
    ensures var s := AllTried(c, init, st);
      AllTried(c, init + [word], st) == Tried(c, word, s).1 &&
      CheersOf(c, init + [word], st) ==
      match CheerOf(c, word, s)
      case None => CheersOf(c, init, st)
      case Some(cheer) => CheersOf(c, init, st) + [cheer]
  {
    assert (init + [word])[..|init|] == init;
    NothingBehind(CheersOf(c, init, st));
  }

  lemma TotalOne(cheers: seq<Cheer>, cheer: Cheer)
    ensures Total(cheers + [cheer]) == Total(cheers) + AmountOf(cheer)
    ensures Hidden(cheers + [cheer]) == Hidden(cheers) + if cheer.tier.coloured then 0 else AmountOf(cheer)
  {
    assert (cheers + [cheer])[..|cheers|] == cheers;
  }

  // The bits the message shows.
  function Sum(es: seq<Element>): nat {
    if es == [] then 0 else Sum(es[..|es| - 1]) + Worth(es[|es| - 1])
  }

  function Worth(e: Element): nat {
    match e
    case Amount(text) => if AllDigits(text) then Value(text) else 0
    case _ => 0
  }

  lemma SumOne(es: seq<Element>, e: Element)
    ensures Sum(es + [e]) == Sum(es) + Worth(e)
  {
    assert (es + [e])[..|es|] == es;
  }

  lemma SumShown(es: seq<Element>, tier: Tier, text: string)
    requires AllDigits(text)
    ensures Sum(es + Shown(tier, text)) == Sum(es) + if tier.coloured then Value(text) else 0
  {
    var a := es + [StaticEmote(tier)];
    var b := a + [AnimatedEmote(tier)];
    SumOne(es, StaticEmote(tier));
    SumOne(a, AnimatedEmote(tier));
    SumOne(b, Amount(text));
    assert es + Shown(tier, text) == b + if tier.coloured then [Amount(text)] else [];
    assert b + [] == b;
  }

  // No tier is free.
  predicate Priced(sets: seq<CheerSet>) {
    forall s :: s in sets ==> forall t :: t in s.tiers ==> t.minBits >= 1
  }

  lemma {:induction false} PricedCheer(fold: char -> char, sets: seq<CheerSet>, word: string)
    requires Priced(sets) && CheerEmote(fold, sets, word).Some?
    ensures CheerEmote(fold, sets, word).value.tier.minBits >= 1
  {
    assert sets[0] in sets;
    var amount := Captured(fold, sets[0].prefix, word);
    if amount.None? || FirstTier(sets[0].tiers, ToInt(amount.value)).None? {
      assert forall s :: s in sets[1..] ==> s in sets;
      PricedCheer(fold, sets[1..], word);
    }
  }

  // A cheer with a price is for what it takes, at least one bit.
  lemma {:induction false} PricedAmount(c: Setting, word: string, st: Bits)
    requires st.bitsLeft >= 0 && Priced(c.sets)
    ensures var r := CheerOf(c, word, st);
            r.Some? ==> 1 <= ToInt(r.value.amount) == AmountOf(r.value)
    decreases |word|, TailValue(word)
  {
    var cheer := CheerEmote(c.fold, c.sets, word);
    if st.bitsLeft > 0 && cheer.Some? {
      PricedCheer(c.fold, c.sets, word);
      var excess := Excess(c, cheer.value, st);
      if excess > 0 {
        ReducedIsSmaller(word, cheer.value.amount, excess);
        PricedAmount(c, Reduced(word, cheer.value.amount, excess), st);
      }
    }
  }

  // What is shown and what has no colour are together what the cheers are for.
  lemma {:induction false} ShownAmounts(c: Setting, words: seq<string>, st: Bits)
    requires st.bitsLeft >= 0 && !c.stackBits
    ensures var cheers := CheersOf(c, words, st);
            Sum(AllTried(c, words, st).elements) + Hidden(cheers) == Sum(st.elements) + Total(cheers)
  {
    if words != [] {
      var init, word := words[..|words| - 1], words[|words| - 1];
      SplitLast(words);
      NextWord(c, init, word, st);
      ShownAmounts(c, init, st);
      var s := AllTried(c, init, st);
      var cheer := CheerOf(c, word, s);
      if cheer.Some? {
        SumShown(s.elements, cheer.value.tier, cheer.value.amount);
        TotalOne(CheersOf(c, init, st), cheer.value);
      }
    }
  }

  // At every point of the message.
  lemma {:induction false} BitsAreConserved(c: Setting, words: seq<string>, st: Bits)
    requires st.bitsLeft >= 0 && !c.stackBits && Priced(c.sets)
    ensures Total(CheersOf(c, words, st)) + AllTried(c, words, st).bitsLeft == st.bitsLeft
  {
    if words != [] {
      var init, word := words[..|words| - 1], words[|words| - 1];
      SplitLast(words);
      NextWord(c, init, word, st);
      BitsAreConserved(c, init, st);
      var s := AllTried(c, init, st);
      PricedAmount(c, word, s);
      var cheer := CheerOf(c, word, s);
      if cheer.Some? {
        TotalOne(CheersOf(c, init, st), cheer.value);
      }
    }
  }

  // Ten digits and more do not fit an int.
  lemma LongAmount(s: string)
    requires IsNumeral(s) && |s| >= 11
    ensures ToInt(s) == 0 && Value(s) > 0
  {
    ValueAtLeast(s);
    PowerMonotone(10, |s| - 1);
    assert Power(10) == 1_00000_00000;
  }

  const TOO_MUCH := "10000000000"

  lemma LongIsTooMuch()
    ensures IsNumeral(TOO_MUCH) && |TOO_MUCH| == 11
  {
  }

  // Whatever set knows it, the amount of such a word does not fit.
  lemma OverflowingWord(fold: char -> char, prefix: string, other: string)
    ensures var r := Captured(fold, other, prefix + TOO_MUCH);
            r.Some? ==> |r.value| >= 11
  {
    var word := prefix + TOO_MUCH;
    if |other| > |prefix| && |other| < |word| {
      assert word[|other|..][0] == TOO_MUCH[|other| - |prefix|] == '0';
    }
  }

  lemma {:induction false} FreeCheer(fold: char -> char, sets: seq<CheerSet>, prefix: string, k: nat, tier: Tier)
    requires k < |sets| && sets[k].prefix == prefix && tier in sets[k].tiers && tier.minBits <= 0
    ensures var r := CheerEmote(fold, sets, prefix + TOO_MUCH); r.Some? && |r.value.amount| >= 11
  {
    var word := prefix + TOO_MUCH;
    LongIsTooMuch();
    OverflowingWord(fold, prefix, sets[0].prefix);
    if k == 0 {
      assert word[|prefix|..] == TOO_MUCH;
      LongAmount(TOO_MUCH);
    } else {
      FreeCheer(fold, sets[1..], prefix, k - 1, tier);
    }
  }

  ghost predicate ConservesIn(c: Setting, words: seq<string>, st: Bits)
    requires st.bitsLeft >= 0
  {
    Total(CheersOf(c, words, st)) + AllTried(c, words, st).bitsLeft == st.bitsLeft
  }

  ghost predicate Conserves(c: Setting) {
    forall words, st: Bits :: st.bitsLeft >= 0 ==> ConservesIn(c, words, st)
  }

  // Bits are conserved over all messages exactly when no tier is free: an
  // amount too large for an int counts as nothing, and is a cheer nevertheless.
  lemma ConservesExactly(c: Setting)
    requires !c.stackBits
    ensures Conserves(c) <==> Priced(c.sets)
  {
    if Priced(c.sets) {
      forall words, st: Bits | st.bitsLeft >= 0 ensures ConservesIn(c, words, st) {
        BitsAreConserved(c, words, st);
      }
    } else {
      var words, st := FreeTierLoses(c);
    }
  }

  lemma OneWord(c: Setting, word: string, cheer: Cheer, st: Bits)
    requires st.bitsLeft >= 0 && CheerOf(c, word, st) == Some(cheer)
    ensures CheersOf(c, [word], st) == [cheer] && AllTried(c, [word], st) == Paid(c, cheer, st)
  {
    NothingBehind([word]);
    NextWord(c, [], word, st);
    NothingBehind([cheer]);
  }

  lemma LongCheerLoses(c: Setting, word: string, cheer: Cheer, st: Bits)
    requires !c.stackBits && st == Bits(1, false, [])
    requires CheerEmote(c.fold, c.sets, word) == Some(cheer) && |cheer.amount| >= 11
    ensures !ConservesIn(c, [word], st)
  {
    LongAmount(cheer.amount);
    CheerOfPays(c, word, cheer, st);
    OneWord(c, word, cheer, st);
    NothingBehind([cheer]);
    TotalOne([], cheer);
  }

  lemma FreeTierLoses(c: Setting) returns (words: seq<string>, st: Bits)
    requires !c.stackBits && !Priced(c.sets)
    ensures st.bitsLeft >= 0 && !ConservesIn(c, words, st)
  {
    var s, tier :| s in c.sets && tier in s.tiers && tier.minBits < 1;
    var k: nat :| k < |c.sets| && c.sets[k] == s;
    FreeCheer(c.fold, c.sets, s.prefix, k, tier);
    var word := s.prefix + TOO_MUCH;
    words, st := [word], Bits(1, false, []);
    LongCheerLoses(c, word, CheerEmote(c.fold, c.sets, word).value, st);
  }

  // The amount that is shown when a cheer is for more than is left.
  function Remainder(v: nat, left: nat): (r: nat)
    requires v > 0 && left > 0
    ensures 0 < r <= left && r <= v
  {
    if v <= left then v else Remainder(v - left, left)
  }

  lemma {:induction false} RemainderIsCongruent(v: nat, left: nat) returns (q: nat)
    requires v > 0 && left > 0
    ensures v == q * left + Remainder(v, left)
  {
    if v <= left {
      q := 0;
    } else {
      q := RemainderIsCongruent(v - left, left);
      q := q + 1;
    }
  }

  // Every smaller amount is a cheermote too.
  ghost predicate Cheers(c: Setting, prefix: string, v: nat) {
    forall u: nat :: 0 < u <= v ==>
      var r := CheerEmote(c.fold, c.sets, prefix + Number(u));
      r.Some? && r.value.amount == Number(u)
  }

  // The cheer for n bits, as it would be if written so.
  function AfterCheer(c: Setting, prefix: string, n: nat, st: Bits): (Outcome, Bits) {
    var cheer := CheerEmote(c.fold, c.sets, prefix + Number(n));
    if cheer.None? then (Failure, st)
    else (Success, Bits(st.bitsLeft - n, st.bitsStacked, st.elements + Shown(cheer.value.tier, Number(n))))
  }

  lemma CheerOnce(c: Setting, prefix: string, v: nat, st: Bits)
    requires !c.stackBits && 0 < v <= st.bitsLeft && Cheers(c, prefix, v)
    requires v < 0x8000_0000
    ensures Tried(c, prefix + Number(v), st) == AfterCheer(c, prefix, v, st)
  {
    ValueOfNumber(v);
    CheerOfPays(c, prefix + Number(v), CheerEmote(c.fold, c.sets, prefix + Number(v)).value, st);
  }

  lemma CheerAgain(c: Setting, prefix: string, v: nat, st: Bits)
    requires !c.stackBits && 0 < st.bitsLeft < v && Cheers(c, prefix, v)
    requires v < 0x8000_0000
    ensures Tried(c, prefix + Number(v), st) == Tried(c, prefix + Number(v - st.bitsLeft), st)
  {
    ValueOfNumber(v);
    var word := prefix + Number(v);
    var cheer := CheerEmote(c.fold, c.sets, word).value;
    ReducedOf(prefix, Number(v), v - st.bitsLeft);
    CheerOfAgain(c, word, cheer, st);
    assert cheer.amount == Number(v) && Excess(c, cheer, st) == v - st.bitsLeft;
  }

  lemma ReducedOf(prefix: string, amount: string, u: nat)
    ensures Reduced(prefix + amount, amount, u) == prefix + Number(u)
  {
    var word := prefix + amount;
    assert word[..|word| - |amount|] == prefix;
  }

  // Trying again and again with the excess shows the remainder, and takes it.
  lemma {:induction false} CheerTakesRemainder(c: Setting, prefix: string, v: nat, st: Bits)
    requires !c.stackBits && st.bitsLeft > 0 && 0 < v < 0x8000_0000
    requires Cheers(c, prefix, v)
    ensures Tried(c, prefix + Number(v), st) == AfterCheer(c, prefix, Remainder(v, st.bitsLeft), st)
    ensures Tried(c, prefix + Number(v), st).0 == Success
    decreases v
  {
    if v <= st.bitsLeft {
      assert Remainder(v, st.bitsLeft) == v;
      CheerOnce(c, prefix, v, st);
    } else {
      assert Remainder(v, st.bitsLeft) == Remainder(v - st.bitsLeft, st.bitsLeft);
      CheerAgain(c, prefix, v, st);
      CheerTakesRemainder(c, prefix, v - st.bitsLeft, st);
    }
  }

  predicate IsCheer(c: Setting, word: string) {
    CheerEmote(c.fold, c.sets, word).Some?
  }

  // One cheer shows all the bits.
  ghost predicate ShowsAll(st: Bits, r: Bits)
    requires st.bitsLeft >= 0
  {
    exists tier :: r == Bits(st.bitsLeft, true, st.elements + Shown(tier, Number(st.bitsLeft)))
  }

  // With stacking on, the first cheer shows all bits, and no other shows any.
  lemma {:induction false} StackedOnce(c: Setting, words: seq<string>, st: Bits)
    requires c.stackBits && st.bitsLeft > 0 && !st.bitsStacked
    ensures var r := AllTried(c, words, st);
            if exists w :: w in words && IsCheer(c, w) then ShowsAll(st, r) else r == st
  {
    if words != [] {
      var init, last := words[..|words| - 1], words[|words| - 1];
      SplitLast(words);
      StackedOnce(c, init, st);
      StackedStep(c, last, st, AllTried(c, init, st));
    }
  }

  lemma StackedStep(c: Setting, word: string, st: Bits, r: Bits)
    requires c.stackBits && st.bitsLeft > 0 && !st.bitsStacked
    requires r == st || ShowsAll(st, r)
    ensures var r' := Tried(c, word, r).1;
            if r == st && !IsCheer(c, word) then r' == st else ShowsAll(st, r')
  {
    var cheer := CheerEmote(c.fold, c.sets, word);
    if cheer.Some? {
      CheerOfPays(c, word, cheer.value, r);
      if r == st {
        assert Paid(c, cheer.value, st) ==
               Bits(st.bitsLeft, true, st.elements + Shown(cheer.value.tier, Number(st.bitsLeft)));
      }
    }
  }

  // The cheers of a message as it is built.
  class CheerText {
    const setting: Setting
    var bitsLeft: int
    var bitsStacked: bool
    var elements: seq<Element>

    constructor (setting: Setting, bits: int)
      ensures this.setting == setting && State() == Bits(bits, false, [])
    {
      this.setting := setting;
      bitsLeft, bitsStacked, elements := bits, false, [];
    }

    function State(): Bits
      reads this
    {
      Bits(bitsLeft, bitsStacked, elements)
    }

    method TryAppendCheermote(word: string) returns (outcome: Outcome)
      requires bitsLeft >= 0
      modifies this
      ensures (outcome, State()) == Tried(setting, word, old(State()))
      decreases |word|, TailValue(word)
    {
      if bitsLeft == 0 {
        return Failure;
      }
      var cheer := CheerEmote(setting.fold, setting.sets, word);
      if cheer.None? {
        return Failure;
      }
      var tier, amount := cheer.value.tier, cheer.value.amount;
      var cheerValue := ToInt(amount);
      if setting.stackBits {
        CheerOfPays(setting, word, cheer.value, State());
        if !bitsStacked {
          elements := elements + Shown(tier, Number(bitsLeft));
          bitsStacked := true;
        }
        return Success;
      }
      if bitsLeft >= cheerValue {
        CheerOfPays(setting, word, cheer.value, State());
        bitsLeft := bitsLeft - cheerValue;
      } else {
        CheerOfAgain(setting, word, cheer.value, State());
        NumberOfValue(amount);
        ReducedIsSmaller(word, amount, cheerValue - bitsLeft);
        var newString := word[..|word| - |Number(cheerValue)|];
        newString := newString + Number(cheerValue - bitsLeft);
        outcome := TryAppendCheermote(newString);
        return;
      }
      elements := elements + Shown(tier, amount);
      return Success;
    }
  }

  // A word is a prefix, in any case, and an amount behind it.
  lemma CapturedExactly(fold: char -> char, prefix: string, word: string, amount: string)
    ensures Captured(fold, prefix, word) == Some(amount) <==>
      && |word| == |prefix| + |amount|
      && (forall i :: 0 <= i < |prefix| ==> fold(word[i]) == fold(prefix[i]))
      && word[|prefix|..] == amount
      && amount != "" && '1' <= amount[0] <= '9'
      && (forall i :: 0 <= i < |amount| ==> '0' <= amount[i] <= '9')
  {
  }

  // Amounts beyond 2147483647 read as nothing, and digits are decimal.
  lemma ToIntExactly(s: string, c: char)
    requires IsNumeral(s) && '0' <= c <= '9'
    ensures ToInt(s) == if Value(s) <= 2147483647 then Value(s) else 0
    ensures Value(s + [c]) == 10 * Value(s) + (c as int - '0' as int)
    ensures Value([c]) == c as int - '0' as int
  {
    assert (s + [c])[..|s|] == s && [c][..0] == "";
  }

  // A cheer for no more than is left shows both pictures of its tier and, in
  // the tier's colour, the digits as they were written.
  lemma CheerShows(c: Setting, word: string, cheer: Cheer, st: Bits)
    requires !c.stackBits && st.bitsLeft > 0 && CheerEmote(c.fold, c.sets, word) == Some(cheer)
    requires ToInt(cheer.amount) <= st.bitsLeft
    ensures Tried(c, word, st) == (Success, Bits(
      st.bitsLeft - ToInt(cheer.amount), st.bitsStacked,
      st.elements + if cheer.tier.coloured
                    then [StaticEmote(cheer.tier), AnimatedEmote(cheer.tier), Amount(cheer.amount)]
                    else [StaticEmote(cheer.tier), AnimatedEmote(cheer.tier)]))
  {
    CheerOfPays(c, word, cheer, st);
    assert Shown(cheer.tier, cheer.amount) ==
           if cheer.tier.coloured then [StaticEmote(cheer.tier), AnimatedEmote(cheer.tier), Amount(cheer.amount)]
           else [StaticEmote(cheer.tier), AnimatedEmote(cheer.tier)];
  }

  // Stacked, the first cheer shows them with all the bits.
  lemma StackedShows(c: Setting, word: string, cheer: Cheer, st: Bits)
    requires c.stackBits && st.bitsLeft > 0 && !st.bitsStacked
    requires CheerEmote(c.fold, c.sets, word) == Some(cheer) && cheer.tier.coloured
    ensures Tried(c, word, st) == (Success, Bits(
      st.bitsLeft, true,
      st.elements + [StaticEmote(cheer.tier), AnimatedEmote(cheer.tier), Amount(Number(st.bitsLeft))]))
  {
    CheerOfPays(c, word, cheer, st);
    assert Shown(cheer.tier, Number(st.bitsLeft)) ==
           [StaticEmote(cheer.tier), AnimatedEmote(cheer.tier), Amount(Number(st.bitsLeft))];
  }

  // Without bits left, and without a cheermote, a word is no cheer.
  lemma NoCheer(c: Setting, word: string, st: Bits)
    requires st.bitsLeft >= 0 && (st.bitsLeft == 0 || CheerEmote(c.fold, c.sets, word).None?)
    ensures Tried(c, word, st) == (Failure, st)
  {
  }
}
