# Verified models of Chatterino's core logic

Dafny models of the parts of Chatterino (a chat client for Twitch and other
platforms) whose correctness does not hang on Qt, fonts or the network, and
proofs of what these parts are for. Check the whole project with
`dafny verify dfyconfig.toml`.

| file | models |
|---|---|
| `LimitedQueue.dfy` | the bounded message buffer behind every channel |
| `ChannelHistory.dfy`, `FillIn.dfy`, `FillInOnce.dfy`, `MergeOrder.dfy`, `LimitHistory.dfy`, `Channel.dfy` | the history of a channel: its adjustable limit, filling in missed messages, merging the histories of several channels |
| `MessageElements.dfy`, `TextBuilding.dfy`, `TextResults.dfy`, `MessageBuilder.dfy`, `PersonalEmotes.dfy` | building a message's text from words, emotes, modifiers and breaks, and putting personal emotes into it afterwards |
| `WordTokenizer.dfy` | taking the text of a message apart |
| `Cheermotes.dfy` | what becomes of the bits of a message |
| `WordClusters.dfy`, `MatchHighlights.dfy`, `TextWrapping.dfy`, `WrapResults.dfy` | breaking long words into lines and marking matches in the pieces |
| `MessageSimilarity.dfy` | how similar two messages are |
| `LinkParser.dfy`, `LinkResults.dfy` | finding a link in a word |
| `SignalVectorModel.dfy` | a vector of items and the table model that shows it |
| `AnimationFrames.dfy` | which frame of an animated image is shown |
| `WindowDescriptors.dfy`, `WindowLayout.dfy` | saving and loading the splits of a tab, choosing the tab of a channel |
| `ImageUploader.dfy` | the protocol of the image uploader |
| `Sequences.dfy` | shared vocabulary |

Objects whose methods change them are classes; each such method is proved
against a predicate or a function of the old state, and the results about whole
runs are lemmas about those functions. Strings of code units are `seq`s of
integers below 2^16; times and widths are integers.

## Where the code does less than one might expect

Each of these is stated exactly by a lemma or a contract.

* **Filling in missed messages**: the code looks for its anchor, and for the last
  message, by pointer and takes the first copy it finds. With distinct messages
  that is the right one (`FillRuns.DistinctIsRight`). For any history, batch and
  limit, the buffer holds the newest messages of the intended result all through
  the pass if and only if nothing but copies of the message stand between where
  it is put and where it belongs (`FillRuns.RightThroughoutExactly`). For new
  messages in ascending order, which is what the code is written for, the end
  result is the intended one if and only if no message goes to the end or no
  earlier copy of the history's last message is kept until then
  (`FillRuns.FillInExactly`), and the bounded and the unbounded pass agree if and
  only if no message goes to the end or the first copy of the last message is
  kept until then (`FillRuns.BoundedIsUnboundedExactly`). Nothing needs to be
  evicted for it to go wrong (`FillRuns.RepeatedLastMessage`); on a full buffer the
  two passes can differ (`FillRuns.RepeatedLastOnFullBuffer`); a batch out of
  order can also miss an evicted anchor (`FillRuns.EvictedAnchor`). Messages that
  are filled in twice can repair what they broke (`FillRuns.RepeatsRepair`), which
  is why the results about the end of the pass are about new messages.
* **Hinted replacement** (`Channels.Channel.ReplaceMessageHinted`): when the hint
  is wrong the message is found elsewhere, but the signal carries the hint. The
  two agree if and only if the hinted slot holds the message.
* **Wrapping** (`WrapResults.TornPairsExactly`): a word can be cut behind a high
  surrogate if and only if it has two high surrogates in a row with something
  behind them. Well-formed UTF-16 has none.
* **Cheers** (`Cheermotes.ConservesExactly`): what the cheers are for and the bits
  left add up over all messages if and only if every tier costs at least one bit.
  An amount too large for an `int` reads as zero, and a tier that is free accepts
  it. Of a cheer whose tier has no colour the amount is not shown
  (`Cheermotes.ShownAmounts`).
* **Window layouts** (`WindowDescriptors.RoundTripExactly`,
  `WindowDescriptors.LoadedSurvives`): Kick ids of 2^31 and more (but for the
  topmost 2^31) are loaded as 0, and the `server` number of a split is read but
  never written. What was loaded once loses nothing else when it is saved again.
* **Starting an animation** (`AnimationFrames.StartResult`): the position is cut
  down to an `int` before it is capped at a minute, so an animation longer than
  2^31 ms can start at a negative offset
  (`AnimationFrames.LongAnimationStartsBeforeItself`).

## Model

| member | source | states |
|---|---|---|
| `CircularBuffers.InsertAtKeepsNewest` | src/messages/LimitedQueue.hpp:327-369 | inserting into the circular buffer is, in all its cases (room left, full, full and in front of the oldest), inserting and then keeping the newest |
| `LimitedQueues.LimitedQueue.constructor` | src/messages/LimitedQueue.hpp:22-26 | a new queue is empty and has the given limit |
| `LimitedQueues.LimitedQueue.SetLimit` | src/messages/LimitedQueue.hpp:59-72 | lowering the limit keeps the newest items and hands out the others oldest first |
| `LimitedQueues.LimitedQueue.PushBack` | src/messages/LimitedQueue.hpp:164-190 | appends; an item is handed out exactly if the queue was full, and it is the oldest |
| `LimitedQueues.LimitedQueue.PushFrontItem` | src/messages/LimitedQueue.hpp:192-205 | one round of pushFrontWhile puts an item in front |
| `LimitedQueues.LimitedQueue.PushFront` | src/messages/LimitedQueue.hpp:217-234 | the newest of the given items that fit come to stand in front in order; nothing is evicted |
| `LimitedQueues.LimitedQueue.ReplaceItem` | src/messages/LimitedQueue.hpp:245-267 | replaces the first occurrence and nothing else, or reports -1 and changes nothing |
| `LimitedQueues.LimitedQueue.ReplaceItemHinted` | src/messages/LimitedQueue.hpp:297-318 | as above; the returned index is the hint exactly if the hinted slot holds the item |
| `LimitedQueues.LimitedQueue.InsertBefore` | src/messages/LimitedQueue.hpp:327-345 | succeeds exactly if the needle is still there; then the queue is the newest of the old items with the new one in front of the needle |
| `LimitedQueues.LimitedQueue.InsertAfter` | src/messages/LimitedQueue.hpp:353-371 | the same behind the needle |
| `LimitedQueues.LimitedQueue.Clear` | src/messages/LimitedQueue.hpp:150-155 | empties the queue and keeps its limit |
| `Channels.Channel.AddMessage` | src/common/Channel.cpp:175-212 | appends and signals it; a full raised buffer grows by one, which is signalled first, instead of evicting; otherwise the evicted message is reported |
| `Channels.Channel.GrowMessageLimit` | src/common/Channel.cpp:214-224 | raises the limit and signals by how much; zero slots change nothing |
| `Channels.Channel.ResetMessageLimit` | src/common/Channel.cpp:226-240 | back to the default limit, with a signal; the messages over it are reported oldest first |
| `Channels.Channel.AddMessagesAtStart` | src/common/Channel.cpp:292-306 | puts the newest messages that fit in front and signals exactly those, if there are any |
| `LimitHistory.StepResult` | src/common/Channel.cpp:175-306 | after every step: size <= limit, limit >= default and equal to it when not raised, reports only grow, and the messages just reported followed by the buffer are the ones added at the start, the old buffer and the appended one; raised, nothing is reported before a reset |
| `LimitHistory.RunConserves` | src/common/Channel.cpp:175-306 | over every run no message is lost or reported twice |
| `LimitHistory.RaisedRunKeepsEverything` | src/common/Channel.cpp:193-224 | while the limit is raised nothing is evicted and the order is kept without a gap |
| `LimitHistory.DefaultRunKeepsNewest` | src/common/Channel.cpp:175-212 | at the default limit any number of appended messages leaves exactly the newest, the rest having been reported oldest first |
| `LimitHistory.SignalsTellAll` | src/common/Channel.cpp:175-306 | who hears only the signals and counts the removals knows the whole history and its limit after every step |
| `LimitHistory.GrownAndAdded` | src/common/Channel.cpp:214-306 | growing adds exactly the slots asked for; what is added at the start are the last of the given messages, all of them or as many as fill the buffer |
| `Channels.Channel.FillInMissingMessages` | src/common/Channel.cpp:308-397 | the new contents for every history, batch and limit; with distinct messages they are exactly the last `limit` messages of what an unbounded buffer would hold, also when an anchor was evicted meanwhile or is the front of a full buffer; the batch is signalled exactly if something was missing |
| `FillRuns.DistinctIsRight` | src/common/Channel.cpp:329-389 | with distinct messages the pass leaves the newest messages of the intended result, in whatever order the batch comes |
| `FillRuns.StepExactly` | src/common/Channel.cpp:361-388 | one message is put where it belongs if and only if nothing but copies of it stand between the place that is found and that place |
| `FillRuns.InsertionsAgree` | src/messages/LimitedQueue.hpp:327-369 | two places of an insertion into a bounded queue are as good as each other if and only if nothing but copies of the item stand between them |
| `FillRuns.RightThroughoutExactly` | src/common/Channel.cpp:329-389 | for every history, batch and limit: the buffer is right all through the pass if and only if every place is found |
| `FillRuns.InsideFinds` | src/common/Channel.cpp:369-379 | in an ascending batch no anchor is evicted and each is found, whatever the history holds twice |
| `FillRuns.FillInExactly` | src/common/Channel.cpp:329-389 | for new messages in ascending order: the result is the intended one if and only if nothing goes to the end or no earlier copy of the last message is kept until then |
| `FillRuns.BoundedIsUnboundedExactly` | src/common/Channel.cpp:329-389 | for new messages in ascending order: the bounded pass leaves the newest messages of the unbounded one if and only if nothing goes to the end or the first copy of the last message is kept until then |
| `FillRuns.RepeatedLastMessage` | src/common/Channel.cpp:381-388 | a history that ends with a message it holds twice, and a message that ends up in its middle |
| `FillRuns.RepeatedLastOnFullBuffer` | src/common/Channel.cpp:381-388 | such a history and a batch on which a full buffer and an unbounded one differ |
| `FillRuns.EvictedAnchor` | src/common/Channel.cpp:369-379 | a batch out of order that evicts an anchor and finds its other copy |
| `FillRuns.RepeatsRepair` | src/common/Channel.cpp:381-388 | a batch of messages filled in again whose first step is wrong and whose result is right |
| `Channels.Channel.FirstLater` | src/common/Channel.cpp:355-372 | the anchor is the first non-system message received later |
| `FillOrder.FillInResult` | src/common/Channel.cpp:308-389 | with room for all: the old messages keep their order, each message of the batch is there once or, if its id is that of an old non-system message, not at all, and ascending times in give ascending times out, the batch in its own order |
| `FillOnce.FilledInOnce` | src/common/Channel.cpp:329-389 | with room for all, a message is there as often as before, and as often as it is in the batch unless an old message that is no system message has its (non-empty) id |
| `FillOnce.FilledInTwice` | src/common/Channel.cpp:329-356 | filling in the same messages with ids again changes nothing |
| `FillOnce.ReconnectChangesNothing` | src/common/Channel.cpp:351-356 | a message whose id is there already is not filled in again |
| `FillOrder.WeaveConserves` | src/common/Channel.cpp:329-389 | nothing is lost or repeated |
| `FillOrder.WeaveKeepsOrder` | src/common/Channel.cpp:329-389 | the old messages keep their relative order |
| `FillOrder.WeaveAscending` | src/common/Channel.cpp:329-389 | the non-system and the filled-in messages are ascending by time |
| `Channels.Channel.ReplaceMessageHinted` | src/common/Channel.cpp:422-432 | replaces the message if it is there and signals the hint, which is where it was found exactly if the hint was right |
| `Channels.Channel.MergeFrom` | src/common/Channel.cpp:443-470 | the buffer ends up with min(limit, total) messages, a suffix of every source, in the order of the merge |
| `Channels.Channel.NewestBack` | src/common/Channel.cpp:443-470 | picks the first source whose last message is newest |
| `MergeOrder.OneMore` | src/common/Channel.cpp:443-470 | taking the newest last message keeps the merge sorted (equal times by source, as the strict comparison decides) and leaves nothing newer behind |
| `MergeOrder.MergeIsDetermined` | src/common/Channel.cpp:443-470 | these promises leave exactly one merge for a number of messages |
| `MergeOrder.TiesBySource` | src/common/Channel.cpp:454-462 | the kept messages ascend by time; at the same time an earlier source comes behind a later one and a source keeps its own order |
| `MergeOrder.LeftIsOlder` | src/common/Channel.cpp:454-467 | nothing that is left behind is newer than anything kept |
| `MessageElements.AddModifierResult` | src/messages/MessageElement.cpp:599-631 | a modifier joins the list of modifiers, and what is copied stays the layers and the modifiers together |
| `MessageElements.AddEmoteLayerResult` | src/messages/MessageElement.cpp:589-597 | a new layer is copied behind everything else |
| `MessageElements.AddSuffixResult` | src/messages/MessageElement.cpp:599-631 | a suffix is copied last |
| `MessageElements.AddPrefixesResult` | src/messages/MessageElement.cpp:599-631 | prefixes are copied in front of the emote, in the order they were added |
| `MessageBuilders.MessageBuilder.FlushPendingModifiers` | src/messages/MessageBuilder.cpp:3464-3472 | every waiting prefix becomes a text, in order |
| `MessageBuilders.MessageBuilder.AppendModifier` | src/messages/MessageBuilder.cpp:3394-3462 | the new state and whether the modifier was taken, for every branch |
| `MessageBuilders.MessageBuilder.AppendEmote` | src/messages/MessageBuilder.cpp:3506-3544 | lays a zero-width emote over the last emote or appends an element |
| `MessageBuilders.MessageBuilder.AppendParsedEmote` | src/messages/MessageBuilder.cpp:3474-3504 | gives the waiting prefixes to the emote, or flushes them in front of it |
| `MessageBuilders.MessageBuilder.TryAppendEmote` | src/messages/MessageBuilder.cpp:3371-3392 | succeeds exactly if the word is an emote's name |
| `MessageBuilders.MessageBuilder.SplitDirectModifiers` | src/messages/MessageBuilder.cpp:2501-2515 | splits off up to 16 two-character prefixes |
| `MessageBuilders.MessageBuilder.AddTextOrEmote` | src/messages/MessageBuilder.cpp:2495-2562 | the new state for a word |
| `MessageBuilders.MessageBuilder.AddInput` | src/messages/MessageBuilder.cpp:3752-3778 | the new state for a token |
| `MessageBuilders.MessageBuilder.AddWords` | src/messages/MessageBuilder.cpp:3752-3779 | behind whatever the builder holds already, the message is copied as exactly the input text, nothing waits any more and no list of modifiers is over its limit |
| `TextBuilding.RunResult` | src/messages/MessageBuilder.cpp:2489-2562 | over every run the copied words of the elements followed by the waiting prefixes are those of the inputs in order, and no list of modifiers exceeds 16 |
| `TextBuilding.TokensAreTheText` | src/messages/MessageBuilder.cpp:2495-2562 | the copied words spell the text that was put in, also where one word was split into modifiers and an emote |
| `TextBuilding.ReleasedMessage` | src/messages/MessageBuilder.cpp:1452-1461 | from any valid state, nothing waits after release, and the message is copied as what was there before and the text |
| `TextBuilding.GroupBecomesOneElement` | src/messages/MessageBuilder.cpp:3394-3504 | prefixes, an emote and suffixes (at most 16) written as words become one element with exactly these modifiers |
| `TextBuilding.SuffixJoins` | src/messages/MessageBuilder.cpp:3413-3462 | a suffix behind an emote joins it and keeps what it has |
| `TextResults.ZeroWidthGroupIsOneElement` | src/messages/MessageBuilder.cpp:3371-3544 | with zero-width emotes enabled, an emote with up to 16 modifiers and the zero-width emotes behind it are one element: the emote at the bottom, the others over it in order, and these modifiers |
| `TextResults.AllLieOverEmote` | src/messages/MessageBuilder.cpp:3506-3530 | zero-width emotes lie over an emote element of any kind, which becomes the bottom layer |
| `TextResults.StandsForItself` | src/messages/MessageBuilder.cpp:3537-3543 | without the setting, or with no emote in front of it, a zero-width emote is an element of its own |
| `TextResults.EachStandsForItself` | src/messages/MessageBuilder.cpp:3508-3543 | without the setting, so is each of a row of them |
| `TextResults.SeventeenPrefixesAreText` | src/messages/MessageBuilder.cpp:3396-3409 | the 17th prefix in a row turns all of them into text |
| `TextResults.SeventeenthModifierIsText` | src/messages/MessageBuilder.cpp:3425-3436 | the 17th modifier of an emote is a text behind it |
| `TextResults.SuffixJoinsEmote` | src/messages/MessageBuilder.cpp:3439-3461 | a suffix joins the emote in front of it, with layers or without, which keeps its layers, its other modifiers, its flags and its space |
| `TextResults.SuffixStandsForItself` | src/messages/MessageBuilder.cpp:3413-3450 | behind a text, an image, an emoji or a gigantified emote, and at the beginning, it is an emote of its own |
| `TextResults.NothingJoinsBehindPrefixes` | src/messages/MessageBuilder.cpp:3419-3485 | waiting prefixes become text in front of a suffix, which becomes text as well, and in front of a zero-width emote, which lies over nothing then |
| `TextResults.SuffixTakesPrefixesAtStart` | src/messages/MessageBuilder.cpp:3413-3417 | at the beginning of a message a suffix is the emote the waiting prefixes are for |
| `TextResults.TwitchEmoteTakesPrefixes` | src/messages/MessageBuilder.cpp:3474-3504 | an emote of Twitch's own takes the waiting prefixes; the space behind it is the one of its token |
| `TextResults.DirectGroupIsOneElement` | src/messages/MessageBuilder.cpp:2498-2530 | up to 16 two-character prefixes and an emote written as one word are one element with these modifiers |
| `TextResults.DirectWithoutEmoteIsWord` | src/messages/MessageBuilder.cpp:2517-2562 | in front of no emote, or of another modifier, they are part of a plain word |
| `TextResults.BreakSeparates` | src/messages/MessageBuilder.cpp:3464-3472 | prefixes in front of a break become text, and the emote behind it has no modifiers |
| `TextResults.NothingWaitsBehind` | src/messages/MessageBuilder.cpp:2489-2493 | what waits becomes text in front of a break, an emoji, a GIF or a gigantified emote, each of which is exactly this element |
| `TextResults.PlainWordsAreOneText` | src/messages/MessageBuilder.cpp:2564-2700 | words that are no emotes go into one text element in order, the last one if it is such a text |
| `PersonalEmotes.UpsertPersonalEmotes` | src/common/Channel.cpp:607-777 | the rebuilt elements |
| `PersonalEmotes.UpsertResult` | src/common/Channel.cpp:651-777 | the copied words stay the same, no plain text word names an emote any more, and doing it again changes nothing |
| `PersonalEmotes.UpsertShowsEmotes` | src/common/Channel.cpp:651-777 | a reader sees the same message in the same order, but that each word of its text that names an emote is that emote now |
| `PersonalEmotes.ElementsOfText` | src/common/Channel.cpp:651-757 | the elements of a text, from left to right: the zero-width emotes it begins with are laid over the emote in front of it, every other emote is an element between texts like the old one, with the zero-width emotes directly behind it laid over it in order |
| `PersonalEmotes.ZeroWidthIsLaidOver` | src/common/Channel.cpp:666-733 | a zero-width emote directly behind another is laid over it |
| `WordTokenizer.TokenizeWords` | src/messages/MessageBuilder.cpp:796-875 | the tokens are, from left to right and once each, the maximal words, the special items and one break per pair of adjacent open spaces |
| `WordTokenizer.TokenizationIsUnique` | src/messages/MessageBuilder.cpp:796-875 | there is one such list of tokens |
| `WordTokenizer.TokensCover` | src/messages/MessageBuilder.cpp:796-875 | the tokens cover exactly the characters that are no open spaces, each once |
| `WordTokenizer.TextsAndBreaks` | src/messages/MessageBuilder.cpp:810-875 | the texts are the longest runs of characters that are no spaces and outside all special items; there is a break exactly at the second of two adjacent spaces outside them |
| `WordTokenizer.SpecialsAreTokens` | src/messages/MessageBuilder.cpp:820-860 | every special item is a token at its own place, an emote with the trailing space and the size it has in the text |
| `Cheermotes.CheerEmoteIsBest` | src/providers/twitch/TwitchChannel.cpp:4496-4523 | a word is a cheermote of the first set that takes it, and there of the most expensive tier it pays for |
| `Cheermotes.CapturedExactly` | src/providers/twitch/TwitchChannel.cpp:4168-4173 | a set knows a word exactly if it is its prefix in any case and a decimal number without leading zero behind it |
| `Cheermotes.ToIntExactly` | src/providers/twitch/TwitchChannel.cpp:4506-4513 | the amount is read as a decimal number, and as nothing beyond 2147483647 |
| `Cheermotes.CheerShows` | src/messages/MessageBuilder.cpp:4127-4157 | a cheer for no more than is left shows both pictures of its tier and the digits as written |
| `Cheermotes.StackedShows` | src/messages/MessageBuilder.cpp:4099-4125 | stacked, the first cheer shows them with all the bits |
| `Cheermotes.NoCheer` | src/messages/MessageBuilder.cpp:4079-4097 | without bits left, and without a cheermote, a word is no cheer and changes nothing |
| `Cheermotes.CheerText.TryAppendCheermote` | src/messages/MessageBuilder.cpp:4074-4160 | the outcome and the new state; the recursive reduction terminates |
| `Cheermotes.ReducedIsSmaller` | src/messages/MessageBuilder.cpp:4131-4138 | the reduced word is shorter or its number is smaller |
| `Cheermotes.PricedAmount` | src/messages/MessageBuilder.cpp:4074-4160 | without free tiers a cheer is for exactly what it takes from the bits left, at least one |
| `Cheermotes.ShownAmounts` | src/messages/MessageBuilder.cpp:4140-4157 | the bits shown are what the cheers are for, but for those of tiers without a colour |
| `Cheermotes.BitsAreConserved` | src/messages/MessageBuilder.cpp:4074-4160 | what the cheers are for and the bits left add up to the tag at every point of the message |
| `Cheermotes.ConservesExactly` | src/messages/MessageBuilder.cpp:4074-4160 | this holds for all messages if and only if no tier is free |
| `Cheermotes.FreeTierLoses` | src/providers/twitch/TwitchChannel.cpp:4506-4520 | with a free tier there is a word that breaks it |
| `Cheermotes.CheerTakesRemainder` | src/messages/MessageBuilder.cpp:4127-4138 | where every smaller amount behind the same prefix is a cheermote too, a cheer for more than is left is shown as the number in 1..left that remains after taking away `left` again and again |
| `Cheermotes.RemainderIsCongruent` | src/messages/MessageBuilder.cpp:4127-4138 | that number differs from the amount by a multiple of the bits left |
| `Cheermotes.StackedOnce` | src/messages/MessageBuilder.cpp:4099-4125 | with stacking on, the first cheer shows all bits and no other shows any |
| `Numerals.NumberOfValue` | src/messages/MessageBuilder.cpp:4133-4135 | the digits chopped off are the ones that were captured |
| `WordClusters.ClustersResult` | src/messages/MessageElement.cpp:1512-1563 | the characters taken by the wrapping loop make up the word |
| `WordClusters.BreaksAfterHighExactly` | src/messages/MessageElement.cpp:1518-1519 | which words can be broken behind a high surrogate at all |
| `WordClusters.HighSurrogates` | src/messages/MessageElement.cpp:1518-1519 | the high surrogates are the 1024 code units that begin with the bits 110110 |
| `MatchHighlights.LocalHighlights` | src/messages/MessageElement.cpp:1364-1387 | the highlights of a piece, in the order of the matches |
| `MatchHighlights.ClippedMarks` | src/messages/MessageElement.cpp:1367-1385 | a piece marks exactly its units that the match covers, nothing if there are none, and connects exactly to the sides the match goes on to |
| `MatchHighlights.NeighboursConnect` | src/messages/MessageElement.cpp:1381-1384 | two adjacent pieces connect exactly if the match covers the units on both sides of the cut |
| `TextWrapping.Container.BreakLine` | src/messages/layouts/MessageLayoutContainer.cpp:208-313 | starts a line, or closes a message that is to collapse |
| `TextWrapping.Container.AddElementNoLineBreak` | src/messages/layouts/MessageLayoutContainer.cpp:805-990 | places the element and moves on, unless the message is closed |
| `TextWrapping.MakePiece` | src/messages/MessageElement.cpp:1333-1391 | the piece is found at its own position in the word and highlighted there |
| `TextWrapping.WrapWord` | src/messages/MessageElement.cpp:1512-1574 | the pieces are a greedy division of the word over the lines and are placed one per line |
| `TextWrapping.AddWord` | src/messages/MessageElement.cpp:1322-1574 | a word goes on the line, on the next one, or is wrapped; elements stay side by side, line by line, and a message that is to collapse uses no line beyond its last |
| `WrapResults.WordStaysOnLine` | src/messages/MessageElement.cpp:1396-1402 | a word that fits behind what is on the line goes there in one piece |
| `WrapResults.WordGoesToNextLine` | src/messages/MessageElement.cpp:1404-1415 | a word that does not fit behind other elements but on an empty line is placed whole at the start of the next line |
| `WrapResults.DividedWordBeginsLine` | src/messages/MessageElement.cpp:1404-1574 | a word is divided only if it is wider than the line it begins on, and it begins at the left edge of that line |
| `WrapResults.CollapseHidesWord` | src/messages/layouts/MessageLayoutContainer.cpp:302-307 | on the last line of a message that is to collapse, a word that does not fit behind other elements is not shown |
| `WrapResults.AddedStaysOnLines` | src/messages/MessageElement.cpp:1396-1574 | whatever is added ends before the edge of its line (less the ellipsis on the last one), unless it is a single character or empty |
| `WrapResults.NoOverlapOnLine` | src/messages/layouts/MessageLayoutContainer.cpp:805-980 | elements of a line do not overlap and stand in reading order |
| `TextWrapping.WrapIsUnique` | src/messages/MessageElement.cpp:1512-1574 | the room on the lines leaves exactly one greedy division |
| `WrapResults.WrapKeepsText` | src/messages/MessageElement.cpp:1347-1388 | the pieces concatenate to the word, and their highlight lengths add up to the overlap of the matches with the word; a collapsing message shows a beginning of it |
| `WrapResults.WrapStaysOnLines` | src/messages/MessageElement.cpp:1529-1563 | every piece fits its line, is a single character or is empty |
| `WrapResults.PiecesLineByLine` | src/messages/MessageElement.cpp:1529-1573 | each piece has a line to itself, one below the other and at its left edge but for the first; only the last has the space of the word behind it |
| `WrapResults.TornPairsExactly` | src/messages/MessageElement.cpp:1516-1574 | some layout cuts behind a high surrogate if and only if the word has two of them in a row with something behind them |
| `MessageSimilarity.LongestCommon` | src/messages/MessageSimilarity.cpp:19-58 | the table's maximum is the length of the longest common substring |
| `MessageSimilarity.RelativeSimilarity` | src/messages/MessageSimilarity.cpp:19-58 | that length relative to the longer string |
| `MessageSimilarity.SimilarityResult` | src/messages/MessageSimilarity.cpp:19-58 | symmetric, within [0,1], 1 exactly for equal non-empty strings, 0 exactly without a common character |
| `MessageSimilarity.SimilarityExactly` | src/messages/MessageSimilarity.cpp:50-58 | the similarity times the longer length is the length of any longest common part |
| `MessageSimilarity.InMessages` | src/messages/MessageSimilarity.cpp:60-88 | the largest similarity to any compared message of the window |
| `MessageSimilarity.WindowResult` | src/messages/MessageSimilarity.cpp:60-88 | the window is the largest one of recent messages within the number to check |
| `MessageSimilarity.TooOldExactly` | src/messages/MessageSimilarity.cpp:69-73 | how many milliseconds make a message too old to be compared |
| `MessageSimilarity.OthersDoNotCount` | src/messages/MessageSimilarity.cpp:74-81 | comparing with the messages of the same user is comparing with all, if the others said nothing |
| `MessageSimilarity.NamesDoNotCount` | src/messages/MessageSimilarity.cpp:74-81 | without the setting it does not matter who wrote what |
| `Ipv4.IsValidIpv4` | src/common/LinkParser.cpp:59-97 | accepts exactly four dot-separated groups of one to three digits of at most 255; the 16-bit accumulator never overflows |
| `Ipv4.GroupsResult` | src/common/LinkParser.cpp:59-97 | the groups are what is between the dots |
| `LinkResults.QuadExactly` | src/common/LinkParser.cpp:59-97 | an address is four numbers of one to three digits, at most 255, with dots between them, and nothing else is |
| `LinkParser.Strip` | src/common/LinkParser.cpp:117-141 | removes exactly the leading and trailing punctuation |
| `LinkParser.StartsWithPort` | src/common/LinkParser.cpp:99-115 | at most five digits, which a path, query or fragment may follow |
| `LinkParser.ScanHost` | src/common/LinkParser.cpp:192-233 | finds the host, or there is none for any set of top-level domains |
| `LinkParser.ExtendOverParentheses` | src/common/LinkParser.cpp:244-276 | the link never shrinks, and if it grows it ends at the last position where the clamped nesting depth returns to zero |
| `LinkParser.Parse` | src/common/LinkParser.cpp:153-276 | finds the parse if there is one, and nothing otherwise |
| `LinkParser.ParseIsUnique` | src/common/LinkParser.cpp:153-276 | a source has at most one parse |
| `LinkParser.ParseDecomposes` | src/common/LinkParser.hpp:22-43 | prefix, link and suffix make up the source; protocol, host and rest make up the link |
| `LinkParser.ParsedHostIsPlausible` | src/common/LinkParser.cpp:192-242 | the host has only domain characters, a dot, no dot at either end and no adjacent dots |
| `LinkResults.ParseExactly` | src/common/LinkParser.cpp:153-276 | a source is a link exactly if, without the punctuation around it, it is a link text, behind "http://" or "https://" in any case or without them |
| `LinkResults.LinkIsParsed` | src/common/LinkParser.cpp:159-180 | such a source has a parse with exactly this protocol and this host |
| `LinkResults.ParsedIsLink` | src/common/LinkParser.cpp:159-242 | the protocol of every parse is "http://" or "https://" in any case, or empty where the link begins with neither |
| `LinkResults.PortExactly` | src/common/LinkParser.cpp:99-115 | what may follow the colon behind a host |
| `LinkResults.Characters` | src/common/LinkParser.cpp:117-147 | the punctuation that is taken off, the characters of a host and those that end it |
| `SignalVectors.SignalVectorModel.Initialize` | src/common/SignalVectorModel.hpp:40-70 | a model that is given a vector has a row for each of its items, in order |
| `SignalVectors.SignalVectorModel.GetModelIndexFromVectorIndex` | src/common/SignalVectorModel.hpp:519-539 | the one row of an item, or the end |
| `SignalVectors.SignalVectorModel.GetVectorIndexFromModelIndex` | src/common/SignalVectorModel.hpp:496-516 | the number of items in front of an item's row; the number of all items for other rows |
| `SignalVectors.TranslationsAreInverse` | src/common/SignalVectorModel.hpp:496-539 | the two translations are inverse on the rows of items |
| `SignalVectors.SignalVectorModel.OnItemInserted` | src/common/SignalVectorModel.hpp:44-72 | the rows of items follow the vector, the other rows stay |
| `SignalVectors.SignalVectorModel.OnItemRemoved` | src/common/SignalVectorModel.hpp:74-95 | the same for a removal |
| `SignalVectors.SignalVectorModel.OnItemsCleared` | src/common/SignalVectorModel.hpp:97-111 | all rows go |
| `SignalVectors.SignalVectorModel.InsertCustomRow` | src/common/SignalVectorModel.hpp:434-442 | a row of the model's own leaves the rows of items alone |
| `SignalVectors.SignalVectorModel.RemoveCustomRow` | src/common/SignalVectorModel.hpp:444-452 | the same for its removal |
| `SignalVectors.SignalVector.InsertItem` | src/common/SignalVector.hpp:66-97 | inserts at the lower bound or at the given index; the read-only copy and the model agree with the items, which stay sorted |
| `SignalVectors.SignalVector.RemoveAt` | src/common/SignalVector.hpp:125-137 | removes one item; the copy, the model and the order are kept |
| `SignalVectors.SignalVector.RemoveFirstMatching` | src/common/SignalVector.hpp:139-158 | removes the first match and nothing else, and says whether there was one |
| `SignalVectors.SignalVector.Clear` | src/common/SignalVector.hpp:103-110 | empties the vector, its copy and its model |
| `SignalVectors.SortedInsert` | src/common/SignalVector.hpp:66-97 | inserting at the lower bound keeps a sorted vector sorted |
| `AnimationFrames.FrameDuration` | src/messages/Image.cpp:306-311 | a frame lasts as long as its delay says, at least 20 ms, and 100 ms for a delay of at most 10 |
| `AnimationFrames.CachedFrames.ProcessOffset` | src/messages/Image.cpp:158-180 | stops with a valid index, an offset within that frame, and the same moment modulo the length |
| `AnimationFrames.CachedFrames.Advance` | src/messages/Image.cpp:154-158 | one tick moves the moment by one tick, modulo the length |
| `AnimationFrames.CachedFrames.AdvanceTimes` | src/messages/Image.cpp:154-180 | after k ticks the frame and the offset are the ones of the start phase plus k ticks of 20 ms |
| `AnimationFrames.FrameIsUnique` | src/messages/Image.cpp:163-180 | a moment belongs to one frame |
| `AnimationFrames.CachedFrames.Start` | src/messages/Image.cpp:126-152 | the frame of the start offset; a valid state exactly if that offset is not negative |
| `AnimationFrames.StartResult` | src/messages/Image.cpp:148-150 | when the start offset is not negative, and what it is for animations up to 2^31 ms |
| `AnimationFrames.LongAnimationStartsBeforeItself` | src/messages/Image.cpp:148-150 | an animation that starts at a negative offset |
| `WindowDescriptors.RoundTrip` | src/common/WindowDescriptors.cpp:102-384 | loading a saved tree of any depth gives the tree but for what is not kept |
| `WindowDescriptors.RoundTripExactly` | src/common/WindowDescriptors.cpp:102-384 | it gives the same tree if and only if every split is normal |
| `WindowDescriptors.SplitNodeRoundTrip` | src/common/WindowDescriptors.cpp:118-334 | the same for one split |
| `WindowDescriptors.IdRoundTrip` | src/common/WindowDescriptors.cpp:150-156 | which Kick ids are kept |
| `WindowDescriptors.KickIdsExactly` | src/common/WindowDescriptors.cpp:150-199 | exactly the ids an `int` holds survive being saved and loaded |
| `WindowDescriptors.TrimmedLowerExactly` | src/common/WindowDescriptors.cpp:127-128 | the automod filter is loaded without the spaces at its ends and in lower case |
| `WindowDescriptors.Defaults` | src/common/WindowDescriptors.cpp:118-176 | what is missing is loaded as its default |
| `WindowDescriptors.UnknownIndicator` | src/common/WindowDescriptors.cpp:165-168 | an unknown indicator is loaded as the default of multi splits |
| `WindowDescriptors.ChannelWinsOverName` | src/common/WindowDescriptors.cpp:124-136 | the older field for the channel wins, and server numbers are read |
| `WindowDescriptors.SignedRoundTrip32` | src/common/WindowDescriptors.cpp:169-210 | every 32-bit index is kept |
| `WindowDescriptors.LoadedSurvives` | src/common/WindowDescriptors.cpp:102-427 | a tree loaded from any document, well-formed or not, is saved and loaded again with the loss of nothing but server numbers |
| `WindowLayouts.Visitor.Visit` | src/common/WindowDescriptors.cpp:605-631 | two per split and one per filtered split of the channel, and whether there is one |
| `WindowLayouts.ScoreCounts` | src/common/WindowDescriptors.cpp:584-621 | the score is two for each split and one for each split of the channel that has filters |
| `WindowLayouts.SplitsInOrder` | src/common/WindowDescriptors.cpp:623-629 | a container shows the splits of all its items, at any depth |
| `WindowLayouts.WindowLayout.ActivateOrAddChannel` | src/common/WindowDescriptors.cpp:554-656 | refused names change nothing; without a main window one is added; otherwise only the tabs of the first main window change |
| `WindowLayouts.ActivatedTabs` | src/common/WindowDescriptors.cpp:590-656 | the first tab with the least score that shows the channel is the only one selected, or a new tab is appended and selected |
| `WindowLayouts.OnlyTwitchChannels` | src/common/WindowDescriptors.cpp:557-563 | other providers and special names change nothing |
| `WindowLayouts.ChannelIsActive` | src/common/WindowDescriptors.cpp:565-656 | otherwise exactly one tab of the first main window is selected afterwards, it shows the channel, and all other windows are as before |
| `WindowLayouts.SelectedIsLeast` | src/common/WindowDescriptors.cpp:587-645 | the selected tab is the first of those that show the channel with two for each split and one for each of its splits that has filters; the tabs stay as they are otherwise |
| `WindowLayouts.TabIsAdded` | src/common/WindowDescriptors.cpp:590-655 | if no tab shows the channel, one with a single new split of it is appended, and it is the selected one |
| `WindowLayouts.WindowIsAdded` | src/common/WindowDescriptors.cpp:565-588 | without a main window, one with this tab is appended and nothing else changes |
| `WindowLayouts.OneTabIsSelected` | src/common/WindowDescriptors.cpp:590-656 | afterwards exactly one tab is selected, and it is the best one of the channel |
| `WindowLayouts.ActivatesTwice` | src/common/WindowDescriptors.cpp:554-656 | activating the channel again changes nothing |
| `UploadProtocol.ImageUploader.Upload` | src/singletons/ImageUploader.cpp:395-415 | a locked uploader only says so; otherwise the first image is sent and the rest is queued |
| `UploadProtocol.ImageUploader.HandleSuccessfulUpload` | src/singletons/ImageUploader.cpp:226-270 | the state after a response, with the text edit alive or gone |
| `UploadProtocol.ImageUploader.HandleFailedUpload` | src/singletons/ImageUploader.cpp:191-224 | the queue is dropped and the lock released |
| `UploadProtocol.ImageUploader.TimerFired` | src/singletons/ImageUploader.cpp:262-266 | the front of the queue, which is never empty then, is sent |
| `UploadProtocol.RunKeepsInv` | src/singletons/ImageUploader.cpp:139-267 | in every run: at most one request or timer is under way, an unlocked uploader has an empty queue and nothing under way, the front of an empty queue is never taken, and each batch is sent from its first image on, in order, to the chat and text edit it came from |
| `UploadProtocol.RunSendsWhole` | src/singletons/ImageUploader.cpp:226-267 | if every response succeeds while the text edit is alive, every finished batch was sent whole |
| `UploadProtocol.RunShows` | src/singletons/ImageUploader.cpp:191-270 | over every run, in order and nothing else: a link is inserted for each successful response while its text edit is there, into the edit of the batch that is sent; a batch is taken whenever nothing is under way; every chat is told what becomes of its upload, with the images left and three seconds for each |
| `UploadProtocol.RunLinksWhole` | src/singletons/ImageUploader.cpp:226-267 | if everything goes well, every finished batch contributes one link for each of its images, all to its own text edit |
| `UploadProtocol.UploadEnds` | src/singletons/ImageUploader.cpp:191-267 | a locked uploader always waits for something, and every response and timer brings its end nearer |

## Left out

- The private Qt branch of text wrapping (`QStackTextEngine`), right-to-left reordering, spaces between emotes, line heights, and the user name's layout font, whose widths are rounded up: only the glyph widths as an arbitrary function of the text are modelled.
- Locks in `LimitedQueue` and `UniqueAccess`: every method is one atomic step, and no message is appended while missing ones are filled in.
- LimitedQueues.LimitedQueue.PushBack: asks for a limit of at least 1, because the code reads the front of a full buffer.
- Channels.Channel.MergeFrom: the order of the result is stated for sources that are sorted by time; messages without a valid time are not modelled.
- Channels.Channel.AddMessage: logging to disk is not modelled, and signals other than removals are recorded in a list of their own, so that their order among the removals is not.
- MessageBuilders.MessageBuilder.AddPlainWord: links, mentions and channel names become other elements in the code; only plain words are modelled, emoji inside a word are separate inputs, and cheermotes are modelled by themselves.
- MessageBuilders.MessageBuilder.TryAppendEmote: the lookup of emotes is a function that finds emotes by their name; Twitch's own emotes are no modifiers.
- Elements and layered emotes are values here; that they are owned by unique pointers and cloned is not modelled, and neither are the colours of emote elements.
- PersonalEmotes.UpsertPersonalEmotes: finding the message and replacing it in the channel are left to `Channels.Channel.ReplaceMessageHinted` and its kin.
- WordTokenizer.TokenizeWords: for special items that overlap, are out of bounds, empty or start at a space it is only stated that the loop ends and reads nothing outside the text.
- Cheermotes.CheerText.TryAppendCheermote: expects a bits tag that is not negative; with a negative one the reduction of the code makes the amount larger until the `int` overflows. Prefixes are plain text, words hold no line break, what ignoring case means is a parameter, and the sorting of the tiers is `std::sort` by its documented meaning.
- MessageSimilarity.RelativeSimilarity: real numbers, no rounding. The settings that turn the comparison on and the flags it sets are not modelled.
- LinkParser.Parse: the set of top-level domains and what counts as a digit of a port are parameters; the former rejects the empty string.
- SignalVectors.SignalVectorModel.OnItemInserted: the row notifications of Qt, `setData`, `moveRows`, changes made by the model itself and the hooks of subclasses are not modelled.
- AnimationFrames.CachedFrames.Advance: the offset is an unbounded integer, so that a tick near the largest `int` overflows is not modelled.
- WindowDescriptors.RoundTrip: JSON documents are values, not text; the names of fields are an enumeration, filter ids are held as their text, what trimming and lower case mean is a parameter, and flex values are real numbers.
- Loading the list of windows from a file, its backups, and the demotion of a second main window or selected tab.
- WindowLayouts.ActivatedTabs: scores are unbounded.
- UploadProtocol.ImageUploader.HandleSuccessfulUpload: the link in the response is a parameter, and the log file is not modelled.
- UploadProtocol.ImageUploader.HandleFailedUpload: the text of the error message is not modelled.
- Badges, highlights, user names, third-party badges and duplicate suffixes in `MessageBuilder`; start-up, files, processes, rendering and the network.
