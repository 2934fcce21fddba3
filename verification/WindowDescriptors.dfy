// Window layouts: saving and loading the splits of a tab, and choosing the tab
// of a channel (src/common/WindowDescriptors.cpp).

module JsonValues {
  // The names of the fields that are written or read.
  datatype Key =
    | KType | KData | KModerationMode | KName | KChannel | KServer | KAnonymous
    | KRoomId | KUserId | KChannelId | KChildren | KIndicatorMode | KActiveIndex
    | KTintByPlatform | KShowTwitchOverlays | KCombinedViewerCount | KAutoModChannel
    | KFilters | KCheckSpelling | KHidePinnedMessage | KHidePrediction | KHidePoll
    | KFlexH | KFlexV | KItems | KPlatform

  datatype Json =
    | Undefined
    | Null
    | Bool(b: bool)
    | Int(i: int)
    | Double(d: real)
    | Text(s: string)
    | Arr(items: seq<Json>)
    | Obj(fields: map<Key, Json>)
  {
    // Anything but an object has no fields.
    function At(k: Key): (r: Json)
      ensures r == Undefined || r < this
    {
      if Obj? && k in fields then fields[k] else Undefined
    }

    function ToBool(): bool {
      if Bool? then b else false
    }

    // Only what an int holds.
    function ToInt(default_: int): int {
      if Int? && -0x8000_0000 <= i < 0x8000_0000 then i else default_
    }

    function ToDouble(default_: real): real {
      if Double? then d else if Int? then i as real else default_
    }

    function ToText(): string {
      if Text? then s else ""
    }

    function ToArray(): (r: seq<Json>)
      ensures forall v :: v in r ==> v < this
    {
      if Arr? then items else []
    }
  }

  // Inserts a field, if there is something to say.
  function Put(fields: map<Key, Json>, k: Key, wanted: bool, v: Json): map<Key, Json> {
    if wanted then fields[k := v] else fields
  }
}

module WindowDescriptors {
  import opened JsonValues
  import opened Options

  type uint32 = x: int | 0 <= x < 0x1_0000_0000
  type uint64 = x: int | 0 <= x < 0x1_0000_0000_0000_0000

  // static_cast between the signed and unsigned integers of a width.
  function Signed32(x: uint32): int {
    if x < 0x8000_0000 then x else x - 0x1_0000_0000
  }

  function Signed64(x: uint64): int {
    if x < 0x8000_0000_0000_0000 then x else x - 0x1_0000_0000_0000_0000
  }

  function Unsigned32(x: int): uint32
    requires -0x8000_0000 <= x < 0x8000_0000
  {
    if x >= 0 then x else x + 0x1_0000_0000
  }

  function Unsigned64(x: int): uint64
    requires -0x8000_0000 <= x < 0x8000_0000
  {
    if x >= 0 then x else x + 0x1_0000_0000_0000_0000
  }

  datatype Indicator = NoIndicator | PlatformBadgeIfUnselected | PlatformBadgeAlways | ChannelName

  function IndicatorName(m: Indicator): string {
    match m
    case NoIndicator => "None"
    case PlatformBadgeIfUnselected => "PlatformBadgeIfUnselected"
    case PlatformBadgeAlways => "PlatformBadgeAlways"
    case ChannelName => "ChannelName"
  }

  function IndicatorOf(name: string): Indicator {
    if name == "None" then NoIndicator
    else if name == "PlatformBadgeAlways" then PlatformBadgeAlways
    else if name == "ChannelName" then ChannelName
    else PlatformBadgeIfUnselected
  }

  // What trimming and lower case mean.
  datatype Alphabet = Alphabet(space: char -> bool, lower: char -> char) {
    ghost predicate Sound() {
      forall c :: lower(lower(c)) == lower(c) && space(lower(c)) == space(c)
    }
  }

  function TrimFront(a: Alphabet, s: string): string {
    if s != "" && a.space(s[0]) then TrimFront(a, s[1..]) else s
  }

  function TrimBack(a: Alphabet, s: string): string {
    if s != "" && a.space(s[|s| - 1]) then TrimBack(a, s[..|s| - 1]) else s
  }

  function Lower(a: Alphabet, s: string): (r: string)
    ensures |r| == |s|
  {
    seq(|s|, i requires 0 <= i < |s| => a.lower(s[i]))
  }

  function TrimmedLower(a: Alphabet, s: string): string {
    Lower(a, TrimBack(a, TrimFront(a, s)))
  }

  datatype Child = Child(platform: string, channelName: string)

  // The fields that only mean something for one kind of split.
  datatype KickIds = KickIds(channel: uint64, user: uint64, room: uint64)
  datatype MultiView = MultiView(children: seq<Child>, indicator: Indicator, index: uint32,
                                 tintByPlatform: bool, showTwitchOverlays: bool, combinedViewerCount: bool)

  const NO_IDS := KickIds(0, 0, 0)
  const NO_VIEW := MultiView([], NoIndicator, 0, false, false, false)

  datatype Hidden = Hidden(pinnedMessage: bool, prediction: bool, poll: bool)

  // Filters are held as the text of their ids.
  datatype SplitDescriptor = SplitDescriptor(
    kind: string, channelName: string, anonymous: bool, server: int, moderationMode: bool,
    autoModChannel: string, spellCheck: Option<bool>, hidden: Hidden, filters: seq<string>,
    kick: KickIds, multi: MultiView)

  datatype Node =
    | Split(split: SplitDescriptor, flexH: real, flexV: real)
    | Container(flexH: real, flexV: real, vertical: bool, items: seq<Node>)

  function EncodeChild(c: Child): Json {
    Obj(map[KPlatform := Text(c.platform), KChannel := Text(c.channelName)])
  }

  function DecodeChild(j: Json): Child {
    Child(j.At(KPlatform).ToText(), j.At(KChannel).ToText())
  }

  function EncodeKick(ids: KickIds, data: map<Key, Json>): map<Key, Json> {
    data[KRoomId := Int(Signed64(ids.room))][KUserId := Int(Signed64(ids.user))]
        [KChannelId := Int(Signed64(ids.channel))]
  }

  function EncodeChildren(children: seq<Child>): Json {
    Arr(seq(|children|, i requires 0 <= i < |children| => EncodeChild(children[i])))
  }

  function EncodeMulti(m: MultiView, data: map<Key, Json>): map<Key, Json> {
    data[KChildren := EncodeChildren(m.children)][KIndicatorMode := Text(IndicatorName(m.indicator))]
        [KActiveIndex := Int(Signed32(m.index))][KTintByPlatform := Bool(m.tintByPlatform)]
        [KShowTwitchOverlays := Bool(m.showTwitchOverlays)][KCombinedViewerCount := Bool(m.combinedViewerCount)]
  }

  function EncodeKind(d: SplitDescriptor, data: map<Key, Json>): map<Key, Json> {
    if d.kind == "kick" then EncodeKick(d.kick, data)
    else if d.kind == "multi" then EncodeMulti(d.multi, data)
    else data
  }

  function EncodeName(d: SplitDescriptor): map<Key, Json> {
    Put(Put(map[KType := Text(d.kind)], KName, d.channelName != "", Text(d.channelName)),
        KAnonymous, d.anonymous, Bool(true))
  }

  function EncodeData(d: SplitDescriptor): map<Key, Json> {
    Put(EncodeKind(d, EncodeName(d)), KAutoModChannel, d.autoModChannel != "", Text(d.autoModChannel))
  }

  function EncodeHidden(h: Hidden, fields: map<Key, Json>): map<Key, Json> {
    Put(Put(Put(fields, KHidePinnedMessage, h.pinnedMessage, Bool(true)),
            KHidePrediction, h.prediction, Bool(true)),
        KHidePoll, h.poll, Bool(true))
  }

  function EncodeFilters(filters: seq<string>): Json {
    Arr(seq(|filters|, i requires 0 <= i < |filters| => Text(filters[i])))
  }

  function EncodeHead(d: SplitDescriptor): map<Key, Json> {
    Put(map[KType := Text("split"), KModerationMode := Bool(d.moderationMode),
            KData := Obj(EncodeData(d)), KFilters := EncodeFilters(d.filters)],
        KCheckSpelling, d.spellCheck.Some?, Bool(d.spellCheck == Some(true)))
  }

  function EncodeSplit(d: SplitDescriptor): map<Key, Json> {
    EncodeHidden(d.hidden, EncodeHead(d))
  }

  function DecodeKick(kind: string, data: Json): KickIds {
    if kind == "kick" then
      KickIds(Unsigned64(data.At(KChannelId).ToInt(0)), Unsigned64(data.At(KUserId).ToInt(0)),
              Unsigned64(data.At(KRoomId).ToInt(0)))
    else NO_IDS
  }

  function DecodeChildren(j: Json): seq<Child> {
    var children := j.ToArray();
    seq(|children|, i requires 0 <= i < |children| => DecodeChild(children[i]))
  }

  function DecodeMulti(kind: string, data: Json): MultiView {
    if kind == "multi" then
      MultiView(DecodeChildren(data.At(KChildren)),
                IndicatorOf(data.At(KIndicatorMode).ToText()), Unsigned32(data.At(KActiveIndex).ToInt(0)),
                data.At(KTintByPlatform).ToBool(), data.At(KShowTwitchOverlays).ToBool(),
                data.At(KCombinedViewerCount).ToBool())
    else NO_VIEW
  }

  function DecodeFilters(j: Json): seq<string> {
    var filters := j.ToArray();
    seq(|filters|, i requires 0 <= i < |filters| => filters[i].ToText())
  }

  function DecodeHidden(root: Json): Hidden {
    Hidden(root.At(KHidePinnedMessage).ToBool(), root.At(KHidePrediction).ToBool(), root.At(KHidePoll).ToBool())
  }

  function DecodeSplit(a: Alphabet, root: Json): SplitDescriptor {
    var data := root.At(KData);
    var kind := data.At(KType).ToText();
    var spelling := root.At(KCheckSpelling);
    SplitDescriptor(
      kind := kind,
      channelName := (if data.At(KChannel) != Undefined then data.At(KChannel) else data.At(KName)).ToText(),
      anonymous := data.At(KAnonymous).ToBool(),
      server := data.At(KServer).ToInt(-1),
      moderationMode := root.At(KModerationMode).ToBool(),
      autoModChannel := TrimmedLower(a, data.At(KAutoModChannel).ToText()),
      spellCheck := if spelling.Bool? then Some(spelling.b) else None,
      hidden := DecodeHidden(root),
      filters := DecodeFilters(root.At(KFilters)),
      kick := DecodeKick(kind, data),
      multi := DecodeMulti(kind, data))
  }

  function Encode(n: Node): Json {
    match n
    case Split(d, h, v) => Obj(EncodeSplit(d)[KFlexH := Double(h)][KFlexV := Double(v)])
    case Container(h, v, vertical, items) =>
      Obj(map[KType := Text(if vertical then "vertical" else "horizontal"),
              KFlexH := Double(h), KFlexV := Double(v),
              KItems := Arr(seq(|items|, i requires 0 <= i < |items| => Encode(items[i])))])
  }

  function DecodeSplitNode(a: Alphabet, root: Json): Node {
    Split(DecodeSplit(a, root), root.At(KFlexH).ToDouble(1.0), root.At(KFlexV).ToDouble(1.0))
  }

  function DecodeContainer(a: Alphabet, root: Json): Node
    decreases root, 0
  {
    var items := root.At(KItems).ToArray();
    Container(root.At(KFlexH).ToDouble(1.0), root.At(KFlexV).ToDouble(1.0),
              root.At(KType).ToText() == "vertical",
              seq(|items|, i requires 0 <= i < |items| => DecodeNode(a, items[i])))
  }

  function DecodeNode(a: Alphabet, j: Json): Node
    decreases j, 1
  {
    if j.At(KType).ToText() == "split" then DecodeSplitNode(a, j) else DecodeContainer(a, j)
  }

  // The tree of a tab.
  function DecodeRoot(a: Alphabet, j: Json): Option<Node> {
    var kind := j.At(KType).ToText();
    if kind == "split" then Some(DecodeSplitNode(a, j))
    else if kind == "horizontal" || kind == "vertical" then Some(DecodeContainer(a, j))
    else None
  }

  // What survives saving and loading an id: toInt gives 0 for the others.
  function KeptId(id: uint64): uint64 {
    if id < 0x8000_0000 || id >= 0x1_0000_0000_0000_0000 - 0x8000_0000 then id else 0
  }

  function KeptIds(ids: KickIds): KickIds {
    KickIds(KeptId(ids.channel), KeptId(ids.user), KeptId(ids.room))
  }

  // What survives saving and loading a split.
  function Normal(a: Alphabet, d: SplitDescriptor): SplitDescriptor {
    d.(server := -1,
       autoModChannel := TrimmedLower(a, d.autoModChannel),
       kick := if d.kind == "kick" then KeptIds(d.kick) else NO_IDS,
       multi := if d.kind == "multi" then d.multi else NO_VIEW)
  }

  function NormalNode(a: Alphabet, n: Node): Node {
    match n
    case Split(d, h, v) => Split(Normal(a, d), h, v)
    case Container(h, v, vertical, items) =>
      Container(h, v, vertical, seq(|items|, i requires 0 <= i < |items| => NormalNode(a, items[i])))
  }

  // Nothing is lost exactly of these.
  predicate IsNormal(a: Alphabet, d: SplitDescriptor) {
    && d.server == -1
    && d.autoModChannel == TrimmedLower(a, d.autoModChannel)
    && d.kick == (if d.kind == "kick" then KeptIds(d.kick) else NO_IDS)
    && (d.kind != "multi" ==> d.multi == NO_VIEW)
  }

  predicate IsNormalNode(a: Alphabet, n: Node) {
    match n
    case Split(d, _, _) => IsNormal(a, d)
    case Container(_, _, _, items) => forall i :: 0 <= i < |items| ==> IsNormalNode(a, items[i])
  }

  lemma SignedRoundTrip32(x: uint32)
    ensures Unsigned32(Signed32(x)) == x
  {
  }

  lemma IdRoundTrip(x: uint64)
    ensures Unsigned64(Int(Signed64(x)).ToInt(0)) == KeptId(x)
  {
  }

  lemma IndicatorRoundTrip(m: Indicator)
    ensures IndicatorOf(IndicatorName(m)) == m
  {
  }

  lemma ChildrenRoundTrip(children: seq<Child>)
    ensures DecodeChildren(EncodeChildren(children)) == children
  {
  }

  lemma KickRoundTrip(ids: KickIds, data: map<Key, Json>, j: Json)
    requires forall k :: k != KAutoModChannel ==> j.At(k) == Obj(EncodeKick(ids, data)).At(k)
    ensures DecodeKick("kick", j) == KeptIds(ids)
  {
    IdRoundTrip(ids.channel);
    IdRoundTrip(ids.user);
    IdRoundTrip(ids.room);
  }

  lemma MultiFields(m: MultiView, data: map<Key, Json>)
    ensures var j := Obj(EncodeMulti(m, data));
      && j.At(KChildren) == EncodeChildren(m.children)
      && j.At(KIndicatorMode) == Text(IndicatorName(m.indicator))
      && j.At(KActiveIndex) == Int(Signed32(m.index))
      && j.At(KTintByPlatform) == Bool(m.tintByPlatform)
      && j.At(KShowTwitchOverlays) == Bool(m.showTwitchOverlays)
      && j.At(KCombinedViewerCount) == Bool(m.combinedViewerCount)
  {
  }

  lemma MultiRoundTrip(m: MultiView, data: map<Key, Json>, j: Json)
    requires forall k :: k != KAutoModChannel ==> j.At(k) == Obj(EncodeMulti(m, data)).At(k)
    ensures DecodeMulti("multi", j) == m
  {
    MultiFields(m, data);
    IndicatorRoundTrip(m.indicator);
    SignedRoundTrip32(m.index);
    ChildrenRoundTrip(m.children);
  }

  lemma KindKeeps(d: SplitDescriptor, data: map<Key, Json>, k: Key)
    requires k in {KType, KName, KAnonymous, KServer, KChannel, KAutoModChannel}
    ensures Obj(EncodeKind(d, data)).At(k) == Obj(data).At(k)
  {
  }

  lemma PutKeeps(fields: map<Key, Json>, k: Key, wanted: bool, v: Json, other: Key)
    requires other != k
    ensures Obj(Put(fields, k, wanted, v)).At(other) == Obj(fields).At(other)
  {
  }

  lemma DataKeeps(d: SplitDescriptor, k: Key)
    requires k != KAutoModChannel
    ensures Obj(EncodeData(d)).At(k) == Obj(EncodeKind(d, EncodeName(d))).At(k)
  {
    PutKeeps(EncodeKind(d, EncodeName(d)), KAutoModChannel, d.autoModChannel != "", Text(d.autoModChannel), k);
  }

  lemma KindRoundTrip(d: SplitDescriptor)
    ensures var j := Obj(EncodeData(d));
      && DecodeKick(d.kind, j) == (if d.kind == "kick" then KeptIds(d.kick) else NO_IDS)
      && DecodeMulti(d.kind, j) == (if d.kind == "multi" then d.multi else NO_VIEW)
  {
    forall k | k != KAutoModChannel
      ensures Obj(EncodeData(d)).At(k) == Obj(EncodeKind(d, EncodeName(d))).At(k)
    {
      DataKeeps(d, k);
    }
    if d.kind == "kick" {
      KickRoundTrip(d.kick, EncodeName(d), Obj(EncodeData(d)));
    } else if d.kind == "multi" {
      MultiRoundTrip(d.multi, EncodeName(d), Obj(EncodeData(d)));
    }
  }

  lemma NameRoundTrip(d: SplitDescriptor)
    ensures var j := Obj(EncodeName(d));
      && j.At(KType) == Text(d.kind)
      && j.At(KName).ToText() == d.channelName
      && j.At(KAnonymous).ToBool() == d.anonymous
      && j.At(KServer) == j.At(KChannel) == j.At(KAutoModChannel) == Undefined
  {
  }

  lemma DataRoundTrip(d: SplitDescriptor)
    ensures var j := Obj(EncodeData(d));
      && j.At(KType) == Text(d.kind)
      && j.At(KName).ToText() == d.channelName
      && j.At(KAnonymous).ToBool() == d.anonymous
      && j.At(KServer) == j.At(KChannel) == Undefined
      && j.At(KAutoModChannel).ToText() == d.autoModChannel
  {
    var data := EncodeName(d);
    NameRoundTrip(d);
    KindKeeps(d, data, KType);
    KindKeeps(d, data, KName);
    KindKeeps(d, data, KAnonymous);
    KindKeeps(d, data, KServer);
    KindKeeps(d, data, KChannel);
    KindKeeps(d, data, KAutoModChannel);
    DataKeeps(d, KType);
    DataKeeps(d, KName);
    DataKeeps(d, KAnonymous);
    DataKeeps(d, KServer);
    DataKeeps(d, KChannel);
  }

  lemma HiddenRoundTrip(h: Hidden, fields: map<Key, Json>)
    requires KHidePinnedMessage !in fields && KHidePrediction !in fields && KHidePoll !in fields
    ensures DecodeHidden(Obj(EncodeHidden(h, fields))) == h
  {
  }

  lemma HiddenKeeps(h: Hidden, fields: map<Key, Json>, k: Key)
    requires k !in {KHidePinnedMessage, KHidePrediction, KHidePoll}
    ensures Obj(EncodeHidden(h, fields)).At(k) == Obj(fields).At(k)
  {
  }

  lemma FiltersRoundTrip(filters: seq<string>)
    ensures DecodeFilters(EncodeFilters(filters)) == filters
  {
  }

  lemma HeadRoundTrip(d: SplitDescriptor)
    ensures var j := Obj(EncodeHead(d));
      && j.At(KType) == Text("split")
      && j.At(KModerationMode) == Bool(d.moderationMode)
      && j.At(KData) == Obj(EncodeData(d))
      && j.At(KFilters) == EncodeFilters(d.filters)
      && j.At(KCheckSpelling) == (if d.spellCheck.Some? then Bool(d.spellCheck.value) else Undefined)
      && EncodeHead(d).Keys <= {KType, KModerationMode, KData, KFilters, KCheckSpelling}
  {
  }

  // The fields of a split in the object of its node.
  ghost predicate Holds(d: SplitDescriptor, j: Json) {
    && j.At(KType) == Text("split")
    && j.At(KModerationMode) == Bool(d.moderationMode)
    && j.At(KData) == Obj(EncodeData(d))
    && j.At(KFilters) == EncodeFilters(d.filters)
    && j.At(KCheckSpelling) == (if d.spellCheck.Some? then Bool(d.spellCheck.value) else Undefined)
    && DecodeHidden(j) == d.hidden
  }

  lemma SplitHolds(d: SplitDescriptor)
    ensures Holds(d, Obj(EncodeSplit(d)))
  {
    var head := EncodeHead(d);
    HeadRoundTrip(d);
    HiddenRoundTrip(d.hidden, head);
    HiddenKeeps(d.hidden, head, KType);
    HiddenKeeps(d.hidden, head, KModerationMode);
    HiddenKeeps(d.hidden, head, KData);
    HiddenKeeps(d.hidden, head, KFilters);
    HiddenKeeps(d.hidden, head, KCheckSpelling);
  }

  lemma FlexKeeps(d: SplitDescriptor, fields: map<Key, Json>, h: real, v: real)
    requires Holds(d, Obj(fields))
    ensures var j := Obj(fields[KFlexH := Double(h)][KFlexV := Double(v)]);
            Holds(d, j) && j.At(KFlexH) == Double(h) && j.At(KFlexV) == Double(v)
  {
  }

  lemma SplitRoundTrip(a: Alphabet, d: SplitDescriptor, j: Json)
    requires Holds(d, j)
    ensures DecodeSplit(a, j) == Normal(a, d)
  {
    DataRoundTrip(d);
    KindRoundTrip(d);
    FiltersRoundTrip(d.filters);
  }

  lemma SplitNodeRoundTrip(a: Alphabet, d: SplitDescriptor, h: real, v: real)
    ensures var j := Encode(Split(d, h, v));
            j.At(KType) == Text("split") && DecodeSplitNode(a, j) == Split(Normal(a, d), h, v)
  {
    var j := Encode(Split(d, h, v));
    SplitHolds(d);
    FlexKeeps(d, EncodeSplit(d), h, v);
    SplitRoundTrip(a, d, j);
    assert DecodeSplitNode(a, j).split == Normal(a, d);
  }

  lemma ContainerFields(h: real, v: real, vertical: bool, items: seq<Node>)
    ensures var j := Encode(Container(h, v, vertical, items));
      && j.At(KType) == Text(if vertical then "vertical" else "horizontal")
      && j.At(KFlexH) == Double(h) && j.At(KFlexV) == Double(v)
      && j.At(KItems) == Arr(seq(|items|, i requires 0 <= i < |items| => Encode(items[i])))
  {
  }

  // Loading what was saved gives the tree back, but for what is not kept.
  lemma {:induction false} RoundTrip(a: Alphabet, n: Node)
    ensures DecodeNode(a, Encode(n)) == NormalNode(a, n)
    ensures DecodeRoot(a, Encode(n)) == Some(NormalNode(a, n))
  {
    match n
    case Split(d, h, v) =>
      SplitNodeRoundTrip(a, d, h, v);
    case Container(h, v, vertical, items) =>
      ContainerFields(h, v, vertical, items);
      forall i | 0 <= i < |items| ensures DecodeNode(a, Encode(items[i])) == NormalNode(a, items[i]) {
        RoundTrip(a, items[i]);
      }
      ContainerRoundTrip(a, h, v, vertical, items);
  }

  lemma ContainerRoundTrip(a: Alphabet, h: real, v: real, vertical: bool, items: seq<Node>)
    requires forall i :: 0 <= i < |items| ==> DecodeNode(a, Encode(items[i])) == NormalNode(a, items[i])
    ensures DecodeContainer(a, Encode(Container(h, v, vertical, items))) ==
            NormalNode(a, Container(h, v, vertical, items))
  {
    var n := Container(h, v, vertical, items);
    ContainerFields(h, v, vertical, items);
    var loaded := DecodeContainer(a, Encode(n));
    assert |loaded.items| == |items|;
    assert loaded.items == NormalNode(a, n).items;
  }

  lemma NormalFixed(a: Alphabet, d: SplitDescriptor)
    ensures Normal(a, d) == d <==> IsNormal(a, d)
  {
  }

  lemma {:induction false} NormalNodeFixed(a: Alphabet, n: Node)
    ensures NormalNode(a, n) == n <==> IsNormalNode(a, n)
  {
    match n
    case Split(d, h, v) =>
      NormalFixed(a, d);
    case Container(h, v, vertical, items) =>
      forall i | 0 <= i < |items| ensures NormalNode(a, items[i]) == items[i] <==> IsNormalNode(a, items[i]) {
        NormalNodeFixed(a, items[i]);
      }
      var out := NormalNode(a, n).items;
      assert out == items <==> forall i :: 0 <= i < |items| ==> out[i] == items[i];
  }

  // A layout survives saving and loading exactly when it is normal.
  lemma RoundTripExactly(a: Alphabet, n: Node)
    ensures DecodeRoot(a, Encode(n)) == Some(n) <==> IsNormalNode(a, n)
  {
    RoundTrip(a, n);
    NormalNodeFixed(a, n);
  }

  lemma {:induction false} TrimFrontStarts(a: Alphabet, s: string)
    ensures var r := TrimFront(a, s); r != "" ==> !a.space(r[0])
  {
    if s != "" && a.space(s[0]) {
      TrimFrontStarts(a, s[1..]);
    }
  }

  lemma {:induction false} TrimBackEnds(a: Alphabet, s: string)
    ensures var r := TrimBack(a, s); r <= s && (r != "" ==> !a.space(r[|r| - 1]))
  {
    if s != "" && a.space(s[|s| - 1]) {
      TrimBackEnds(a, s[..|s| - 1]);
    }
  }

  lemma TrimmedLowerTwice(a: Alphabet, s: string)
    requires a.Sound()
    ensures TrimmedLower(a, TrimmedLower(a, s)) == TrimmedLower(a, s)
  {
    var front := TrimFront(a, s);
    TrimFrontStarts(a, s);
    TrimBackEnds(a, front);
    var r := TrimmedLower(a, s);
    assert r != "" ==> !a.space(r[0]) && !a.space(r[|r| - 1]);
    assert TrimFront(a, r) == r && TrimBack(a, r) == r;
    assert Lower(a, r) == r;
  }

  // A layout without the server numbers of old IRC splits, which are read but
  // never written.
  function WithoutServers(n: Node): Node {
    match n
    case Split(d, h, v) => Split(d.(server := -1), h, v)
    case Container(h, v, vertical, items) =>
      Container(h, v, vertical, seq(|items|, i requires 0 <= i < |items| => WithoutServers(items[i])))
  }

  lemma LoadedSplit(a: Alphabet, j: Json)
    requires a.Sound()
    ensures var d := DecodeSplit(a, j); Normal(a, d) == d.(server := -1)
  {
    TrimmedLowerTwice(a, j.At(KData).At(KAutoModChannel).ToText());
  }

  lemma {:induction false} LoadedIsNormal(a: Alphabet, j: Json)
    requires a.Sound()
    ensures NormalNode(a, DecodeNode(a, j)) == WithoutServers(DecodeNode(a, j))
    ensures NormalNode(a, DecodeContainer(a, j)) == WithoutServers(DecodeContainer(a, j))
    decreases j
  {
    LoadedSplit(a, j);
    var items := j.At(KItems).ToArray();
    forall i | 0 <= i < |items|
      ensures NormalNode(a, DecodeNode(a, items[i])) == WithoutServers(DecodeNode(a, items[i]))
    {
      assert items[i] in items;
      LoadedIsNormal(a, items[i]);
    }
    var n := DecodeContainer(a, j);
    assert NormalNode(a, n).items == WithoutServers(n).items;
  }

  // Whatever was loaded, from any file, is saved and loaded again with the loss
  // of nothing but those numbers.
  lemma LoadedSurvives(a: Alphabet, j: Json)
    requires a.Sound() && DecodeRoot(a, j).Some?
    ensures var n := DecodeRoot(a, j).value; DecodeRoot(a, Encode(n)) == Some(WithoutServers(n))
  {
    LoadedIsNormal(a, j);
    RoundTrip(a, DecodeRoot(a, j).value);
  }

  // ----- what is loaded from a file -----

  predicate FitsInt(id: uint64) {
    id < 0x8000_0000 || id >= 0xFFFF_FFFF_8000_0000
  }

  // Of the ids of a Kick split, exactly those survive being saved and loaded
  // that an int holds, as a number or as the two's complement of one.
  lemma KickIdsExactly(a: Alphabet, d: SplitDescriptor, h: real, v: real)
    requires d.kind == "kick"
    ensures DecodeRoot(a, Encode(Split(d, h, v))).Some?
    ensures var n := DecodeRoot(a, Encode(Split(d, h, v))).value;
      && n.Split?
      && (n.split.kick.channel == d.kick.channel <==> FitsInt(d.kick.channel))
      && (n.split.kick.user == d.kick.user <==> FitsInt(d.kick.user))
      && (n.split.kick.room == d.kick.room <==> FitsInt(d.kick.room))
  {
    RoundTrip(a, Split(d, h, v));
  }

  // r is s without the spaces at its ends, in lower case.
  lemma TrimmedLowerExactly(a: Alphabet, s: string) returns (i: nat, j: nat)
    ensures i <= j <= |s|
    ensures forall k :: 0 <= k < i ==> a.space(s[k])
    ensures forall k :: j <= k < |s| ==> a.space(s[k])
    ensures i < j ==> !a.space(s[i]) && !a.space(s[j - 1])
    ensures |TrimmedLower(a, s)| == j - i
    ensures forall k :: 0 <= k < j - i ==> TrimmedLower(a, s)[k] == a.lower(s[i + k])
  {
    i := FrontIsTrimmed(a, s);
    var n := BackIsTrimmed(a, s[i..]);
    j := i + n;
    var r := s[i..][..n];
    assert TrimBack(a, TrimFront(a, s)) == r;
    TrimFrontStarts(a, s);
    assert forall k :: 0 <= k < |s| - i ==> s[i..][k] == s[i + k];
    forall k | j <= k < |s| ensures a.space(s[k]) {
      assert s[i..][k - i] == s[k];
    }
    if i < j {
      assert TrimFront(a, s)[0] == s[i];
      assert s[i..][n - 1] == s[j - 1];
    }
  }

  lemma {:induction false} FrontIsTrimmed(a: Alphabet, s: string) returns (i: nat)
    ensures i <= |s| && TrimFront(a, s) == s[i..]
    ensures forall k :: 0 <= k < i ==> a.space(s[k])
  {
    i := 0;
    if s != "" && a.space(s[0]) {
      i := FrontIsTrimmed(a, s[1..]);
      assert s[1..][i..] == s[i + 1..];
      assert forall k :: 0 <= k < |s| - 1 ==> s[1..][k] == s[k + 1];
      forall k | 1 <= k < i + 1 ensures a.space(s[k]) {
        assert s[1..][k - 1] == s[k];
      }
      i := i + 1;
    }
  }

  lemma {:induction false} BackIsTrimmed(a: Alphabet, s: string) returns (n: nat)
    ensures n <= |s| && TrimBack(a, s) == s[..n]
    ensures forall k :: n <= k < |s| ==> a.space(s[k])
    ensures n > 0 ==> !a.space(s[n - 1])
  {
    n := |s|;
    if s != "" && a.space(s[|s| - 1]) {
      var init := s[..|s| - 1];
      n := BackIsTrimmed(a, init);
      assert init[..n] == s[..n];
      forall k | n <= k < |s| ensures a.space(s[k]) {
        assert k < |s| - 1 ==> init[k] == s[k];
      }
    }
  }

  // What is missing in a file is loaded as its default.
  lemma Defaults(a: Alphabet)
    ensures DecodeSplitNode(a, Obj(map[])) == Split(
      SplitDescriptor("", "", false, -1, false, "", None, Hidden(false, false, false), [],
                      KickIds(0, 0, 0), MultiView([], NoIndicator, 0, false, false, false)),
      1.0, 1.0)
    ensures DecodeNode(a, Obj(map[])) == Container(1.0, 1.0, false, [])
    ensures DecodeRoot(a, Obj(map[])) == None
  {
  }

  // A name for the indicator that is not known is the default of multi splits.
  lemma UnknownIndicator(name: string)
    requires name !in {"None", "PlatformBadgeIfUnselected", "PlatformBadgeAlways", "ChannelName"}
    ensures IndicatorOf(name) == PlatformBadgeIfUnselected
  {
  }

  // The older field for the channel wins over the name.
  lemma ChannelWinsOverName(a: Alphabet, root: Json, channel: string, name: string)
    requires root.At(KData).At(KChannel) == Text(channel)
    ensures DecodeSplit(a, root).channelName == channel
    ensures root.At(KData).At(KServer) == Int(7) ==> DecodeSplit(a, root).server == 7
  {
  }
}
