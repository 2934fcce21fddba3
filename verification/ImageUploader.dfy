// The protocol of the image uploader: one request or timer at a time
// (src/singletons/ImageUploader.cpp).

module UploadProtocol {
  import opened Options
  import opened Sequences

  // The ids of the objects the protocol hands around.
  datatype Image = Image(id: int)
  datatype Chat = Chat(id: int)
  datatype Edit = Edit(id: int)

  datatype Batch = Batch(images: seq<Image>, chat: Chat, edit: Edit)

  // What is under way: a request whose response is outstanding, or a timer.
  datatype Pending =
    | Request(image: Image, chat: Chat, edit: Edit)
    | Timer(chat: Chat, edit: Edit)

  datatype Note =
    | PleaseWait(chat: Chat)
    | Started(chat: Chat)
    | Uploaded(chat: Chat, link: string, left: nat, seconds: nat)
    | UploadFailed(chat: Chat)

  const UPLOAD_DELAY: nat := 2000

  // batches and sent record the accepted batches, and what was sent of each.
  datatype State = State(
    locked: bool, queue: seq<Image>, pending: seq<Pending>,
    batches: seq<Batch>, sent: seq<seq<Image>>,
    notes: seq<Note>, links: seq<(Edit, string)>)

  const IDLE := State(false, [], [], [], [], [], [])

  // What can happen. A response or a timer is named by its place in `pending`.
  datatype Event =
    | Upload(batch: Batch)
    | Succeeded(at: nat, link: string, alive: bool)
    | Failed(at: nat)
    | Fired(at: nat)

  predicate Enabled(s: State, e: Event) {
    match e
    case Upload(batch) => batch.images != []
    case Succeeded(at, _, _) => at < |s.pending| && s.pending[at].Request?
    case Failed(at) => at < |s.pending| && s.pending[at].Request?
    case Fired(at) => at < |s.pending| && s.pending[at].Timer?
  }

  function Without(pending: seq<Pending>, at: nat): seq<Pending>
    requires at < |pending|
  {
    pending[..at] + pending[at + 1..]
  }

  function Noted(s: State, n: Note): State {
    s.(notes := s.notes + [n])
  }

  // Sends the front of the queue for the last batch.
  function SendFront(s: State, chat: Chat, edit: Edit): State
    requires s.queue != [] && s.sent != []
  {
    var last := |s.sent| - 1;
    s.(queue := s.queue[1..],
       pending := s.pending + [Request(s.queue[0], chat, edit)],
       sent := s.sent[last := s.sent[last] + [s.queue[0]]])
  }

  function OnUpload(s: State, batch: Batch): State
    requires batch.images != []
  {
    if s.locked then Noted(s, PleaseWait(batch.chat))
    else
      SendFront(
        State(true, batch.images, s.pending, s.batches + [batch], s.sent + [[]],
              s.notes + [Started(batch.chat)], s.links),
        batch.chat, batch.edit)
  }

  function OnSuccess(s: State, r: Pending, link: string, alive: bool): State
    requires r.Request?
  {
    if !alive then s.(queue := [], locked := false)
    else
      var noted := s.(links := s.links + [(r.edit, link)],
                      notes := s.notes + [Uploaded(r.chat, link, |s.queue|, |s.queue| * (UPLOAD_DELAY / 1000 + 1))]);
      if s.queue == [] then noted.(locked := false)
      else noted.(pending := s.pending + [Timer(r.chat, r.edit)])
  }

  function OnFailure(s: State, r: Pending): State {
    s.(queue := [], locked := false, notes := s.notes + [UploadFailed(r.chat)])
  }

  // One event. Taking the front of an empty queue has no meaning, so there is
  // no state behind it.
  function Step(s: State, e: Event): Option<State>
    requires Enabled(s, e)
  {
    match e
    case Upload(batch) => Some(OnUpload(s, batch))
    case Succeeded(at, link, alive) =>
      Some(OnSuccess(s.(pending := Without(s.pending, at)), s.pending[at], link, alive))
    case Failed(at) =>
      Some(OnFailure(s.(pending := Without(s.pending, at)), s.pending[at]))
    case Fired(at) =>
      var t := s.pending[at];
      if s.queue == [] || s.sent == [] then None
      else Some(SendFront(s.(pending := Without(s.pending, at)), t.chat, t.edit))
  }

  // The state after any events; those that cannot happen are passed over.
  function Run(events: seq<Event>): Option<State> {
    if events == [] then Some(IDLE)
    else
      var e := events[|events| - 1];
      match Run(events[..|events| - 1])
      case None => None
      case Some(s) => if Enabled(s, e) then Step(s, e) else Some(s)
  }

  // Each batch has been sent from its first image on, in order.
  predicate SentInOrder(s: State) {
    && |s.sent| == |s.batches|
    && forall k :: 0 <= k < |s.sent| ==> s.sent[k] != [] && s.sent[k] <= s.batches[k].images
  }

  // The one thing under way belongs to the last batch, of which the queue is
  // the rest.
  predicate Busy(s: State)
    requires |s.sent| == |s.batches|
  {
    && |s.pending| == 1 && s.sent != []
    && var (p, sent, batch) := (s.pending[0], s.sent[|s.sent| - 1], s.batches[|s.sent| - 1]);
      && sent != []
      && p.chat == batch.chat && p.edit == batch.edit
      && sent + s.queue == batch.images
      && (p.Timer? ==> s.queue != [])
      && (p.Request? ==> p.image == sent[|sent| - 1])
  }

  predicate Inv(s: State) {
    && SentInOrder(s)
    && (if s.locked then Busy(s) else s.pending == [] && s.queue == [])
  }

  lemma SendFrontKeeps(s: State, chat: Chat, edit: Edit)
    requires s.locked && s.queue != [] && s.sent != [] && |s.sent| == |s.batches| && s.pending == []
    requires forall k :: 0 <= k < |s.sent| - 1 ==> s.sent[k] != [] && s.sent[k] <= s.batches[k].images
    requires var last := |s.sent| - 1;
      s.sent[last] + s.queue == s.batches[last].images &&
      s.batches[last].chat == chat && s.batches[last].edit == edit
    ensures Inv(SendFront(s, chat, edit))
  {
    var r, last := SendFront(s, chat, edit), |s.sent| - 1;
    assert r.sent[last] + r.queue == s.sent[last] + ([s.queue[0]] + s.queue[1..]);
    assert [s.queue[0]] + s.queue[1..] == s.queue;
  }

  lemma StepKeepsInv(s: State, e: Event)
    requires Inv(s) && Enabled(s, e)
    ensures Step(s, e).Some? && Inv(Step(s, e).value)
  {
    match e
    case Upload(batch) =>
      if !s.locked {
        SendFrontKeeps(
          State(true, batch.images, s.pending, s.batches + [batch], s.sent + [[]],
                s.notes + [Started(batch.chat)], s.links),
          batch.chat, batch.edit);
      }
    case Succeeded(at, link, alive) =>
      assert Without(s.pending, at) == [];
    case Failed(at) =>
      assert Without(s.pending, at) == [];
    case Fired(at) =>
      assert Without(s.pending, at) == [];
      SendFrontKeeps(s.(pending := []), s.pending[at].chat, s.pending[at].edit);
  }

  // In every run, the front is never taken of an empty queue, at most one
  // request or timer is under way, and an unlocked uploader has nothing to do.
  lemma {:induction false} RunKeepsInv(events: seq<Event>)
    ensures Run(events).Some? && Inv(Run(events).value)
  {
    if events != [] {
      RunKeepsInv(events[..|events| - 1]);
      var s, e := Run(events[..|events| - 1]).value, events[|events| - 1];
      if Enabled(s, e) {
        StepKeepsInv(s, e);
      }
    }
  }

  // Nothing goes wrong with an upload.
  predicate GoesWell(e: Event) {
    e.Upload? || e.Fired? || (e.Succeeded? && e.alive)
  }

  // Every batch is sent whole, but for the one that is being sent.
  predicate SentWhole(s: State) {
    && |s.sent| == |s.batches|
    && forall k :: 0 <= k < |s.sent| - (if s.locked then 1 else 0) ==> s.sent[k] == s.batches[k].images
  }

  lemma StepSendsWhole(s: State, e: Event)
    requires Inv(s) && SentWhole(s) && Enabled(s, e) && GoesWell(e)
    ensures Step(s, e).Some? && SentWhole(Step(s, e).value)
  {
    StepKeepsInv(s, e);
    if e.Succeeded? && s.queue == [] {
      var last := |s.sent| - 1;
      assert s.sent[last] + [] == s.sent[last];
    }
  }

  // If every response succeeds while the text edit is alive, every image is sent.
  lemma {:induction false} RunSendsWhole(events: seq<Event>)
    requires forall i :: 0 <= i < |events| ==> GoesWell(events[i])
    ensures Run(events).Some? && SentWhole(Run(events).value)
  {
    if events != [] {
      var init := events[..|events| - 1];
      RunSendsWhole(init);
      RunKeepsInv(init);
      var s, e := Run(init).value, events[|events| - 1];
      if Enabled(s, e) {
        StepSendsWhole(s, e);
      }
    }
  }

  // ----- what the user sees of it -----

  const NO_BATCH := Batch([], Chat(0), Edit(0))

  function LastBatch(s: State): Batch {
    if s.batches == [] then NO_BATCH else s.batches[|s.batches| - 1]
  }

  // How many images of the last batch have not been sent.
  function Unsent(s: State): nat {
    if s.batches == [] || s.sent == [] || |s.sent[|s.sent| - 1]| > |LastBatch(s).images| then 0
    else |LastBatch(s).images| - |s.sent[|s.sent| - 1]|
  }

  // The links that are to be inserted: for each successful response, while its
  // text edit is there, the link goes to the edit of the batch that is sent.
  function LinksOf(events: seq<Event>): seq<(Edit, string)> {
    if events == [] then []
    else
      var init, e := events[..|events| - 1], events[|events| - 1];
      LinksOf(init) +
      match Run(init)
      case None => []
      case Some(s) =>
        if e.Succeeded? && e.alive && Enabled(s, e) then [(LastBatch(s).edit, e.link)] else []
  }

  // The batches that are to be taken: those that come while nothing is under way.
  function BatchesOf(events: seq<Event>): seq<Batch> {
    if events == [] then []
    else
      var init, e := events[..|events| - 1], events[|events| - 1];
      BatchesOf(init) +
      match Run(init)
      case None => []
      case Some(s) => if e.Upload? && Enabled(s, e) && s.pending == [] then [e.batch] else []
  }

  // The notes that are to be shown, each in the chat it is about. Every image
  // that is left takes three seconds.
  function NotesOf(events: seq<Event>): seq<Note> {
    if events == [] then []
    else
      var init, e := events[..|events| - 1], events[|events| - 1];
      NotesOf(init) +
      match Run(init)
      case None => []
      case Some(s) => if Enabled(s, e) then NoteOf(s, e) else []
  }

  function NoteOf(s: State, e: Event): seq<Note> {
    match e
    case Upload(batch) => if s.pending == [] then [Started(batch.chat)] else [PleaseWait(batch.chat)]
    case Succeeded(_, link, alive) =>
      if alive then [Uploaded(LastBatch(s).chat, link, Unsent(s), 3 * Unsent(s))] else []
    case Failed(_) => [UploadFailed(LastBatch(s).chat)]
    case Fired(_) => []
  }

  // From s to r, exactly this is inserted, taken and shown.
  predicate ShowsOnly(s: State, r: State, links: seq<(Edit, string)>, batches: seq<Batch>, notes: seq<Note>) {
    r.links == s.links + links && r.batches == s.batches + batches && r.notes == s.notes + notes
  }

  lemma NothingShown(s: State)
    ensures ShowsOnly(s, s, [], [], [])
  {
    NothingBehind(s.links);
    NothingBehind(s.batches);
    NothingBehind(s.notes);
  }

  lemma UploadShows(s: State, batch: Batch)
    requires Inv(s) && batch.images != []
    ensures ShowsOnly(s, OnUpload(s, batch), [], if s.pending == [] then [batch] else [],
                      if s.pending == [] then [Started(batch.chat)] else [PleaseWait(batch.chat)])
  {
    NothingShown(s);
  }

  // What is under way, and what is left, is about the last batch.
  lemma BusyWithLast(s: State)
    requires Inv(s) && s.locked
    ensures s.pending != [] && s.pending[0].chat == LastBatch(s).chat && s.pending[0].edit == LastBatch(s).edit
    ensures |s.queue| == Unsent(s)
  {
  }

  lemma SuccessShows(s: State, at: nat, link: string, alive: bool)
    requires Inv(s) && Enabled(s, Succeeded(at, link, alive))
    ensures var b := LastBatch(s);
            ShowsOnly(s, OnSuccess(s.(pending := Without(s.pending, at)), s.pending[at], link, alive),
                      if alive then [(b.edit, link)] else [], [],
                      if alive then [Uploaded(b.chat, link, Unsent(s), 3 * Unsent(s))] else [])
  {
    BusyWithLast(s);
    NothingShown(s);
  }

  lemma FailureShows(s: State, at: nat)
    requires Inv(s) && Enabled(s, Failed(at))
    ensures ShowsOnly(s, OnFailure(s.(pending := Without(s.pending, at)), s.pending[at]),
                      [], [], [UploadFailed(LastBatch(s).chat)])
  {
    BusyWithLast(s);
    NothingShown(s);
  }

  lemma StepShows(s: State, e: Event)
    requires Inv(s) && Enabled(s, e)
    ensures Step(s, e).Some?
    ensures ShowsOnly(s, Step(s, e).value,
                      if e.Succeeded? && e.alive then [(LastBatch(s).edit, e.link)] else [],
                      if e.Upload? && s.pending == [] then [e.batch] else [],
                      NoteOf(s, e))
  {
    StepKeepsInv(s, e);
    match e
    case Upload(batch) => UploadShows(s, batch);
    case Succeeded(at, link, alive) => SuccessShows(s, at, link, alive);
    case Failed(at) => FailureShows(s, at);
    case Fired(_) => NothingShown(s);
  }

  // Over every run these links are inserted, these batches are taken and these
  // notes are shown, in this order and nothing else.
  lemma {:induction false} RunShows(events: seq<Event>)
    ensures Run(events).Some?
    ensures var s := Run(events).value;
            s.links == LinksOf(events) && s.batches == BatchesOf(events) && s.notes == NotesOf(events)
  {
    if events != [] {
      var init, e := events[..|events| - 1], events[|events| - 1];
      RunShows(init);
      RunKeepsInv(init);
      var s := Run(init).value;
      NothingShown(s);
      if Enabled(s, e) {
        StepShows(s, e);
      }
    }
  }

  function Repeat(edit: Edit, n: nat): (r: seq<Edit>)
    ensures |r| == n
  {
    seq(n, i => edit)
  }

  // One link for each image, to the text edit of its batch.
  function EditsOf(batches: seq<Batch>): seq<Edit> {
    if batches == [] then []
    else
      var last := batches[|batches| - 1];
      EditsOf(batches[..|batches| - 1]) + Repeat(last.edit, |last.images|)
  }

  function EditsIn(links: seq<(Edit, string)>): (r: seq<Edit>)
    ensures |r| == |links|
  {
    seq(|links|, i requires 0 <= i < |links| => links[i].0)
  }

  // How many images of the last batch were answered.
  function Answered(s: State): nat {
    if s.sent == [] then 0
    else
      var n := |s.sent[|s.sent| - 1]|;
      if s.pending != [] && s.pending[0].Request? && n > 0 then n - 1 else n
  }

  // The finished batches got all their links, and the last one what was answered.
  predicate LinksAreWhole(s: State) {
    EditsIn(s.links) ==
    if s.batches == [] then []
    else EditsOf(s.batches[..|s.batches| - 1]) + Repeat(LastBatch(s).edit, Answered(s))
  }

  lemma WholeWhenIdle(s: State)
    requires Inv(s) && SentWhole(s) && LinksAreWhole(s) && !s.locked
    ensures EditsIn(s.links) == EditsOf(s.batches)
  {
  }

  lemma EditsAppend(links: seq<(Edit, string)>, edit: Edit, link: string)
    ensures EditsIn(links + [(edit, link)]) == EditsIn(links) + [edit]
  {
  }

  lemma RepeatOnce(edit: Edit, n: nat)
    ensures Repeat(edit, n) + [edit] == Repeat(edit, n + 1)
  {
  }

  lemma UploadIsUnanswered(s: State, batch: Batch)
    requires Inv(s) && batch.images != [] && !s.locked
    ensures var r := OnUpload(s, batch);
      && r.batches != [] && r.batches[..|r.batches| - 1] == s.batches
      && LastBatch(r) == batch && Answered(r) == 0 && r.links == s.links
  {
    var r := OnUpload(s, batch);
    assert r.sent[|r.sent| - 1] == [batch.images[0]];
  }

  lemma UploadStaysWhole(s: State, batch: Batch)
    requires Inv(s) && SentWhole(s) && LinksAreWhole(s) && batch.images != [] && !s.locked
    ensures LinksAreWhole(OnUpload(s, batch))
  {
    WholeWhenIdle(s);
    UploadIsUnanswered(s, batch);
    NothingBehind(EditsOf(s.batches));
    assert Repeat(batch.edit, 0) == [];
  }

  lemma SuccessIsAnswered(s: State, at: nat, link: string)
    requires Inv(s) && Enabled(s, Succeeded(at, link, true))
    ensures var r := Step(s, Succeeded(at, link, true)).value;
      && r.batches == s.batches && s.batches != [] && Answered(r) == Answered(s) + 1
      && r.links == s.links + [(LastBatch(s).edit, link)]
  {
    BusyWithLast(s);
    assert Without(s.pending, at) == [];
  }

  lemma SuccessStaysWhole(s: State, at: nat, link: string)
    requires Inv(s) && LinksAreWhole(s) && Enabled(s, Succeeded(at, link, true))
    ensures LinksAreWhole(Step(s, Succeeded(at, link, true)).value)
  {
    var edit, n := LastBatch(s).edit, Answered(s);
    SuccessIsAnswered(s, at, link);
    EditsAppend(s.links, edit, link);
    RepeatOnce(edit, n);
    Regroup(EditsOf(s.batches[..|s.batches| - 1]), Repeat(edit, n), [edit]);
  }

  lemma StepStaysWhole(s: State, e: Event)
    requires Inv(s) && SentWhole(s) && LinksAreWhole(s) && Enabled(s, e) && GoesWell(e)
    ensures Step(s, e).Some? && LinksAreWhole(Step(s, e).value)
  {
    StepKeepsInv(s, e);
    match e
    case Upload(batch) =>
      if !s.locked {
        UploadStaysWhole(s, batch);
      }
    case Succeeded(at, link, _) => SuccessStaysWhole(s, at, link);
    case Fired(at) => FiredIsUnanswered(s, at);
  }

  lemma FiredIsUnanswered(s: State, at: nat)
    requires Inv(s) && Enabled(s, Fired(at))
    ensures Step(s, Fired(at)).Some?
    ensures var r := Step(s, Fired(at)).value;
            r.batches == s.batches && Answered(r) == Answered(s) && r.links == s.links
  {
    BusyWithLast(s);
    assert Without(s.pending, at) == [];
  }

  // If everything goes well, every finished batch contributes one link for each
  // of its images, to its own text edit, and the last one as many as answered.
  lemma {:induction false} RunLinksWhole(events: seq<Event>)
    requires forall i :: 0 <= i < |events| ==> GoesWell(events[i])
    ensures Run(events).Some? && LinksAreWhole(Run(events).value)
    ensures !Run(events).value.locked ==> EditsIn(Run(events).value.links) == EditsOf(Run(events).value.batches)
  {
    if events != [] {
      var init, e := events[..|events| - 1], events[|events| - 1];
      RunLinksWhole(init);
      RunKeepsInv(init);
      RunSendsWhole(init);
      var s := Run(init).value;
      if Enabled(s, e) {
        StepStaysWhole(s, e);
      }
    }
    RunKeepsInv(events);
    RunSendsWhole(events);
    if !Run(events).value.locked {
      WholeWhenIdle(Run(events).value);
    }
  }

  // How many responses and timers an upload still takes at most.
  function Outstanding(s: State): nat {
    if !s.locked then 0
    else 2 * |s.queue| + if s.pending != [] && s.pending[0].Request? then 1 else 0
  }

  // While the uploader is locked something can happen, and every response and
  // timer brings the end of the upload nearer.
  lemma UploadEnds(s: State, e: Event)
    requires Inv(s) && Enabled(s, e)
    ensures s.locked ==> Outstanding(s) > 0 && (Enabled(s, Failed(0)) || Enabled(s, Fired(0)))
    ensures Step(s, e).Some?
    ensures !e.Upload? ==> Outstanding(Step(s, e).value) < Outstanding(s)
    ensures e.Upload? && s.locked ==> Outstanding(Step(s, e).value) == Outstanding(s)
  {
    StepKeepsInv(s, e);
    if !e.Upload? {
      assert Without(s.pending, e.at) == [];
    }
  }

  class ImageUploader {
    var uploadMutex: bool
    var uploadQueue: seq<Image>
    var pending: seq<Pending>
    var notes: seq<Note>
    var links: seq<(Edit, string)>
    ghost var batches: seq<Batch>
    ghost var sent: seq<seq<Image>>

    constructor ()
      ensures Current() == IDLE
    {
      uploadMutex, uploadQueue, pending, notes, links := false, [], [], [], [];
      batches, sent := [], [];
    }

    ghost function Current(): State
      reads this
    {
      State(uploadMutex, uploadQueue, pending, batches, sent, notes, links)
    }

    method SendImageUploadRequest(image: Image, chat: Chat, edit: Edit)
      requires sent != []
      modifies this`pending, this`sent
      ensures pending == old(pending) + [Request(image, chat, edit)]
      ensures sent == old(sent)[|old(sent)| - 1 := old(sent)[|old(sent)| - 1] + [image]]
    {
      pending := pending + [Request(image, chat, edit)];
      sent := sent[|sent| - 1 := sent[|sent| - 1] + [image]];
    }

    method Upload(images: seq<Image>, chat: Chat, edit: Edit)
      requires images != [] && Inv(Current())
      modifies this
      ensures Some(Current()) == Step(old(Current()), Event.Upload(Batch(images, chat, edit)))
      ensures Inv(Current())
    {
      StepKeepsInv(Current(), Event.Upload(Batch(images, chat, edit)));
      if uploadMutex {
        notes := notes + [PleaseWait(chat)];
        return;
      }
      uploadMutex := true;
      assert uploadQueue == [];
      uploadQueue := images;
      batches, sent := batches + [Batch(images, chat, edit)], sent + [[]];
      notes := notes + [Started(chat)];
      SendImageUploadRequest(uploadQueue[0], chat, edit);
      uploadQueue := uploadQueue[1..];
    }

    method GiveUp()
      modifies this`uploadQueue, this`uploadMutex
      ensures uploadQueue == [] && !uploadMutex
    {
      while uploadQueue != []
        decreases |uploadQueue|
      {
        uploadQueue := uploadQueue[1..];
      }
      uploadMutex := false;
    }

    method HandleFailedUpload(at: nat)
      requires Inv(Current()) && Enabled(Current(), Failed(at))
      modifies this
      ensures Some(Current()) == Step(old(Current()), Failed(at))
      ensures Inv(Current())
    {
      StepKeepsInv(Current(), Failed(at));
      var r := pending[at];
      pending := Without(pending, at);
      notes := notes + [UploadFailed(r.chat)];
      GiveUp();
    }

    method HandleSuccessfulUpload(at: nat, link: string, alive: bool)
      requires Inv(Current()) && Enabled(Current(), Succeeded(at, link, alive))
      modifies this
      ensures Some(Current()) == Step(old(Current()), Succeeded(at, link, alive))
      ensures Inv(Current())
    {
      StepKeepsInv(Current(), Succeeded(at, link, alive));
      var r := pending[at];
      pending := Without(pending, at);
      if !alive {
        GiveUp();
        return;
      }
      links := links + [(r.edit, link)];
      var timeToUpload := |uploadQueue| * (UPLOAD_DELAY / 1000 + 1);
      notes := notes + [Uploaded(r.chat, link, |uploadQueue|, timeToUpload)];
      if uploadQueue == [] {
        uploadMutex := false;
      } else {
        pending := pending + [Timer(r.chat, r.edit)];
      }
    }

    method TimerFired(at: nat)
      requires Inv(Current()) && Enabled(Current(), Fired(at))
      modifies this
      ensures Some(Current()) == Step(old(Current()), Fired(at))
      ensures Inv(Current())
    {
      StepKeepsInv(Current(), Fired(at));
      var t := pending[at];
      pending := Without(pending, at);
      SendImageUploadRequest(uploadQueue[0], t.chat, t.edit);
      uploadQueue := uploadQueue[1..];
    }
  }
}
