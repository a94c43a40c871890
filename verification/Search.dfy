/** From the event log to search-index events: what a search engine that replays them ends up with. */
module SearchExtraction {
  import opened Sequences
  import opened BlobFraming
  import EventRecords
  import MessageExtraction

  /** The sixteen bytes of an id, and the bytes of a name or a message. */
  type Id = EventRecords.Uuid
  type Content = Bytes

  /** The events of the log that matter here. */
  datatype LogEvent =
    | AddNewThread(id: Id, name: Content)
    | ChangeThreadName(id: Id, name: Content)
    | DeleteThread(id: Id)
    | MergeThreads(from: Id, into: Id)
    | AddNewMessage(id: Id, threadId: Id, content: Content)
    | ChangeMessageContent(id: Id, content: Content)
    | DeleteMessage(id: Id)

  datatype SearchEvent =
    | NewThread(id: Id, name: Content)
    | ThreadNameChanged(id: Id, name: Content)
    | ThreadDeleted(id: Id)
    | NewMessage(id: Id, content: Content)
    | ContentChanged(id: Id, content: Content)
    | MessageDeleted(id: Id)

  /** What a search index holds: thread names and message contents. */
  datatype Index = Index(threads: map<Id, Content>, messages: map<Id, Content>)

  function Indexed(x: Index, e: SearchEvent): Index {
    match e
    case NewThread(id, name) => x.(threads := x.threads[id := name])
    case ThreadNameChanged(id, name) => x.(threads := x.threads[id := name])
    case ThreadDeleted(id) => x.(threads := x.threads - {id})
    case NewMessage(id, content) => x.(messages := x.messages[id := content])
    case ContentChanged(id, content) => x.(messages := x.messages[id := content])
    case MessageDeleted(id) => x.(messages := x.messages - {id})
  }

  function Replay(events: seq<SearchEvent>): Index {
    if events == [] then Index(map[], map[]) else Indexed(Replay(events[..|events| - 1]), events[|events| - 1])
  }

  /** The forum itself: threads with names, messages with their thread and content, and every message id ever used. */
  datatype Forum = Forum(threads: map<Id, Content>, messages: map<Id, (Id, Content)>, used: set<Id>)

  predicate Accepts(f: Forum, e: LogEvent) {
    match e
    case AddNewThread(id, _) => id !in f.threads
    case ChangeThreadName(id, _) => id in f.threads
    case DeleteThread(id) => id in f.threads
    case MergeThreads(from, into) => from in f.threads && into in f.threads && from != into
    case AddNewMessage(id, threadId, _) => id !in f.used && threadId in f.threads
    case ChangeMessageContent(id, _) => id in f.messages
    case DeleteMessage(id) => id in f.messages
  }

  function After(f: Forum, e: LogEvent): Forum
    requires Accepts(f, e)
  {
    match e
    case AddNewThread(id, name) => f.(threads := f.threads[id := name])
    case ChangeThreadName(id, name) => f.(threads := f.threads[id := name])
    case DeleteThread(id) =>
      f.(threads := f.threads - {id}, messages := map m | m in f.messages && f.messages[m].0 != id :: f.messages[m])
    case MergeThreads(from, into) =>
      f.(threads := f.threads - {from},
         messages := map m | m in f.messages ::
           if f.messages[m].0 == from then (into, f.messages[m].1) else f.messages[m])
    case AddNewMessage(id, threadId, content) =>
      f.(messages := f.messages[id := (threadId, content)], used := f.used + {id})
    case ChangeMessageContent(id, content) => f.(messages := f.messages[id := (f.messages[id].0, content)])
    case DeleteMessage(id) => f.(messages := f.messages - {id})
  }

  /** Every event is possible in the forum it happens to, starting from `f`. */
  ghost predicate ValidHistory(f: Forum, history: seq<LogEvent>)
    decreases |history|, 0
  {
    history == []
    || (ValidHistory(f, history[..|history| - 1])
        && Accepts(ForumOf(f, history[..|history| - 1]), history[|history| - 1]))
  }

  ghost function ForumOf(f: Forum, history: seq<LogEvent>): Forum
    requires ValidHistory(f, history)
    decreases |history|, 1
  {
    if history == [] then f else After(ForumOf(f, history[..|history| - 1]), history[|history| - 1])
  }

  const ADD_NEW_DISCUSSION_THREAD := 8
  const CHANGE_DISCUSSION_THREAD_NAME := 9
  const DELETE_DISCUSSION_THREAD := 11
  const MERGE_DISCUSSION_THREADS := 12
  const ADD_NEW_DISCUSSION_THREAD_MESSAGE := 15
  const CHANGE_DISCUSSION_THREAD_MESSAGE_CONTENT := 16
  const DELETE_DISCUSSION_THREAD_MESSAGE := 19
  const UUID_SIZE := MessageExtraction.UUID_SIZE
  const CONTEXT_SIZE := MessageExtraction.CONTEXT_SIZE
  const DATA_AT := EVENT_HEADER_SIZE + CONTEXT_SIZE

  function TypeOf(blob: Bytes): nat
    requires |blob| >= EVENT_HEADER_SIZE
  {
    MessageExtraction.EventType(blob)
  }

  /** The types that matter, those that name two ids, and those that carry a text. */
  predicate IsKnown(eventType: nat) {
    eventType in {
      ADD_NEW_DISCUSSION_THREAD, CHANGE_DISCUSSION_THREAD_NAME, DELETE_DISCUSSION_THREAD, MERGE_DISCUSSION_THREADS,
      ADD_NEW_DISCUSSION_THREAD_MESSAGE, CHANGE_DISCUSSION_THREAD_MESSAGE_CONTENT, DELETE_DISCUSSION_THREAD_MESSAGE}
  }

  predicate NamesTwo(eventType: nat) {
    eventType == MERGE_DISCUSSION_THREADS || eventType == ADD_NEW_DISCUSSION_THREAD_MESSAGE
  }

  predicate CarriesText(eventType: nat) {
    eventType in {
      ADD_NEW_DISCUSSION_THREAD, CHANGE_DISCUSSION_THREAD_NAME,
      ADD_NEW_DISCUSSION_THREAD_MESSAGE, CHANGE_DISCUSSION_THREAD_MESSAGE_CONTENT}
  }

  /** A known event that is too short for its context or has another version stops the extraction. */
  predicate IsRefused(blob: Bytes)
    requires |blob| >= EVENT_HEADER_SIZE
  {
    var version := MessageExtraction.Version(blob);
    IsKnown(TypeOf(blob))
    && (|blob| - EVENT_HEADER_SIZE < CONTEXT_SIZE
        || !(version == 1 || (version == 3 && TypeOf(blob) == ADD_NEW_DISCUSSION_THREAD_MESSAGE)))
  }

  /** The text stands behind the ids; version 3 of an added message has the approval in between. */
  function TextAt(blob: Bytes): nat
    requires |blob| >= EVENT_HEADER_SIZE
  {
    DATA_AT + UUID_SIZE + (if NamesTwo(TypeOf(blob)) then UUID_SIZE else 0)
    + if MessageExtraction.Version(blob) == 3 then 4 else 0
  }

  predicate HasText(blob: Bytes, at: nat) {
    at + 4 <= |blob| && at + 4 + Number(blob[at..at + 4]) <= |blob|
  }

  function TextOf(blob: Bytes, at: nat): Content
    requires HasText(blob, at)
  {
    blob[at + 4..at + 4 + Number(blob[at..at + 4])]
  }

  /** The source reads ids and texts without looking at the blob's size. */
  predicate Decodable(blob: Bytes) {
    && |blob| >= EVENT_HEADER_SIZE
    && (IsKnown(TypeOf(blob)) && !IsRefused(blob) ==>
          && |blob| >= DATA_AT + UUID_SIZE + (if NamesTwo(TypeOf(blob)) then UUID_SIZE else 0)
          && (CarriesText(TypeOf(blob)) ==> HasText(blob, TextAt(blob))))
  }

  predicate AllDecodable(blobs: seq<Bytes>) {
    forall i | 0 <= i < |blobs| :: Decodable(blobs[i])
  }

  /** The event a blob stands for. */
  function Decode(blob: Bytes): LogEvent
    requires Decodable(blob) && IsKnown(TypeOf(blob)) && !IsRefused(blob)
  {
    var id := blob[DATA_AT..DATA_AT + UUID_SIZE];
    if TypeOf(blob) == ADD_NEW_DISCUSSION_THREAD then AddNewThread(id, TextOf(blob, TextAt(blob)))
    else if TypeOf(blob) == CHANGE_DISCUSSION_THREAD_NAME then ChangeThreadName(id, TextOf(blob, TextAt(blob)))
    else if TypeOf(blob) == DELETE_DISCUSSION_THREAD then DeleteThread(id)
    else if TypeOf(blob) == MERGE_DISCUSSION_THREADS then
      MergeThreads(id, blob[DATA_AT + UUID_SIZE..DATA_AT + 2 * UUID_SIZE])
    else if TypeOf(blob) == ADD_NEW_DISCUSSION_THREAD_MESSAGE then
      AddNewMessage(id, blob[DATA_AT + UUID_SIZE..DATA_AT + 2 * UUID_SIZE], TextOf(blob, TextAt(blob)))
    else if TypeOf(blob) == CHANGE_DISCUSSION_THREAD_MESSAGE_CONTENT then
      ChangeMessageContent(id, TextOf(blob, TextAt(blob)))
    else DeleteMessage(id)
  }

  /** The events of a log, up to the first blob that is refused. */
  function HistoryOf(blobs: seq<Bytes>): seq<LogEvent>
    requires AllDecodable(blobs)
  {
    if blobs == [] || IsRefused(blobs[0]) then []
    else (if IsKnown(TypeOf(blobs[0])) then [Decode(blobs[0])] else []) + HistoryOf(blobs[1..])
  }

  predicate SomeRefused(blobs: seq<Bytes>)
    requires AllDecodable(blobs)
  {
    blobs != [] && (IsRefused(blobs[0]) || SomeRefused(blobs[1..]))
  }

  /** A last record of an empty blob with next to nothing behind it is an error. */
  predicate EndsTooEarly(rest: Bytes) {
    && |rest| >= MIN_BLOB_SIZE && Number(rest[..8]) == MAGIC_PREFIX
    && PaddedSize(rest) <= |rest| - MIN_BLOB_SIZE < EVENT_HEADER_SIZE
  }

  lemma HistoryStep(f: Forum, blobs: seq<Bytes>)
    requires AllDecodable(blobs) && blobs != [] && !IsRefused(blobs[0]) && ValidHistory(f, HistoryOf(blobs))
    ensures var g := if IsKnown(TypeOf(blobs[0])) then AfterIfPossible(f, Decode(blobs[0])) else f;
      && (IsKnown(TypeOf(blobs[0])) ==> Accepts(f, Decode(blobs[0])))
      && ValidHistory(g, HistoryOf(blobs[1..])) && ForumOf(g, HistoryOf(blobs[1..])) == ForumOf(f, HistoryOf(blobs))
  {
    hide Decode, HasText, IsRefused, IsKnown, Number;
    assert [] + HistoryOf(blobs[1..]) == HistoryOf(blobs[1..]);
    if IsKnown(TypeOf(blobs[0])) { FirstEvent(f, Decode(blobs[0]), HistoryOf(blobs[1..])); }
  }

  /** The forum after an event, if it is possible. */
  function AfterIfPossible(f: Forum, e: LogEvent): Forum {
    if Accepts(f, e) then After(f, e) else f
  }

  lemma {:induction false} FirstEvent(f: Forum, e: LogEvent, rest: seq<LogEvent>)
    requires ValidHistory(f, [e] + rest)
    ensures Accepts(f, e) && ValidHistory(After(f, e), rest) && ForumOf(After(f, e), rest) == ForumOf(f, [e] + rest)
  {
    hide Accepts, After;
    var all := [e] + rest;
    if rest == [] {
      assert all[..0] == [] && all[0] == e;
    } else {
      assert all[..|all| - 1] == [e] + rest[..|rest| - 1];
      FirstEvent(f, e, rest[..|rest| - 1]);
    }
  }

  function IndexOf(f: Forum): Index {
    Index(f.threads, map m | m in f.messages :: f.messages[m].1)
  }

  lemma ReplayOneMore(events: seq<SearchEvent>, e: SearchEvent)
    ensures Replay(events + [e]) == Indexed(Replay(events), e)
  {
    assert (events + [e])[..|events|] == events;
  }

  /** The ids of the emitted deletions, in order. */
  function Deletions(events: seq<SearchEvent>): seq<Id> {
    if events == [] then []
    else
      var e := events[|events| - 1];
      Deletions(events[..|events| - 1]) + if e.MessageDeleted? then [e.id] else []
  }

  lemma DeletionsOneMore(events: seq<SearchEvent>, e: SearchEvent)
    ensures Deletions(events + [e]) == Deletions(events) + if e.MessageDeleted? then [e.id] else []
  {
    assert (events + [e])[..|events|] == events;
  }

  /** What is kept for each thread: its messages, and possibly some that have been deleted. */
  ghost predicate Follows(kept: map<Id, set<Id>>, deleted: set<Id>, f: Forum) {
    && kept.Keys == f.threads.Keys && deleted !! f.messages.Keys && deleted <= f.used && f.messages.Keys <= f.used
    && (forall m | m in f.messages :: f.messages[m].0 in kept && m in kept[f.messages[m].0])
    && (forall t, m | t in kept && m in kept[t] :: m in deleted || (m in f.messages && f.messages[m].0 == t))
  }

  lemma SameThreads(kept: map<Id, set<Id>>, deleted: set<Id>, f: Forum)
    requires Follows(kept, deleted, f)
    ensures kept.Keys == f.threads.Keys
  {
  }

  /** Deleting a thread deletes exactly its live messages. */
  lemma DeleteThreadFollows(kept: map<Id, set<Id>>, deleted: set<Id>, f: Forum, id: Id)
    requires Follows(kept, deleted, f) && id in f.threads
    ensures var g := After(f, DeleteThread(id));
      && Follows(kept - {id}, deleted + kept[id], g)
      && IndexOf(g) == Index(IndexOf(f).threads - {id}, IndexOf(f).messages - (kept[id] - deleted))
  {
  }

  lemma MergeKeepsIndex(f: Forum, from: Id, into: Id)
    requires Accepts(f, MergeThreads(from, into))
    ensures IndexOf(After(f, MergeThreads(from, into))) == Index(IndexOf(f).threads - {from}, IndexOf(f).messages)
  {
  }

  lemma MergeFollows(kept: map<Id, set<Id>>, deleted: set<Id>, f: Forum, from: Id, into: Id)
    requires Follows(kept, deleted, f) && Accepts(f, MergeThreads(from, into))
    ensures var g := After(f, MergeThreads(from, into));
      && Follows(kept[into := kept[into] + kept[from]] - {from}, deleted, g)
      && IndexOf(g) == Index(IndexOf(f).threads - {from}, IndexOf(f).messages)
  {
    MergeKeepsIndex(f, from, into);
    var g := After(f, MergeThreads(from, into));
    assert g.messages.Keys == f.messages.Keys && g.used == f.used;
    hide IndexOf;
  }

  lemma DeleteMessageFollows(kept: map<Id, set<Id>>, deleted: set<Id>, f: Forum, id: Id)
    requires Follows(kept, deleted, f) && id in f.messages
    ensures var g := After(f, DeleteMessage(id));
      && id !in deleted && Follows(kept, deleted + {id}, g)
      && IndexOf(g) == Index(IndexOf(f).threads, IndexOf(f).messages - {id})
  {
  }

  lemma AddMessageFollows(kept: map<Id, set<Id>>, deleted: set<Id>, f: Forum, id: Id, threadId: Id, content: Content)
    requires Follows(kept, deleted, f) && Accepts(f, AddNewMessage(id, threadId, content))
    ensures var g := After(f, AddNewMessage(id, threadId, content));
      && threadId in kept && id !in kept[threadId] && Follows(kept[threadId := kept[threadId] + {id}], deleted, g)
      && IndexOf(g) == Index(IndexOf(f).threads, IndexOf(f).messages[id := content])
  {
  }

  lemma ChangeFollows(kept: map<Id, set<Id>>, deleted: set<Id>, f: Forum, id: Id, name: Content)
    requires Follows(kept, deleted, f)
    ensures id in f.threads ==>
      && Follows(kept, deleted, After(f, ChangeThreadName(id, name)))
      && IndexOf(After(f, ChangeThreadName(id, name))) == Indexed(IndexOf(f), ThreadNameChanged(id, name))
    ensures id !in f.threads ==>
      && Follows(kept[id := {}], deleted, After(f, AddNewThread(id, name)))
      && IndexOf(After(f, AddNewThread(id, name))) == Indexed(IndexOf(f), NewThread(id, name))
  {
  }

  lemma ChangeContentFollows(kept: map<Id, set<Id>>, deleted: set<Id>, f: Forum, id: Id, content: Content)
    requires Follows(kept, deleted, f) && id in f.messages
    ensures Follows(kept, deleted, After(f, ChangeMessageContent(id, content)))
    ensures IndexOf(After(f, ChangeMessageContent(id, content))) == Indexed(IndexOf(f), ContentChanged(id, content))
  {
  }

  class SearchDataExtractor {
    var threadMessages: map<Id, set<Id>>
    var deletedMessages: set<Id>
    var events: seq<SearchEvent>

    constructor ()
      ensures threadMessages == map[] && deletedMessages == {} && events == []
    {
      threadMessages, deletedMessages, events := map[], {}, [];
    }

    /** No deletion is emitted twice; this holds for any log whatever. */
    ghost predicate DeletedOnce()
      reads this
    {
      Distinct(Deletions(events)) && AsSet(Deletions(events)) == deletedMessages
    }

    ghost predicate Tracks(f: Forum)
      reads this
    {
      Follows(threadMessages, deletedMessages, f) && Replay(events) == IndexOf(f)
    }

    method WriteJson(e: SearchEvent)
      modifies `events
      ensures events == old(events) + [e] && Replay(events) == Indexed(old(Replay(events)), e)
      ensures Deletions(events) == old(Deletions(events)) + if e.MessageDeleted? then [e.id] else []
    {
      ReplayOneMore(events, e);
      DeletionsOneMore(events, e);
      events := events + [e];
    }

    method OnDeleteMessage(id: Id)
      requires DeletedOnce()
      modifies `deletedMessages, `events
      ensures DeletedOnce() && deletedMessages == old(deletedMessages) + {id}
      ensures Replay(events).threads == old(Replay(events).threads)
      ensures Replay(events).messages == old(Replay(events).messages) - if id in old(deletedMessages) then {} else {id}
    {
      if id in deletedMessages { return; }
      assert id !in AsSet(Deletions(events));
      AppendedSet(Deletions(events), id);
      deletedMessages := deletedMessages + {id};
      WriteJson(MessageDeleted(id));
    }

    method OnAddNewThread(id: Id, name: Content)
      requires DeletedOnce()
      modifies this
      ensures DeletedOnce() && deletedMessages == old(deletedMessages)
      ensures threadMessages == if id in old(threadMessages) then old(threadMessages) else old(threadMessages)[id := {}]
      ensures Replay(events)
        == if id in old(threadMessages) then old(Replay(events)) else Indexed(old(Replay(events)), NewThread(id, name))
    {
      if id in threadMessages { return; }
      threadMessages := threadMessages[id := {}];
      WriteJson(NewThread(id, name));
      assert Deletions(events) == old(Deletions(events));
    }

    /** The thread first, then each message kept for it that has not been deleted yet. */
    method OnDeleteThread(id: Id)
      requires DeletedOnce()
      modifies this
      ensures DeletedOnce() && threadMessages == old(threadMessages) - {id}
      ensures deletedMessages
        == old(deletedMessages) + if id in old(threadMessages) then old(threadMessages)[id] else {}
      ensures Replay(events).threads == old(Replay(events).threads) - if id in old(threadMessages) then {id} else {}
      ensures Replay(events).messages == old(Replay(events).messages)
        - if id in old(threadMessages) then old(threadMessages)[id] - old(deletedMessages) else {}
    {
      if id !in threadMessages { return; }
      hide Distinct, AsSet;
      WriteJson(ThreadDeleted(id));
      assert Deletions(events) == old(Deletions(events));
      var all := threadMessages[id];
      ghost var x := Replay(events);
      DeleteEach(all);
      assert x.messages == old(Replay(events).messages);
      threadMessages := threadMessages - {id};
    }

    method DeleteEach(all: set<Id>)
      requires DeletedOnce()
      modifies `deletedMessages, `events
      ensures DeletedOnce() && deletedMessages == old(deletedMessages) + all
      ensures Replay(events).threads == old(Replay(events).threads)
      ensures Replay(events).messages == old(Replay(events).messages) - (all - old(deletedMessages))
    {
      var todo := all;
      while todo != {}
        invariant todo <= all && DeletedOnce() && deletedMessages == old(deletedMessages) + (all - todo)
        invariant Replay(events).threads == old(Replay(events).threads)
        invariant Replay(events).messages == old(Replay(events).messages) - ((all - todo) - old(deletedMessages))
        decreases todo
      {
        hide DeletedOnce, Replay;
        var messageId :| messageId in todo;
        todo := todo - {messageId};
        OnDeleteMessage(messageId);
      }
    }

    /** The messages change hands before the emptied thread is deleted. */
    method OnMergeThreads(from: Id, into: Id)
      requires DeletedOnce() && from != into && from in threadMessages && into in threadMessages
      modifies this
      ensures DeletedOnce() && deletedMessages == old(deletedMessages)
      ensures threadMessages
        == old(threadMessages)[into := old(threadMessages)[into] + old(threadMessages)[from]] - {from}
      ensures Replay(events).threads == old(Replay(events).threads) - {from}
      ensures Replay(events).messages == old(Replay(events).messages)
    {
      var todo := threadMessages[from];
      while todo != {}
        invariant todo <= old(threadMessages)[from] && DeletedOnce() && deletedMessages == old(deletedMessages)
          && events == old(events)
        invariant threadMessages.Keys == old(threadMessages).Keys
        invariant threadMessages[into] == old(threadMessages)[into] + (old(threadMessages)[from] - todo)
        invariant forall t | t in threadMessages && t != into :: threadMessages[t] == old(threadMessages)[t]
        decreases todo
      {
        hide DeletedOnce;
        var messageId :| messageId in todo;
        todo := todo - {messageId};
        threadMessages := threadMessages[into := threadMessages[into] + {messageId}];
      }
      assert old(threadMessages)[from] - todo == old(threadMessages)[from];
      threadMessages := threadMessages[from := {}];
      hide DeletedOnce, Replay;
      ghost var emptied: map<Id, set<Id>> := threadMessages;
      assert emptied - {from}
        == old(threadMessages)[into := old(threadMessages)[into] + old(threadMessages)[from]] - {from};
      assert emptied[from] == {} && emptied[from] - deletedMessages == {};
      OnDeleteThread(from);
      assert threadMessages == emptied - {from};
      assert deletedMessages == old(deletedMessages);
      assert Replay(events).messages == old(Replay(events).messages);
    }

    method OnAddNewMessage(id: Id, threadId: Id, content: Content)
      requires DeletedOnce()
      modifies this
      ensures DeletedOnce() && deletedMessages == old(deletedMessages)
      ensures var kept := if threadId in old(threadMessages) then old(threadMessages)[threadId] else {};
        && threadMessages == old(threadMessages)[threadId := kept + {id}]
        && Replay(events)
           == if id in kept then old(Replay(events)) else Indexed(old(Replay(events)), NewMessage(id, content))
    {
      var kept := if threadId in threadMessages then threadMessages[threadId] else {};
      threadMessages := threadMessages[threadId := kept + {id}];
      if id in kept { return; }
      WriteJson(NewMessage(id, content));
      assert Deletions(events) == old(Deletions(events));
    }

    method OnChange(e: SearchEvent)
      requires DeletedOnce() && (e.ThreadNameChanged? || e.ContentChanged?)
      modifies `events
      ensures DeletedOnce() && Replay(events) == Indexed(old(Replay(events)), e)
    {
      WriteJson(e);
      assert Deletions(events) == old(Deletions(events));
    }

    /** One valid event: the index that replays the emitted events follows the forum. */
    method OnEvent(e: LogEvent, ghost f: Forum)
      requires DeletedOnce() && Tracks(f) && Accepts(f, e)
      modifies this
      ensures DeletedOnce() && Tracks(After(f, e))
    {
      hide DeletedOnce, Follows, Replay, IndexOf;
      assert threadMessages.Keys == f.threads.Keys by { SameThreads(threadMessages, deletedMessages, f); }
      match e {
        case AddNewThread(id, name) =>
          ChangeFollows(threadMessages, deletedMessages, f, id, name);
          OnAddNewThread(id, name);
        case ChangeThreadName(id, name) =>
          ChangeFollows(threadMessages, deletedMessages, f, id, name);
          OnChange(ThreadNameChanged(id, name));
        case DeleteThread(id) =>
          DeleteThreadFollows(threadMessages, deletedMessages, f, id);
          OnDeleteThread(id);
        case MergeThreads(from, into) =>
          MergeFollows(threadMessages, deletedMessages, f, from, into);
          OnMergeThreads(from, into);
        case AddNewMessage(id, threadId, content) =>
          AddMessageFollows(threadMessages, deletedMessages, f, id, threadId, content);
          OnAddNewMessage(id, threadId, content);
        case ChangeMessageContent(id, content) =>
          ChangeContentFollows(threadMessages, deletedMessages, f, id, content);
          OnChange(ContentChanged(id, content));
        case DeleteMessage(id) =>
          DeleteMessageFollows(threadMessages, deletedMessages, f, id);
          OnDeleteMessage(id);
      }
    }

    /** One blob: it is ignored, refused, or an event that the index follows. */
    method ProcessBlob(blob: Bytes, ghost f: Forum) returns (result: bool)
      requires Decodable(blob) && DeletedOnce() && Tracks(f)
      requires IsKnown(TypeOf(blob)) && !IsRefused(blob) ==> Accepts(f, Decode(blob))
      modifies this
      ensures result == !IsRefused(blob) && DeletedOnce()
      ensures Tracks(if IsKnown(TypeOf(blob)) && !IsRefused(blob) then After(f, Decode(blob)) else f)
    {
      hide DeletedOnce, Tracks, Accepts, After, Number;
      if !IsKnown(TypeOf(blob)) { return true; }
      if IsRefused(blob) { return false; }
      OnEvent(Decode(blob), f);
      return true;
    }

    /** A whole file: replaying what has been emitted gives exactly the live threads and messages with their latest
        names and contents. An event of an unsupported version, or a bad end, is reported. */
    method Perform(input: Bytes, ghost f: Forum) returns (result: bool)
      requires AllDecodable(Blobs(input)) && ValidHistory(f, HistoryOf(Blobs(input))) && DeletedOnce() && Tracks(f)
      modifies this
      ensures result <==> !SomeRefused(Blobs(input)) && !EndsTooEarly(Unread(input))
      ensures DeletedOnce() && Tracks(ForumOf(f, HistoryOf(Blobs(input))))
    {
      hide DeletedOnce, Tracks, Accepts, After, Number, Decode, IsKnown, IsRefused, HasText, BlobPaddingRequired;
      var data := input;
      ghost var now := f;
      while |data| > 0
        invariant AllDecodable(Blobs(data)) && ValidHistory(now, HistoryOf(Blobs(data)))
        invariant DeletedOnce() && Tracks(now)
        invariant ForumOf(now, HistoryOf(Blobs(data))) == ForumOf(f, HistoryOf(Blobs(input)))
        invariant SomeRefused(Blobs(data)) == SomeRefused(Blobs(input)) && Unread(data) == Unread(input)
        decreases |data|
      {
        if |data| < MIN_BLOB_SIZE { break; }
        var magic := Number(data[..8]);
        if magic != MAGIC_PREFIX { break; }
        var blobSize := Number(data[8..12]);
        var blobSizeWithPadding := blobSize + BlobPaddingRequired(blobSize);
        var rest := data[16..];
        if |rest| < blobSizeWithPadding { break; }
        if |rest| < EVENT_HEADER_SIZE { return false; }
        assert StartsWithRecord(data);
        ghost var blobs := Blobs(data);
        var blob := rest[..blobSize];
        assert blob == FirstBlob(data) && rest[blobSizeWithPadding..] == AfterFirst(data);
        assert blobs[0] == blob && blobs[1..] == Blobs(AfterFirst(data));
        if !IsRefused(blob) { HistoryStep(now, blobs); }
        result := ProcessBlob(blob, now);
        if !result { return; }
        now := if IsKnown(TypeOf(blob)) then AfterIfPossible(now, Decode(blob)) else now;
        data := rest[blobSizeWithPadding..];
      }
      result := true;
    }

    /** The event files in the order of their timestamps; the first error ends the run. */
    method StartExtraction(files: seq<Bytes>) returns (code: int)
      requires threadMessages == map[] && deletedMessages == {} && events == [] && AllFilesDecodable(files)
      requires ValidHistory(Forum(map[], map[], {}), HistoryOfAll(files))
      modifies this
      ensures code == 0 ==> Replay(events) == IndexOf(ForumOf(Forum(map[], map[], {}), HistoryOfAll(files)))
      ensures Distinct(Deletions(events)) && (code == 0 <==> forall i | 0 <= i < |files| :: IsSound(files[i]))
    {
      ghost var f := Forum(map[], map[], {});
      for i := 0 to |files|
        invariant ValidHistory(f, HistoryOfAll(files[i..])) && DeletedOnce() && Tracks(f)
        invariant ForumOf(f, HistoryOfAll(files[i..])) == ForumOf(Forum(map[], map[], {}), HistoryOfAll(files))
        invariant forall k | 0 <= k < i :: IsSound(files[k])
      {
        assert files[i..][0] == files[i] && files[i..][1..] == files[i + 1..];
        JoinedHistory(f, HistoryOf(Blobs(files[i])), HistoryOfAll(files[i + 1..]));
        var result := Perform(files[i], f);
        if !result { return 1; }
        f := ForumOf(f, HistoryOf(Blobs(files[i])));
      }
      assert files[|files|..] == [];
      code := 0;
    }
  }

  ghost predicate AllFilesDecodable(files: seq<Bytes>) {
    forall i | 0 <= i < |files| :: AllDecodable(Blobs(files[i]))
  }

  /** Nothing in the file is refused and it does not end too early. */
  ghost predicate IsSound(file: Bytes)
    requires AllDecodable(Blobs(file))
  {
    !SomeRefused(Blobs(file)) && !EndsTooEarly(Unread(file))
  }

  ghost function HistoryOfAll(files: seq<Bytes>): seq<LogEvent>
    requires AllFilesDecodable(files)
  {
    if files == [] then [] else HistoryOf(Blobs(files[0])) + HistoryOfAll(files[1..])
  }

  lemma {:induction false} JoinedHistory(f: Forum, first: seq<LogEvent>, rest: seq<LogEvent>)
    requires ValidHistory(f, first + rest)
    ensures ValidHistory(f, first) && ValidHistory(ForumOf(f, first), rest)
    ensures ForumOf(ForumOf(f, first), rest) == ForumOf(f, first + rest)
  {
    hide Accepts, After;
    var all := first + rest;
    if rest == [] {
      assert all == first;
    } else {
      assert all[..|all| - 1] == first + rest[..|rest| - 1];
      JoinedHistory(f, first, rest[..|rest| - 1]);
    }
  }
}

/** The extracted events as files: JSON arrays of a limited number of events each. */
module SearchFiles {
  import opened Wrappers
  import opened BlobFraming
  import opened JsonText

  function Joined(texts: seq<Bytes>, first: bool): Bytes {
    if texts == [] then [] else Separator(first) + (texts[0] + Joined(texts[1..], false))
  }

  lemma {:induction false} JoinedAppend(texts: seq<Bytes>, text: Bytes, first: bool)
    ensures Joined(texts + [text], first) == Joined(texts, first) + Separator(first && texts == []) + text
  {
    if texts == [] {
      assert (texts + [text])[1..] == [] && Joined([], false) == [];
    } else {
      assert (texts + [text])[1..] == texts[1..] + [text];
      JoinedAppend(texts[1..], text, false);
    }
  }

  /** What an open file holds, and a complete one. */
  function OpenText(texts: seq<Bytes>): Bytes {
    [91] + Joined(texts, true)
  }

  function FileText(texts: seq<Bytes>): Bytes {
    OpenText(texts) + [93]
  }

  function Flattened(chunks: seq<seq<Bytes>>): seq<Bytes> {
    if chunks == [] then [] else Flattened(chunks[..|chunks| - 1]) + chunks[|chunks| - 1]
  }

  lemma FlattenedAppend(chunks: seq<seq<Bytes>>, chunk: seq<Bytes>)
    ensures Flattened(chunks + [chunk]) == Flattened(chunks) + chunk
  {
    assert (chunks + [chunk])[..|chunks|] == chunks;
  }

  const LARGEST_SIZE := 0xFFFF_FFFF_FFFF_FFFF

  function LimitOf(eventsPerFile: nat): nat {
    if 0 < eventsPerFile then eventsPerFile else LARGEST_SIZE
  }

  class EventFiles {
    const eventsPerFile: nat
    var currentEventsPerFile: nat
    var currentFile: Option<Bytes>
    var closedFiles: seq<Bytes>
    /** The texts in the closed files and in the open one. */
    ghost var chunks: seq<seq<Bytes>>
    ghost var current: seq<Bytes>

    /** Zero means no limit. */
    constructor (eventsPerFile: nat)
      ensures Valid() && Written() == [] && this.eventsPerFile == LimitOf(eventsPerFile)
    {
      this.eventsPerFile := LimitOf(eventsPerFile);
      currentEventsPerFile, currentFile, closedFiles, chunks, current := 0, None, [], [], [];
    }

    /** Every closed file is a complete array of the full number of events. */
    ghost predicate Valid()
      reads this
    {
      && eventsPerFile > 0 && |closedFiles| == |chunks| && currentEventsPerFile == |current| <= eventsPerFile
      && (forall k | 0 <= k < |chunks| :: |chunks[k]| == eventsPerFile && closedFiles[k] == FileText(chunks[k]))
      && currentFile == (if current == [] then None else Some(OpenText(current)))
    }

    /** All texts written so far, in order. */
    ghost function Written(): seq<Bytes>
      reads this
    {
      Flattened(chunks) + current
    }

    method WriteJson(text: Bytes)
      requires Valid()
      modifies this
      ensures Valid() && Written() == old(Written()) + if text == [] then [] else [text]
    {
      if text == [] { return; }
      hide OpenText;
      if currentEventsPerFile >= eventsPerFile {
        FlattenedAppend(chunks, current);
        assert current != [];
        closedFiles := closedFiles + [currentFile.value + [93]];
        chunks := chunks + [current];
        currentFile, currentEventsPerFile, current := None, 0, [];
      }
      var file := if currentFile.None? then [91] else currentFile.value;
      OpenTextAppend(current, text);
      if currentEventsPerFile > 0 { file := file + [COMMA]; }
      currentEventsPerFile := currentEventsPerFile + 1;
      currentFile := Some(file + text);
      current := current + [text];
    }

    /** The destructor closes the last file: all files together hold all events in order, none more than its share. */
    method CloseFile() returns (ghost all: seq<seq<Bytes>>)
      requires Valid()
      modifies this
      ensures |closedFiles| == |all| && Flattened(all) == old(Written())
      ensures forall k | 0 <= k < |all| :: 0 < |all[k]| <= eventsPerFile && closedFiles[k] == FileText(all[k])
      ensures forall k | 0 <= k < |all| - 1 :: |all[k]| == eventsPerFile
    {
      all := chunks;
      if currentFile.None? { return; }
      FlattenedAppend(chunks, current);
      closedFiles := closedFiles + [currentFile.value + [93]];
      all := chunks + [current];
      currentFile, currentEventsPerFile := None, 0;
    }
  }

  lemma OpenTextAppend(texts: seq<Bytes>, text: Bytes)
    ensures OpenText(texts + [text]) == (if texts == [] then [91] else OpenText(texts) + [COMMA]) + text
  {
    JoinedAppend(texts, text, true);
    if texts != [] {
      Regroup([91], Joined(texts, true), [COMMA]);
      Regroup([91], Joined(texts, true) + [COMMA], text);
    }
  }

  function ItemsOf(values: seq<Value>): Items {
    if values == [] then NoItems else Item(values[0], ItemsOf(values[1..]))
  }

  function Texts(values: seq<Value>): seq<Bytes> {
    seq(|values|, i requires 0 <= i < |values| => Canonical(values[i]))
  }

  lemma {:induction false} JoinedIsItems(values: seq<Value>, first: bool)
    ensures Joined(Texts(values), first) == CanonicalItems(ItemsOf(values), first)
  {
    if values != [] {
      assert Texts(values)[1..] == Texts(values[1..]);
      JoinedIsItems(values[1..], false);
    }
  }

  /** A file of canonical event texts is one JSON array, and a parser reads the events back. */
  lemma FileIsArray(values: seq<Value>)
    ensures ParseValue(FileText(Texts(values))) == Read(Plain(Array(ItemsOf(values))), [])
  {
    JoinedIsItems(values, true);
    ParseUndoesWrite(Array(ItemsOf(values)), []);
    assert FileText(Texts(values)) == Canonical(Array(ItemsOf(values))) + [];
  }
}
