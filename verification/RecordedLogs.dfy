/** Message extraction on the logs the server writes: every field is read from where it was written. */
module RecordedExtraction {
  import opened BlobFraming
  import opened EventRecords
  import opened MessageExtraction
  import opened ExtractionMeaning

  lemma OtherFields(r: LogRecord)
    requires IsValid(r) && !r.event.AddNewDiscussionThreadMessage?
    ensures var b := Encoded(r); |b| >= EVENT_HEADER_SIZE && !AddsMessage(b) && Readable(b) && !HasMessage(b)
  {
    RecordFront(r);
    hide Number, Encoded;
  }

  lemma CutIds(front: Bytes, id: Uuid, threadId: Uuid, rest: Bytes)
    requires |front| == 48
    ensures var b := front + (id + threadId + rest);
      |b| == 80 + |rest| && b[48..][..16] == id && b[48 + 16..][..16] == threadId && b[80..] == rest
  {
    var b := front + (id + threadId + rest);
    assert b[48..] == id + threadId + rest && b[64..] == threadId + rest;
  }

  lemma CutMessage(front: Bytes, id: Uuid, threadId: Uuid, approval: Bytes, content: Bytes)
    requires |front| == 48 && |content| < 0x1_0000_0000
    ensures var b := front + (id + threadId + approval + Prefixed(content));
      && |b| == 84 + |approval| + |content| && b[48..][..16] == id && b[48 + 16..][..16] == threadId
      && b[80..80 + |approval|] == approval && Number(b[80 + |approval|..][..4]) == |content|
      && b[84 + |approval|..] == content
  {
    hide Prefixed, Number;
    var b := front + (id + threadId + approval + Prefixed(content));
    CutIds(front, id, threadId, approval + Prefixed(content));
    assert b == front + (id + threadId + (approval + Prefixed(content)));
    PrefixedReadBack(front + id + threadId + approval, content, []);
    assert b == front + id + threadId + approval + Prefixed(content) + [];
    assert b[84 + |approval|..] == b[84 + |approval|..][..|content|];
    assert b[80..80 + |approval|] == b[80..][..|approval|];
  }

  lemma ApprovalReadBack(approved: bool)
    ensures |ApprovalBytes(approved)| == 4 && Number(ApprovalBytes(approved)) == if approved then 1 else 0
  {
    Widths();
    NumberOfLittleEndian(if approved then 1 else 0, 4);
  }

  lemma MessageFront(r: LogRecord)
    requires IsValid(r) && r.event.AddNewDiscussionThreadMessage?
    ensures var b := Encoded(r); |b| >= EVENT_HEADER_SIZE && Version(b) == r.version && HasInlineMessage(b)
    ensures var m := r.event;
      && |m.content| < 0x1_0000_0000 && |Header(15, r.version) + ContextBytes(r.context)| == 48
      && Encoded(r) == Header(15, r.version) + ContextBytes(r.context)
           + (m.id + m.threadId + (if r.version == 3 then ApprovalBytes(m.approved) else []) + Prefixed(m.content))
  {
    RecordFront(r);
    HeaderWidth(15, r.version, r.context);
    hide Number, Header, ContextBytes, ApprovalBytes;
  }

  /** Each field of an added message is read from where it was written; without an approval it counts as approved. */
  lemma MessageFields(r: LogRecord)
    requires IsValid(r) && r.event.AddNewDiscussionThreadMessage?
    ensures var b, m := Encoded(r), r.event;
      && HasMessage(b) && MessageId(b) == m.id && ThreadId(b) == m.threadId
      && Approved(b) == (if r.version == 1 || m.approved then 1 else 0)
      && MessageSize(b) == |m.content| && Content(b) == m.content
  {
    hide Number, Header, ContextBytes, Encoded, HasInlineMessage, Version, ApprovalBytes, Prefixed;
    MessageFront(r);
    var m := r.event;
    var approval := if r.version == 3 then ApprovalBytes(m.approved) else [];
    ApprovalReadBack(m.approved);
    CutMessage(Header(15, r.version) + ContextBytes(r.context), m.id, m.threadId, approval, m.content);
    if r.version == 3 { assert Encoded(r)[80..][..4] == Encoded(r)[80..84]; }
  }

  lemma Regrouped(h: Bytes, c: Bytes, i: Bytes, t: Bytes, a: Bytes, n: Bytes, o: Bytes)
    ensures h + (c + (i + t)) + a + n + o == h + c + (i + t + a + n + o)
  {
  }

  /** Context and ids stand together, as they are copied. */
  lemma KeptPart(r: LogRecord)
    requires IsValid(r) && r.event.AddNewDiscussionThreadMessage?
    ensures var b, m := Encoded(r), r.event;
      |b| >= 80 && b[8..][..72] == ContextBytes(r.context) + (m.id + m.threadId)
  {
    RecordFront(r);
    MessageParts(r);
    hide Number, ContextBytes, Encoded, Body;
    var b := Encoded(r);
    assert b[8..][..72] == b[8..48] + (b[48..][..16] + b[64..][..16]);
  }

  /** The short form of an added message is its fourth version, field by field. */
  lemma ShortForm(r: LogRecord, offset: nat)
    requires IsValid(r) && r.event.AddNewDiscussionThreadMessage?
    ensures HasMessage(Encoded(r))
    ensures var m := r.event;
      Shortened(Encoded(r), offset)
      == StoredMessage(r.context, m.id, m.threadId, r.version == 1 || m.approved, |m.content|, offset)
  {
    hide Number, ContextBytes, Encoded, Readable, Truncated, MessageId, ThreadId, Approved, MessageSize, Content;
    hide LittleEndian;
    MessageFields(r);
    MessageFront(r);
    KeptPart(r);
    var m := r.event;
    Regrouped(Header(15, 4), ContextBytes(r.context), m.id, m.threadId, ApprovalBytes(r.version == 1 || m.approved),
      LittleEndian(|m.content|, 4), LittleEndian(offset, 8));
  }

  lemma MessageParts(r: LogRecord)
    requires IsValid(r) && r.event.AddNewDiscussionThreadMessage?
    ensures var b, m := Encoded(r), r.event; |b| >= 80 && b[48..][..16] == m.id && b[64..][..16] == m.threadId
  {
    MessageFront(r);
    var m := r.event;
    CutMessage(Header(15, r.version) + ContextBytes(r.context), m.id, m.threadId,
      if r.version == 3 then ApprovalBytes(m.approved) else [], m.content);
    hide Number, Encoded;
  }

  /** What importing an added message means. */
  lemma MessageMeaning(r: LogRecord, side: Bytes)
    requires IsValid(r) && r.event.AddNewDiscussionThreadMessage?
    ensures var b, m := Encoded(r), r.event;
      && WellFormed(b, side)
      && Meaning(b, side)
         == Message(ContextBytes(r.context) + (m.id + m.threadId), r.version == 1 || m.approved, m.content)
  {
    hide Number, ContextBytes, Encoded, MessageId, ThreadId, Approved, MessageSize, Content;
    MessageFields(r);
    MessageFront(r);
    KeptPart(r);
  }

  lemma CutBehindIds(head: Bytes, context: Bytes, id: Uuid, threadId: Uuid, approval: Bytes, size: Bytes, offset: Bytes)
    requires |head| == 8 && |context| == 40 && |size| == 4 && |offset| == 8
    ensures var b := head + context + (id + threadId + approval + size + offset);
      var at := 80 + |approval|;
      && |b| == at + 12 && b[..8] == head && b[8..][..72] == context + (id + threadId) && b[80..at] == approval
      && b[at..][..4] == size && b[at + 4..][..8] == offset
  {
  }

  lemma CutStored(kind: nat, version: nat, c: Context, id: Uuid, threadId: Uuid, approval: Bytes, size: nat,
      offset: nat)
    requires kind < 0x1_0000_0000 && version < 0x1_0000 && size < 0x1_0000_0000 && offset < 0x1_0000_0000_0000_0000
    ensures var b := Header(kind, version) + ContextBytes(c)
        + (id + threadId + approval + LittleEndian(size, 4) + LittleEndian(offset, 8));
      var at := 80 + |approval|;
      && |b| == at + 12 && Number(b[..4]) == kind && Number(b[4..6]) == version && Number(b[6..8]) == 1
      && b[8..][..72] == ContextBytes(c) + (id + threadId) && b[80..at] == approval
      && Number(b[at..][..4]) == size && Number(b[at + 4..][..8]) == offset
  {
    hide LittleEndian, Number, Power256, Header, ContextBytes;
    Widths();
    HeaderWidth(kind, version, c);
    NumberOfLittleEndian(size, 4);
    NumberOfLittleEndian(offset, 8);
    var head, context := Header(kind, version), ContextBytes(c);
    var rest := id + threadId + approval + LittleEndian(size, 4) + LittleEndian(offset, 8);
    HeaderReadBack(kind, version, context + rest);
    CutBehindIds(head, context, id, threadId, approval, LittleEndian(size, 4), LittleEndian(offset, 8));
    assert head + context + rest == head + (context + rest);
  }

  /** What a stored message means: its content is the named part of the side file, if there is such a part. */
  lemma StoredMeaning(c: Context, id: Uuid, threadId: Uuid, approved: bool, size: nat, offset: nat, side: Bytes)
    requires size < 0x1_0000_0000 && offset < 0x1_0000_0000_0000_0000
    ensures var b := StoredMessage(c, id, threadId, approved, size, offset);
      && |b| >= EVENT_HEADER_SIZE
      && Meaning(b, side)
         == if offset + size > |side| then Other(b)
            else Message(ContextBytes(c) + (id + threadId), approved, side[offset..][..size])
    ensures var b := FirstStoredMessage(c, id, threadId, size, offset);
      && |b| >= EVENT_HEADER_SIZE
      && Meaning(b, side)
         == if offset + size > |side| then Other(b)
            else Message(ContextBytes(c) + (id + threadId), true, side[offset..][..size])
  {
    hide LittleEndian, Number, Header, ContextBytes, ApprovalBytes, InlineEvent;
    ApprovalReadBack(approved);
    CutStored(15, 4, c, id, threadId, ApprovalBytes(approved), size, offset);
    CutStored(15, 2, c, id, threadId, [], size, offset);
    assert id + threadId + [] == id + threadId;
    var b := StoredMessage(c, id, threadId, approved, size, offset);
    assert b[80..][..4] == b[80..84];
  }

  predicate DistinctIds(log: seq<LogRecord>) {
    forall i, j | 0 <= i < j < |log|
      && log[i].event.AddNewDiscussionThreadMessage? && log[j].event.AddNewDiscussionThreadMessage? ::
      log[i].event.id != log[j].event.id
  }

  /** No later record adds a message to the same thread. */
  predicate LastOfItsThread(log: seq<LogRecord>, i: nat)
    requires i < |log| && log[i].event.AddNewDiscussionThreadMessage?
  {
    forall j | i < j < |log| && log[j].event.AddNewDiscussionThreadMessage? ::
      log[j].event.threadId != log[i].event.threadId
  }

  /** Record `j` is the last one to add a message to the thread of record `i`, and that message has the same id. */
  predicate SameAsLast(log: seq<LogRecord>, i: nat, j: nat)
    requires i < |log| && log[i].event.AddNewDiscussionThreadMessage?
  {
    && j < |log| && log[j].event.AddNewDiscussionThreadMessage? && LastOfItsThread(log, j)
    && log[j].event.threadId == log[i].event.threadId && log[j].event.id == log[i].event.id
  }

  /** Whether a record is to be left as it is. */
  ghost predicate Stays(log: seq<LogRecord>, i: nat, skipLatest: bool)
    requires i < |log|
  {
    log[i].event.AddNewDiscussionThreadMessage? ==> skipLatest && exists j: nat :: SameAsLast(log, i, j)
  }

  /** When no id is used twice, exactly the last message of each thread is left where it is. */
  lemma StaysWhenDistinct(log: seq<LogRecord>, i: nat, skipLatest: bool)
    requires DistinctIds(log) && i < |log|
    ensures Stays(log, i, skipLatest)
      <==> (log[i].event.AddNewDiscussionThreadMessage? ==> skipLatest && LastOfItsThread(log, i))
  {
    if log[i].event.AddNewDiscussionThreadMessage? && LastOfItsThread(log, i) {
      assert SameAsLast(log, i, i);
    }
  }

  /** The fourth version of the message, pointing at its content in the side file. */
  predicate IsStoredAt(r: LogRecord, written: Bytes, side: Bytes, offset: nat) {
    r.event.AddNewDiscussionThreadMessage?
    && var m := r.event;
    && offset + |m.content| <= |side| && side[offset..][..|m.content|] == m.content
    && written == StoredMessage(r.context, m.id, m.threadId, r.version == 1 || m.approved, |m.content|, offset)
  }

  function ContentSize(log: seq<LogRecord>): nat {
    if log == [] then 0
    else
      var r := log[|log| - 1];
      ContentSize(log[..|log| - 1]) + if r.event.AddNewDiscussionThreadMessage? then |r.event.content| else 0
  }

  lemma BlobFacts(r: LogRecord, side: Bytes)
    requires IsValid(r)
    ensures var b := Encoded(r);
      && |b| >= EVENT_HEADER_SIZE && Readable(b) && !Truncated(b) && WellFormed(b, side)
      && (HasMessage(b) <==> r.event.AddNewDiscussionThreadMessage?)
      && (HasMessage(b) ==> MessageId(b) == r.event.id && ThreadId(b) == r.event.threadId && Version(b) != 4
                            && Content(b) == r.event.content)
  {
    RecordFront(r);
    hide Number, Encoded, Body, ContextBytes, Meaning;
    if r.event.AddNewDiscussionThreadMessage? {
      MessageFields(r);
      MessageFront(r);
      MessageMeaning(r, side);
    } else {
      OtherFields(r);
    }
  }

  /** What a log of records looks like to the tool. */
  lemma LogFacts(log: seq<LogRecord>, side: Bytes)
    requires AllValid(log)
    ensures var blobs := EncodedAll(log);
      && AllReadable(blobs) && AllWellFormed(blobs, side) && NoneTruncated(blobs)
      && (forall i | 0 <= i < |log| :: HasMessage(blobs[i]) <==> log[i].event.AddNewDiscussionThreadMessage?)
      && (forall i | 0 <= i < |log| && HasMessage(blobs[i]) ::
            && MessageId(blobs[i]) == log[i].event.id && ThreadId(blobs[i]) == log[i].event.threadId
            && Version(blobs[i]) != 4 && Content(blobs[i]) == log[i].event.content)
  {
    hide Encoded, HasMessage, MessageId, ThreadId, Version, Content, WellFormed, Readable, Truncated;
    forall i | 0 <= i < |log| ensures Readable(EncodedAll(log)[i]) { BlobFacts(log[i], side); }
    forall i | 0 <= i < |log|
      ensures var b := EncodedAll(log)[i];
        && |b| >= EVENT_HEADER_SIZE && Readable(b) && !Truncated(b) && WellFormed(b, side)
        && (HasMessage(b) <==> log[i].event.AddNewDiscussionThreadMessage?)
        && (HasMessage(b) ==>
              MessageId(b) == log[i].event.id && ThreadId(b) == log[i].event.threadId && Version(b) != 4
              && Content(b) == log[i].event.content)
    {
      BlobFacts(log[i], side);
    }
  }

  lemma {:induction false} ContentBound(log: seq<LogRecord>, latest: map<Bytes, Bytes>, start: nat)
    requires AllValid(log)
    ensures AllReadable(EncodedAll(log))
    ensures |Extract(latest, start, EncodedAll(log)).messages| <= ContentSize(log)
  {
    LogFacts(log, []);
    hide Encoded, HasMessage, Content, Readable, Truncated, Shortened, IsLatest, MessageSize;
    if log != [] {
      var front := log[..|log| - 1];
      assert EncodedAll(log)[..|log| - 1] == EncodedAll(front);
      ContentBound(front, latest, start);
    }
  }

  lemma StoredForm(r: LogRecord, side: Bytes, all: Bytes, offset: nat)
    requires IsValid(r) && r.event.AddNewDiscussionThreadMessage? && offset < 0x1_0000_0000_0000_0000
    ensures HasMessage(Encoded(r))
    ensures var b := Shortened(Encoded(r), offset);
      |b| >= EVENT_HEADER_SIZE && Version(b) == 4 && |Encoded(r)| >= EVENT_HEADER_SIZE
      && (Meaning(b, all) == Meaning(Encoded(r), side) ==> IsStoredAt(r, b, all, offset))
  {
    MessageFields(r);
    MessageMeaning(r, side);
    ShortForm(r, offset);
    ShortenedParts(Encoded(r), offset);
    hide Number, Encoded, Shortened, StoredMessage, ContextBytes, MessageId, ThreadId, Content, HasMessage, WellFormed;
    hide InlineEvent;
  }

  /** The latest messages as the tool sees them. */
  lemma LatestAsMeant(log: seq<LogRecord>, i: nat)
    requires AllValid(log) && i < |log| && log[i].event.AddNewDiscussionThreadMessage?
    ensures HasMessage(EncodedAll(log)[i])
    ensures IsLatest(LatestOf(map[], EncodedAll(log)), EncodedAll(log)[i]) <==> exists j: nat :: SameAsLast(log, i, j)
  {
    LogFacts(log, []);
    hide Encoded, HasMessage, MessageId, ThreadId, Version, Content, AllWellFormed, NoneTruncated, AllReadable;
    var blobs, m := EncodedAll(log), log[i].event;
    var k := LatestComesFromLast(blobs, m.threadId);
    assert HasMessage(blobs[i]) && ThreadId(blobs[i]) == m.threadId;
    assert m.threadId in LatestOf(map[], blobs);
    hide LatestOf;
    assert LastOfItsThread(log, k) by {
      forall j | k < j < |log| && log[j].event.AddNewDiscussionThreadMessage?
        ensures log[j].event.threadId != log[k].event.threadId
      {
        assert HasMessage(blobs[j]) && ThreadId(blobs[j]) != ThreadId(blobs[k]);
      }
    }
    if log[k].event.id == m.id { assert SameAsLast(log, i, k); }
    forall j: nat | SameAsLast(log, i, j) ensures j == k {
      assert HasMessage(blobs[j]) && ThreadId(blobs[j]) == m.threadId;
    }
  }

  lemma MeaningAt(events: seq<Bytes>, blobs: seq<Bytes>, all: Bytes, side: Bytes, i: nat)
    requires |events| == |blobs| && i < |blobs|
    requires forall k | 0 <= k < |events| :: |events[k]| >= EVENT_HEADER_SIZE
    requires forall k | 0 <= k < |blobs| :: |blobs[k]| >= EVENT_HEADER_SIZE
    requires Meanings(events, all) == Meanings(blobs, side)
    ensures Meaning(events[i], all) == Meaning(blobs[i], side)
  {
    hide Meaning;
    assert Meanings(events, all)[i] == Meanings(blobs, side)[i];
  }

  /** Whatever the server has logged: every record comes out as it was, or as the fourth version pointing at its
      content, and the latter are all added messages or, if the latest are skipped, those that are not the last of
      their thread. */
  lemma RecordedLogIsExtracted(log: seq<LogRecord>, side: Bytes, skipLatest: bool, i: nat)
    requires AllValid(log) && |side| + ContentSize(log) < 0x1_0000_0000_0000_0000 && i < |log|
    ensures AllReadable(EncodedAll(log))
    ensures var latest := if skipLatest then LatestOf(map[], EncodedAll(log)) else map[];
      var x := Extract(latest, |side|, EncodedAll(log));
      && x.result == 0 && |x.events| == |log|
      && if Stays(log, i, skipLatest) then x.events[i] == Encoded(log[i])
         else exists offset: nat :: IsStoredAt(log[i], x.events[i], side + x.messages, offset)
  {
    hide Encoded, Extract, MessageId, ThreadId, Version, Content, NoneTruncated, WellFormed, Readable, Shortened;
    hide LatestOf, IsStoredAt, Meaning, SameAsLast, Meanings, HasMessage, IsValid;
    LogFacts(log, side);
    var blobs := EncodedAll(log);
    var latest := if skipLatest then LatestOf(map[], blobs) else map[];
    ContentBound(log, latest, |side|);
    var x := Extract(latest, |side|, blobs);
    ExtractPreservesMeaning(latest, side, blobs);
    var offset := EventAt(latest, |side|, blobs, i);
    if log[i].event.AddNewDiscussionThreadMessage? {
      LatestAsMeant(log, i);
      if !Stays(log, i, skipLatest) {
        MeaningAt(x.events, blobs, side + x.messages, side, i);
        StoredForm(log[i], side, side + x.messages, offset);
        assert IsStoredAt(log[i], x.events[i], side + x.messages, offset);
      }
    }
  }

  /** The whole run over the file of such a log. */
  method ExtractLog(log: seq<LogRecord>, messagesFile: Bytes, skipLatest: bool, crc32: Bytes -> Checksum)
      returns (result: int, eventsFile: Bytes, newMessagesFile: Bytes, ghost written: seq<Bytes>)
    requires AllValid(log) && |messagesFile| + ContentSize(log) < 0x1_0000_0000_0000_0000
    ensures result == 0 && eventsFile == Framed(crc32, written) && |written| == |log| && messagesFile <= newMessagesFile
    ensures forall i | 0 <= i < |log| && Stays(log, i, skipLatest) :: written[i] == Encoded(log[i])
    ensures forall i | 0 <= i < |log| && !Stays(log, i, skipLatest) ::
      exists offset: nat :: IsStoredAt(log[i], written[i], newMessagesFile, offset)
  {
    hide Encoded, Extract, Readable, Framed, Blobs, LatestOf, IsStoredAt, Stays;
    LogFacts(log, messagesFile);
    LogReadBack(crc32, log);
    var extractor := new MessageExtractor(Framed(crc32, EncodedAll(log)), messagesFile, skipLatest, crc32);
    result := extractor.Perform();
    eventsFile, newMessagesFile := extractor.eventOutput, extractor.messagesOutput;
    ghost var latest := if skipLatest then LatestOf(map[], EncodedAll(log)) else map[];
    ghost var x := Extract(latest, |messagesFile|, EncodedAll(log));
    written := x.events;
    if log == [] { NothingExtracted(latest, |messagesFile|); }
    forall i | 0 <= i < |log|
      ensures result == 0 && |written| == |log|
      ensures if Stays(log, i, skipLatest) then written[i] == Encoded(log[i])
              else exists offset: nat :: IsStoredAt(log[i], written[i], newMessagesFile, offset)
    {
      RecordedLogIsExtracted(log, messagesFile, skipLatest, i);
    }
    assert [] + Framed(crc32, written) == Framed(crc32, written);
  }

  lemma NothingExtracted(latest: map<Bytes, Bytes>, start: nat)
    ensures Extract(latest, start, []) == Extraction([], [], 0)
  {
  }
}

/** Search extraction on the logs the server writes: the history is that of the events that were logged. */
module RecordedSearch {
  import opened Wrappers
  import opened BlobFraming
  import opened EventRecords
  import opened SearchExtraction
  import SearchOutput

  /** What an event is to a search engine, if anything. */
  function SearchedEvent(e: EventRecords.Event): Option<LogEvent> {
    match e
    case AddNewDiscussionThread(id, name) => Some(AddNewThread(id, name))
    case ChangeDiscussionThreadName(id, name) => Some(ChangeThreadName(id, name))
    case DeleteDiscussionThread(id) => Some(DeleteThread(id))
    case MergeDiscussionThreads(from, into) => Some(MergeThreads(from, into))
    case AddNewDiscussionThreadMessage(id, threadId, _, content) => Some(AddNewMessage(id, threadId, content))
    case ChangeDiscussionThreadMessageContent(id, content, _) => Some(ChangeMessageContent(id, content))
    case DeleteDiscussionThreadMessage(id) => Some(DeleteMessage(id))
    case OtherEvent(_, _) => None
  }

  lemma CutText(front: Bytes, before: Bytes, text: Bytes, after: Bytes)
    requires |front| == 48 && |text| < 0x1_0000_0000
    ensures var b := front + (before + Prefixed(text) + after); var at := 48 + |before|;
      |b| >= at + 4 + |text| && b[48..48 + |before|] == before && HasText(b, at) && TextOf(b, at) == text
  {
    hide Prefixed;
    PrefixedReadBack(front + before, text, after);
    var b := front + (before + Prefixed(text) + after);
    assert b == front + before + Prefixed(text) + after;
  }

  lemma KnownKinds(r: LogRecord)
    requires FitsFields(r)
    ensures var b := Encoded(r);
      && |b| >= EVENT_HEADER_SIZE && TypeOf(b) == KindOf(r.event)
      && (r.event.OtherEvent? || IsKnown(TypeOf(b)))
      && (r.event.OtherEvent? && KindOf(r.event) !in {8, 9, 11, 12, 15, 16, 19} ==> !IsKnown(TypeOf(b)))
  {
    RecordFront(r);
    hide Number, Encoded;
  }

  /** A known event is refused exactly when its version is none of those with the layout it is read by. */
  lemma SupportedVersions(r: LogRecord)
    requires FitsFields(r) && !r.event.OtherEvent?
    ensures |Encoded(r)| >= EVENT_HEADER_SIZE && (IsRefused(Encoded(r)) <==> !IsValid(r))
  {
    RecordFront(r);
    KnownKinds(r);
    hide Number, Encoded;
  }

  lemma OneText(front: Bytes, id: Uuid, text: Bytes, after: Bytes)
    requires |front| == 48 && |text| < 0x1_0000_0000
    ensures var b := front + (id + Prefixed(text) + after);
      && |b| >= 68 + |text| && b[48..64] == id && HasText(b, 64) && TextOf(b, 64) == text
  {
    hide Prefixed, HasText;
    CutText(front, id, text, after);
  }

  lemma TwoIds(front: Bytes, a: Uuid, b: Uuid, after: Bytes)
    requires |front| == 48
    ensures var all := front + (a + b + after); |all| == 80 + |after| && all[48..64] == a && all[64..80] == b
  {
  }

  lemma MessageText(front: Bytes, id: Uuid, threadId: Uuid, approval: Bytes, text: Bytes)
    requires |front| == 48 && |text| < 0x1_0000_0000
    ensures var b := front + (id + threadId + approval + Prefixed(text)); var at := 80 + |approval|;
      && |b| >= at + 4 + |text| && b[48..64] == id && b[64..80] == threadId && HasText(b, at) && TextOf(b, at) == text
  {
    hide Prefixed, HasText;
    CutText(front, id + threadId + approval, text, []);
    var b := front + (id + threadId + approval + Prefixed(text));
    assert b == front + (id + threadId + approval + Prefixed(text) + []);
    TwoIds(front, id, threadId, approval + Prefixed(text));
    assert b == front + (id + threadId + (approval + Prefixed(text)));
  }

  /** Every event is read back from its record, in each version that is supported. */
  lemma DecodeReadsBack(r: LogRecord)
    requires IsValid(r) && !r.event.OtherEvent?
    ensures var b := Encoded(r);
      && Decodable(b) && IsKnown(TypeOf(b)) && !IsRefused(b) && Some(Decode(b)) == SearchedEvent(r.event)
  {
    RecordFront(r);
    KnownKinds(r);
    SupportedVersions(r);
    HeaderWidth(KindOf(r.event), r.version, r.context);
    var front := Header(KindOf(r.event), r.version) + ContextBytes(r.context);
    hide Number, Header, ContextBytes, Prefixed, HasText, IsRefused;
    match r.event
    case AddNewDiscussionThread(id, name) =>
      OneText(front, id, name, []);
      assert id + Prefixed(name) + [] == id + Prefixed(name);
    case ChangeDiscussionThreadName(id, name) =>
      OneText(front, id, name, []);
      assert id + Prefixed(name) + [] == id + Prefixed(name);
    case DeleteDiscussionThread(id) =>
      assert (front + id)[48..64] == id;
    case MergeDiscussionThreads(from, into) =>
      TwoIds(front, from, into, []);
      assert from + into + [] == from + into;
    case AddNewDiscussionThreadMessage(id, threadId, approved, content) =>
      var approval := if r.version == 3 then ApprovalBytes(approved) else [];
      LittleEndianWidth(if approved then 1 else 0, 4);
      MessageText(front, id, threadId, approval, content);
    case ChangeDiscussionThreadMessageContent(id, content, reason) =>
      OneText(front, id, content, Prefixed(reason));
    case DeleteDiscussionThreadMessage(id) =>
      assert (front + id)[48..64] == id;
  }

  /** The logged events that a search engine is told about, in order. */
  function EventsOf(log: seq<LogRecord>): seq<LogEvent> {
    if log == [] then []
    else
      var e := SearchedEvent(log[0].event);
      (if e.Some? then [e.value] else []) + EventsOf(log[1..])
  }

  lemma RecordFacts(r: LogRecord)
    requires IsValid(r)
    ensures var b := Encoded(r);
      && |b| >= EVENT_HEADER_SIZE && Decodable(b) && !IsRefused(b)
      && (IsKnown(TypeOf(b)) <==> SearchedEvent(r.event).Some?)
      && (IsKnown(TypeOf(b)) ==> Some(Decode(b)) == SearchedEvent(r.event))
  {
    KnownKinds(r);
    hide Encoded, Decode, HasText, IsKnown;
    if r.event.OtherEvent? { assert !IsKnown(TypeOf(Encoded(r))); } else { DecodeReadsBack(r); }
  }

  /** The history read from the bytes of a log is that of the logged events. */
  lemma {:induction false} RecordedHistory(log: seq<LogRecord>)
    requires AllValid(log)
    ensures AllDecodable(EncodedAll(log)) && !SomeRefused(EncodedAll(log))
    ensures HistoryOf(EncodedAll(log)) == EventsOf(log)
  {
    hide Encoded, Decodable, Decode, IsRefused, IsKnown, SearchedEvent;
    forall i | 0 <= i < |log| ensures Decodable(EncodedAll(log)[i]) { RecordFacts(log[i]); }
    if log != [] {
      assert EncodedAll(log)[0] == Encoded(log[0]) && EncodedAll(log)[1..] == EncodedAll(log[1..]);
      RecordedHistory(log[1..]);
      RecordFacts(log[0]);
    }
  }

  lemma RecordedFileIsSound(crc32: Bytes -> Checksum, log: seq<LogRecord>)
    requires AllValid(log)
    ensures var file := Framed(crc32, EncodedAll(log));
      && AllDecodable(Blobs(file)) && HistoryOf(Blobs(file)) == EventsOf(log) && IsSound(file)
  {
    LogReadBack(crc32, log);
    RecordedHistory(log);
    hide Encoded, Blobs, Framed, Unread, HistoryOf, EventsOf, Decodable;
  }

  ghost predicate AllLogsValid(logs: seq<seq<LogRecord>>) {
    forall i | 0 <= i < |logs| :: AllValid(logs[i])
  }

  function FilesOf(crc32: Bytes -> Checksum, logs: seq<seq<LogRecord>>): seq<Bytes> {
    seq(|logs|, i requires 0 <= i < |logs| => Framed(crc32, EncodedAll(logs[i])))
  }

  function EventsOfAll(logs: seq<seq<LogRecord>>): seq<LogEvent> {
    if logs == [] then [] else EventsOf(logs[0]) + EventsOfAll(logs[1..])
  }

  lemma {:induction false} RecordedHistories(crc32: Bytes -> Checksum, logs: seq<seq<LogRecord>>)
    requires AllLogsValid(logs)
    ensures AllFilesDecodable(FilesOf(crc32, logs)) && HistoryOfAll(FilesOf(crc32, logs)) == EventsOfAll(logs)
    ensures forall i | 0 <= i < |logs| :: IsSound(FilesOf(crc32, logs)[i])
  {
    hide Framed, Blobs, EncodedAll, AllValid, AllDecodable, IsSound, HistoryOf, EventsOf;
    forall i | 0 <= i < |logs|
      ensures AllDecodable(Blobs(FilesOf(crc32, logs)[i])) && IsSound(FilesOf(crc32, logs)[i])
    {
      RecordedFileIsSound(crc32, logs[i]);
    }
    if logs != [] {
      assert FilesOf(crc32, logs)[1..] == FilesOf(crc32, logs[1..]);
      RecordedHistories(crc32, logs[1..]);
      RecordedFileIsSound(crc32, logs[0]);
    }
  }

  const NO_FORUM := Forum(map[], map[], {})

  /** From what was logged to the files of a search engine: whoever reads and replays them has the live threads and
      messages, with their latest names and contents, that the logged events lead to. */
  method ExtractLogs(logs: seq<seq<LogRecord>>, crc32: Bytes -> Checksum, behind: nat -> Bytes, eventsPerFile: nat)
      returns (code: int, files: seq<Bytes>, ghost events: seq<SearchEvent>)
    requires AllLogsValid(logs) && ValidHistory(NO_FORUM, EventsOfAll(logs)) && forall i :: 0 in behind(i)
    ensures code == 0 && Replay(events) == IndexOf(ForumOf(NO_FORUM, EventsOfAll(logs)))
    ensures SearchOutput.ReadFiles(files) == Some(SearchOutput.WrittenEvents(events, behind))
    ensures (forall i | 0 <= i < |events| :: SearchOutput.ComesOutRight(events[i], behind(i))) ==>
      && SearchOutput.ReadFiles(files).Some?
      && Replay(SearchOutput.ReadFiles(files).value) == IndexOf(ForumOf(NO_FORUM, EventsOfAll(logs)))
  {
    hide IsSound, AllFilesDecodable, HistoryOfAll, EventsOfAll, ValidHistory, ForumOf, Replay, IndexOf;
    RecordedHistories(crc32, logs);
    code, files, events := SearchOutput.Extract(FilesOf(crc32, logs), behind, eventsPerFile);
  }
}
