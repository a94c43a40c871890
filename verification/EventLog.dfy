/** The byte framing of the event log: prefix, size, checksum, blob, padding to whole words. */
module BlobFraming {
  type Byte = b: int | 0 <= b < 256
  type Bytes = seq<Byte>
  type Checksum = n: int | 0 <= n < 0x1_0000_0000

  function LittleEndian(n: nat, width: nat): Bytes {
    if width == 0 then [] else [n % 256] + LittleEndian(n / 256, width - 1)
  }

  function Number(bytes: Bytes): nat {
    if bytes == [] then 0 else bytes[0] + 256 * Number(bytes[1..])
  }

  function Power256(width: nat): nat {
    if width == 0 then 1 else 256 * Power256(width - 1)
  }

  lemma {:induction false} NumberOfLittleEndian(n: nat, width: nat)
    requires n < Power256(width)
    ensures |LittleEndian(n, width)| == width && Number(LittleEndian(n, width)) == n
  {
    if width > 0 {
      NumberOfLittleEndian(n / 256, width - 1);
      assert LittleEndian(n, width)[1..] == LittleEndian(n / 256, width - 1);
    }
  }

  lemma {:induction false} NumberIsBounded(bytes: Bytes)
    ensures Number(bytes) < Power256(|bytes|)
  {
    if bytes != [] { NumberIsBounded(bytes[1..]); }
  }

  lemma Widths()
    ensures Power256(2) == 0x1_0000 && Power256(4) == 0x1_0000_0000 && Power256(8) == 0x1_0000_0000_0000_0000
  {
    assert Power256(4) == 0x1_0000_0000;
    assert Power256(6) == 0x1_0000_0000_0000;
  }

  const MAGIC_PREFIX := 0xFFFF_FFFF_FFFF_FFFF
  const BLOB_PADDING_BYTES := 8
  const MIN_BLOB_SIZE := 16
  const EVENT_HEADER_SIZE := 8

  function BlobPaddingRequired(size: nat): (padding: nat)
    ensures padding < 8 && (size + padding) % 8 == 0
  {
    var sizeMultiple := size / BLOB_PADDING_BYTES * BLOB_PADDING_BYTES;
    if sizeMultiple < size then BLOB_PADDING_BYTES - (size - sizeMultiple) else 0
  }

  function Zeros(n: nat): Bytes {
    seq(n, _ => 0)
  }

  function Record(crc32: Bytes -> Checksum, blob: Bytes): Bytes {
    LittleEndian(MAGIC_PREFIX, 8) + LittleEndian(|blob| % 0x1_0000_0000, 4) + LittleEndian(crc32(blob), 4)
    + blob + Zeros(BlobPaddingRequired(|blob| % 0x1_0000_0000))
  }

  function Framed(crc32: Bytes -> Checksum, blobs: seq<Bytes>): Bytes {
    if blobs == [] then [] else Framed(crc32, blobs[..|blobs| - 1]) + Record(crc32, blobs[|blobs| - 1])
  }

  /** The size field of the first record, and the same with padding. */
  function BlobSize(bytes: Bytes): nat
    requires |bytes| >= MIN_BLOB_SIZE
  {
    Number(bytes[8..12])
  }

  function PaddedSize(bytes: Bytes): nat
    requires |bytes| >= MIN_BLOB_SIZE
  {
    BlobSize(bytes) + BlobPaddingRequired(BlobSize(bytes))
  }

  /** A reader goes past the first record only when it is there in full. */
  predicate StartsWithRecord(bytes: Bytes) {
    && |bytes| >= MIN_BLOB_SIZE && Number(bytes[..8]) == MAGIC_PREFIX
    && |bytes| - MIN_BLOB_SIZE >= PaddedSize(bytes) && |bytes| - MIN_BLOB_SIZE >= EVENT_HEADER_SIZE
  }

  function FirstBlob(bytes: Bytes): Bytes
    requires StartsWithRecord(bytes)
  {
    bytes[16..16 + BlobSize(bytes)]
  }

  function AfterFirst(bytes: Bytes): Bytes
    requires StartsWithRecord(bytes)
  {
    bytes[16 + PaddedSize(bytes)..]
  }

  /** The blobs a reader visits, and the bytes it leaves unread. */
  function Blobs(bytes: Bytes): seq<Bytes>
    decreases |bytes|
  {
    if StartsWithRecord(bytes) then [FirstBlob(bytes)] + Blobs(AfterFirst(bytes)) else []
  }

  function Unread(bytes: Bytes): Bytes
    decreases |bytes|
  {
    if StartsWithRecord(bytes) then Unread(AfterFirst(bytes)) else bytes
  }

  lemma CutRecord(magic: Bytes, size: Bytes, sum: Bytes, blob: Bytes, padding: Bytes, tail: Bytes)
    requires |magic| == 8 && |size| == |sum| == 4
    ensures var bytes := magic + size + sum + blob + padding + tail;
      && |bytes| == 16 + |blob| + |padding| + |tail| && bytes[..8] == magic && bytes[8..12] == size
      && bytes[16..16 + |blob|] == blob && bytes[16 + |blob| + |padding|..] == tail
  {
  }

  /** Records are whole words, and their fields can be cut out again. */
  lemma RecordParts(crc32: Bytes -> Checksum, blob: Bytes, tail: Bytes)
    requires |blob| < 0x1_0000_0000
    ensures |Record(crc32, blob)| % 8 == 0 && 16 + |blob| <= |Record(crc32, blob)| < 16 + |blob| + 8
    ensures var bytes := Record(crc32, blob) + tail;
      && Number(bytes[..8]) == MAGIC_PREFIX && BlobSize(bytes) == |blob|
      && |Record(crc32, blob)| == 16 + PaddedSize(bytes)
      && bytes[16..16 + |blob|] == blob && bytes[16 + PaddedSize(bytes)..] == tail
  {
    hide LittleEndian, Number, Power256;
    Widths();
    NumberOfLittleEndian(MAGIC_PREFIX, 8);
    NumberOfLittleEndian(|blob|, 4);
    NumberOfLittleEndian(crc32(blob), 4);
    CutRecord(LittleEndian(MAGIC_PREFIX, 8), LittleEndian(|blob|, 4), LittleEndian(crc32(blob), 4), blob,
              Zeros(BlobPaddingRequired(|blob|)), tail);
  }

  lemma PaddingOf(size: nat)
    ensures size + BlobPaddingRequired(size) >= 8 <==> size != 0
    ensures size + BlobPaddingRequired(size) == 0 <==> size == 0
  {
  }

  /** A record is read back exactly, except that a reader stops at an empty blob with nothing behind it. */
  lemma ReadRecord(crc32: Bytes -> Checksum, blob: Bytes, tail: Bytes)
    requires |blob| < 0x1_0000_0000
    ensures var bytes := Record(crc32, blob) + tail;
      if blob == [] && |tail| < 8 then Blobs(bytes) == [] && Unread(bytes) == bytes
      else Blobs(bytes) == [blob] + Blobs(tail) && Unread(bytes) == Unread(tail)
  {
    RecordParts(crc32, blob, tail);
    hide Number, Record, LittleEndian;
    var bytes := Record(crc32, blob) + tail;
    PaddingOf(|blob|);
    hide BlobSize, BlobPaddingRequired;
    assert |bytes| == 16 + PaddedSize(bytes) + |tail| && PaddedSize(bytes) == |blob| + BlobPaddingRequired(|blob|);
    hide PaddedSize;
    assert StartsWithRecord(bytes) <==> blob != [] || |tail| >= 8;
    if StartsWithRecord(bytes) {
      hide StartsWithRecord;
      assert FirstBlob(bytes) == blob && AfterFirst(bytes) == tail;
    }
  }

  lemma {:induction false} FramedAppend(crc32: Bytes -> Checksum, first: Bytes, rest: seq<Bytes>)
    ensures Framed(crc32, [first] + rest) == Record(crc32, first) + Framed(crc32, rest)
  {
    hide Record;
    var all := [first] + rest;
    if rest == [] {
      assert all[..0] == [] && Framed(crc32, []) == [];
    } else {
      FramedAppend(crc32, first, rest[..|rest| - 1]);
      assert all[..|all| - 1] == [first] + rest[..|rest| - 1];
    }
  }

  lemma Regroup(a: Bytes, b: Bytes, c: Bytes)
    ensures a + (b + c) == a + b + c && a + b + [] == a + b
  {
  }

  lemma FramedOneMore(crc32: Bytes -> Checksum, blobs: seq<Bytes>, blob: Bytes)
    ensures Framed(crc32, blobs + [blob]) == Framed(crc32, blobs) + Record(crc32, blob)
  {
    hide Record;
    assert (blobs + [blob])[..|blobs|] == blobs;
  }

  predicate Writable(blobs: seq<Bytes>) {
    forall i | 0 <= i < |blobs| :: |blobs[i]| < 0x1_0000_0000
  }

  lemma NothingToRead()
    ensures Blobs([]) == [] && Unread([]) == []
  {
  }

  /** Reading undoes writing: all blobs come back and nothing is left, exactly when the last blob is not empty. */
  lemma {:induction false} ReadBack(crc32: Bytes -> Checksum, blobs: seq<Bytes>)
    requires Writable(blobs)
    ensures |Framed(crc32, blobs)| % 8 == 0 && (blobs != [] ==> |Framed(crc32, blobs)| >= MIN_BLOB_SIZE)
    ensures Blobs(Framed(crc32, blobs)) == blobs && Unread(Framed(crc32, blobs)) == []
      <==> blobs == [] || blobs[|blobs| - 1] != []
  {
    hide Record, Blobs, Unread;
    if blobs == [] {
      NothingToRead();
    } else {
      var first, rest := blobs[0], blobs[1..];
      assert blobs == [first] + rest;
      FramedAppend(crc32, first, rest);
      ReadBack(crc32, rest);
      ReadRecord(crc32, first, Framed(crc32, rest));
      RecordParts(crc32, first, Framed(crc32, rest));
      if rest == [] {
        assert Framed(crc32, rest) == [];
        NothingToRead();
      }
    }
  }
}

/** Moving the contents of added messages out of the event log into a side file. */
module MessageExtraction {
  import opened BlobFraming

  const ADD_NEW_DISCUSSION_THREAD_MESSAGE := 15
  const UUID_SIZE := 16
  const CONTEXT_SIZE := 8 + UUID_SIZE + 16
  const CONTENT_AT := EVENT_HEADER_SIZE + CONTEXT_SIZE + 2 * UUID_SIZE
  const NEW_BLOB_SIZE := CONTENT_AT + 2 * 4 + 8

  function EventType(blob: Bytes): nat
    requires |blob| >= EVENT_HEADER_SIZE
  {
    Number(blob[..4])
  }

  function Version(blob: Bytes): nat
    requires |blob| >= EVENT_HEADER_SIZE
  {
    Number(blob[4..6])
  }

  function ContextVersion(blob: Bytes): nat
    requires |blob| >= EVENT_HEADER_SIZE
  {
    Number(blob[6..8])
  }

  predicate AddsMessage(blob: Bytes)
    requires |blob| >= EVENT_HEADER_SIZE
  {
    EventType(blob) == ADD_NEW_DISCUSSION_THREAD_MESSAGE && ContextVersion(blob) == 1
  }

  predicate HasInlineMessage(blob: Bytes)
    requires |blob| >= EVENT_HEADER_SIZE
  {
    AddsMessage(blob) && (Version(blob) == 1 || Version(blob) == 3)
  }

  predicate Truncated(blob: Bytes)
    requires |blob| >= EVENT_HEADER_SIZE
  {
    HasInlineMessage(blob) && |blob| - EVENT_HEADER_SIZE < CONTEXT_SIZE
  }

  /** Where the size of an inline message is stored; version 3 has the approval before it. */
  function SizeAt(blob: Bytes): nat
    requires |blob| >= EVENT_HEADER_SIZE
  {
    if Version(blob) == 3 then CONTENT_AT + 4 else CONTENT_AT
  }

  /** The source reads these fields without looking at the blob's size. */
  predicate Readable(blob: Bytes) {
    |blob| >= EVENT_HEADER_SIZE && (HasInlineMessage(blob) && !Truncated(blob) ==> |blob| >= SizeAt(blob) + 4)
  }

  predicate AllReadable(blobs: seq<Bytes>) {
    forall i | 0 <= i < |blobs| :: Readable(blobs[i])
  }

  predicate HasMessage(blob: Bytes) {
    Readable(blob) && HasInlineMessage(blob) && !Truncated(blob)
  }

  function MessageId(blob: Bytes): Bytes
    requires HasMessage(blob)
  {
    blob[EVENT_HEADER_SIZE + CONTEXT_SIZE..][..UUID_SIZE]
  }

  function ThreadId(blob: Bytes): Bytes
    requires HasMessage(blob)
  {
    blob[EVENT_HEADER_SIZE + CONTEXT_SIZE + UUID_SIZE..][..UUID_SIZE]
  }

  function Approved(blob: Bytes): nat
    requires HasMessage(blob)
  {
    if Version(blob) == 3 then Number(blob[CONTENT_AT..][..4]) else 1
  }

  function MessageSize(blob: Bytes): nat
    requires HasMessage(blob)
  {
    Number(blob[SizeAt(blob)..][..4])
  }

  function Content(blob: Bytes): Bytes
    requires HasMessage(blob)
  {
    blob[SizeAt(blob) + 4..]
  }

  /** What importing an event means: the importer's four versions of an added message, or the blob itself. */
  datatype Event = Message(context: Bytes, approved: bool, content: Bytes) | Other(blob: Bytes)

  function InlineEvent(blob: Bytes): Event
    requires |blob| >= EVENT_HEADER_SIZE
  {
    if HasMessage(blob) && MessageSize(blob) == |Content(blob)|
    then Message(blob[EVENT_HEADER_SIZE..][..CONTEXT_SIZE + 2 * UUID_SIZE], Approved(blob) != 0, Content(blob))
    else Other(blob)
  }

  /** Versions 2 and 4: size and offset into the side file. */
  function StoredEvent(blob: Bytes, side: Bytes, approved: nat, sizeAt: nat): Event
    requires sizeAt >= CONTENT_AT
  {
    if |blob| != sizeAt + 12 then Other(blob)
    else
      var size, offset := Number(blob[sizeAt..][..4]), Number(blob[sizeAt + 4..][..8]);
      if offset + size <= |side|
      then Message(blob[EVENT_HEADER_SIZE..][..CONTEXT_SIZE + 2 * UUID_SIZE], approved != 0, side[offset..][..size])
      else Other(blob)
  }

  function Meaning(blob: Bytes, side: Bytes): Event
    requires |blob| >= EVENT_HEADER_SIZE
  {
    if !AddsMessage(blob) then Other(blob)
    else if Version(blob) == 2 then StoredEvent(blob, side, 1, CONTENT_AT)
    else if Version(blob) == 4 then
      StoredEvent(blob, side, if |blob| >= CONTENT_AT + 4 then Number(blob[CONTENT_AT..][..4]) else 0, CONTENT_AT + 4)
    else InlineEvent(blob)
  }

  /** An event the importer accepts: whenever a message is added, its content is there. */
  predicate WellFormed(blob: Bytes, side: Bytes) {
    |blob| >= EVENT_HEADER_SIZE && (AddsMessage(blob) && 1 <= Version(blob) <= 4 ==> Meaning(blob, side).Message?)
  }

  predicate AllWellFormed(blobs: seq<Bytes>, side: Bytes) {
    forall i | 0 <= i < |blobs| :: WellFormed(blobs[i], side)
  }

  lemma WellFormedIsReadable(blob: Bytes, side: Bytes)
    requires WellFormed(blob, side)
    ensures Readable(blob) && !Truncated(blob)
    ensures HasInlineMessage(blob) ==> HasMessage(blob) && MessageSize(blob) == |Content(blob)|
  {
  }

  /** The last added message of each thread. */
  function LatestOf(latest: map<Bytes, Bytes>, blobs: seq<Bytes>): map<Bytes, Bytes> {
    if blobs == [] then latest
    else
      var front, blob := LatestOf(latest, blobs[..|blobs| - 1]), blobs[|blobs| - 1];
      if HasMessage(blob) then front[ThreadId(blob) := MessageId(blob)] else front
  }

  predicate IsLatest(latest: map<Bytes, Bytes>, blob: Bytes)
    requires HasMessage(blob)
  {
    ThreadId(blob) in latest && latest[ThreadId(blob)] == MessageId(blob)
  }

  predicate MovesOut(latest: map<Bytes, Bytes>, blob: Bytes) {
    HasMessage(blob) && !IsLatest(latest, blob)
  }

  /** The version 4 event: the same context and ids, then approval, size and offset. */
  function Shortened(blob: Bytes, offset: nat): Bytes
    requires HasMessage(blob)
  {
    LittleEndian(EventType(blob), 4) + LittleEndian(4, 2) + LittleEndian(ContextVersion(blob), 2)
    + blob[EVENT_HEADER_SIZE..][..CONTEXT_SIZE + 2 * UUID_SIZE]
    + LittleEndian(Approved(blob), 4) + LittleEndian(MessageSize(blob), 4) + LittleEndian(offset, 8)
  }

  /** The events written, the bytes appended to the side file, and the exit code. */
  datatype Extraction = Extraction(events: seq<Bytes>, messages: Bytes, result: int)

  /** Extraction of one more blob. */
  function Extended(latest: map<Bytes, Bytes>, start: nat, front: Extraction, blob: Bytes): Extraction
    requires Readable(blob)
  {
    if front.result != 0 || Truncated(blob) then front
    else if !MovesOut(latest, blob) then front.(events := front.events + [blob])
    else if |Content(blob)| != MessageSize(blob) then front.(result := 2)
    else Extraction(front.events + [Shortened(blob, start + |front.messages|)], front.messages + Content(blob), 0)
  }

  function Extract(latest: map<Bytes, Bytes>, start: nat, blobs: seq<Bytes>): Extraction
    requires AllReadable(blobs)
  {
    if blobs == [] then Extraction([], [], 0)
    else
      Extended(latest, start, Extract(latest, start, blobs[..|blobs| - 1]), blobs[|blobs| - 1])
  }

  lemma ExtractOneMore(latest: map<Bytes, Bytes>, start: nat, blobs: seq<Bytes>, blob: Bytes)
    requires AllReadable(blobs) && Readable(blob)
    ensures AllReadable(blobs + [blob])
    ensures Extract(latest, start, blobs + [blob]) == Extended(latest, start, Extract(latest, start, blobs), blob)
  {
    hide Readable;
    assert (blobs + [blob])[..|blobs|] == blobs;
  }

  lemma LatestOneMore(latest: map<Bytes, Bytes>, blobs: seq<Bytes>, blob: Bytes)
    ensures LatestOf(latest, blobs + [blob]) == LatestOf(LatestOf(latest, blobs), [blob])
  {
    hide HasMessage;
    assert (blobs + [blob])[..|blobs|] == blobs && [blob][..0] == [];
  }

  lemma {:induction false} ExtractStops(latest: map<Bytes, Bytes>, start: nat, blobs: seq<Bytes>, rest: seq<Bytes>)
    requires AllReadable(blobs + rest) && AllReadable(blobs) && Extract(latest, start, blobs).result != 0
    ensures Extract(latest, start, blobs + rest) == Extract(latest, start, blobs)
  {
    var all := blobs + rest;
    if rest == [] {
      assert all == blobs;
    } else {
      var front := rest[..|rest| - 1];
      assert all[..|all| - 1] == blobs + front;
      assert AllReadable(blobs + front) by {
        assert forall i | 0 <= i < |blobs + front| :: (blobs + front)[i] == all[i];
      }
      ExtractStops(latest, start, blobs, front);
    }
  }

  /** The two passes over the log. */
  datatype Pass = UpdateLatestMessages | ProcessBlobs

  class MessageExtractor {
    const inputData: Bytes
    const skipLatest: bool
    const crc32: Bytes -> Checksum
    var currentOffset: nat
    var eventOutput: Bytes
    var messagesOutput: Bytes
    var latestThreadMessages: map<Bytes, Bytes>

    constructor (inputData: Bytes, messagesFile: Bytes, skipLatest: bool, crc32: Bytes -> Checksum)
      ensures this.inputData == inputData && this.skipLatest == skipLatest && this.crc32 == crc32
      ensures currentOffset == |messagesFile| && messagesOutput == messagesFile
      ensures eventOutput == [] && latestThreadMessages == map[]
    {
      this.inputData, this.skipLatest, this.crc32 := inputData, skipLatest, crc32;
      currentOffset, eventOutput, messagesOutput, latestThreadMessages := |messagesFile|, [], messagesFile, map[];
    }

    method WriteBlob(blob: Bytes)
      modifies `eventOutput
      ensures eventOutput == old(eventOutput) + Record(crc32, blob)
    {
      hide LittleEndian;
      var blobSize := |blob| % 0x1_0000_0000;
      var prefixBuffer := LittleEndian(MAGIC_PREFIX, 8) + LittleEndian(blobSize, 4) + LittleEndian(crc32(blob), 4);
      eventOutput := eventOutput + prefixBuffer;
      eventOutput := eventOutput + blob;
      var paddingNeeded := BlobPaddingRequired(blobSize);
      if paddingNeeded > 0 {
        eventOutput := eventOutput + Zeros(paddingNeeded);
      }
    }

    method UpdateLatest(blob: Bytes)
      requires Readable(blob)
      modifies `latestThreadMessages
      ensures latestThreadMessages == LatestOf(old(latestThreadMessages), [blob])
    {
      assert [blob][..0] == [];
      if HasInlineMessage(blob) {
        if |blob| - EVENT_HEADER_SIZE < CONTEXT_SIZE { return; }
        latestThreadMessages := latestThreadMessages[ThreadId(blob) := MessageId(blob)];
      }
    }

    /** What has been written and appended since the start state is the extraction `x`. */
    ghost predicate Written(x: Extraction, start: nat, events: Bytes, messages: Bytes)
      reads this
    {
      && eventOutput == events + Framed(crc32, x.events) && messagesOutput == messages + x.messages
      && currentOffset == start + |x.messages|
    }

    ghost predicate Progress(done: seq<Bytes>, start: nat, events: Bytes, messages: Bytes)
      requires AllReadable(done)
      reads this
    {
      Written(Extract(latestThreadMessages, start, done), start, events, messages)
    }

    /** Appends the content to the side file and makes the version 4 event that points at it. */
    method MoveContent(blob: Bytes) returns (result: int, newBlob: Bytes)
      requires HasMessage(blob)
      modifies `messagesOutput, `currentOffset
      ensures result == if |Content(blob)| == MessageSize(blob) then 0 else 2
      ensures result == 0 ==> newBlob == Shortened(blob, old(currentOffset))
      ensures messagesOutput == old(messagesOutput) + if result == 0 then Content(blob) else []
      ensures currentOffset == old(currentOffset) + if result == 0 then |Content(blob)| else 0
    {
      hide LittleEndian, Number;
      var messageSize := MessageSize(blob);
      var message := Content(blob);
      newBlob := blob;
      if |message| != messageSize { return 2, newBlob; }
      messagesOutput := messagesOutput + message;
      newBlob := LittleEndian(EventType(blob), 4) + LittleEndian(4, 2) + LittleEndian(ContextVersion(blob), 2);
      newBlob := newBlob + blob[EVENT_HEADER_SIZE..][..CONTEXT_SIZE + 2 * UUID_SIZE];
      newBlob := newBlob + LittleEndian(Approved(blob), 4) + LittleEndian(messageSize, 4)
        + LittleEndian(currentOffset, 8);
      currentOffset := currentOffset + messageSize;
      result := 0;
    }

    method ProcessBlob(blob: Bytes, ghost x: Extraction, ghost start: nat, ghost events: Bytes, ghost messages: Bytes)
        returns (result: int)
      requires Readable(blob) && Written(x, start, events, messages) && x.result == 0
      modifies `eventOutput, `messagesOutput, `currentOffset
      ensures Written(Extended(latestThreadMessages, start, x, blob), start, events, messages)
      ensures result == Extended(latestThreadMessages, start, x, blob).result
    {
      hide Framed, Record, Shortened, Number, LittleEndian, AddsMessage, Content, MessageSize;
      var blobToWrite := blob;
      ghost var moved: Bytes := [];
      if HasInlineMessage(blob) {
        if |blob| - EVENT_HEADER_SIZE < CONTEXT_SIZE { return 0; }
        var messageId, threadId := MessageId(blob), ThreadId(blob);
        if threadId !in latestThreadMessages || latestThreadMessages[threadId] != messageId {
          var status, newBlob := MoveContent(blob);
          if status != 0 { return status; }
          blobToWrite, moved := newBlob, Content(blob);
        }
      }
      assert Extended(latestThreadMessages, start, x, blob)
        == Extraction(x.events + [blobToWrite], x.messages + moved, 0);
      hide Extended, HasInlineMessage, Truncated, MovesOut, HasMessage;
      FramedOneMore(crc32, x.events, blobToWrite);
      Regroup(events, Framed(crc32, x.events), Record(crc32, blobToWrite));
      Regroup(messages, x.messages, moved);
      WriteBlob(blobToWrite);
      result := 0;
    }

    /** The state after visiting `done` without an error, from the given start state. */
    ghost predicate Visited(pass: Pass, done: seq<Bytes>, latest: map<Bytes, Bytes>, start: nat, events: Bytes,
        messages: Bytes)
      requires AllReadable(done)
      reads this
    {
      match pass
      case UpdateLatestMessages =>
        && latestThreadMessages == LatestOf(latest, done)
        && eventOutput == events && messagesOutput == messages && currentOffset == start
      case ProcessBlobs =>
        && latestThreadMessages == latest && Progress(done, start, events, messages)
        && Extract(latest, start, done).result == 0
    }

    lemma NothingVisited(pass: Pass)
      ensures Visited(pass, [], latestThreadMessages, currentOffset, eventOutput, messagesOutput)
    {
    }

    /** The function the iteration calls on each blob. */
    method Visit(pass: Pass, blob: Bytes, ghost done: seq<Bytes>,
        ghost latest: map<Bytes, Bytes>, ghost start: nat, ghost events: Bytes, ghost messages: Bytes)
        returns (result: int)
      requires AllReadable(done) && Readable(blob) && Visited(pass, done, latest, start, events, messages)
      modifies this
      ensures AllReadable(done + [blob])
      ensures result == 0 ==> Visited(pass, done + [blob], latest, start, events, messages)
      ensures result != 0 ==>
        && pass.ProcessBlobs? && latestThreadMessages == latest && Progress(done + [blob], start, events, messages)
        && result == Extract(latest, start, done + [blob]).result
    {
      ExtractOneMore(latest, start, done, blob);
      LatestOneMore(latest, done, blob);
      hide Extract, Extended, LatestOf, Readable, Written, AllReadable;
      match pass {
        case UpdateLatestMessages =>
          UpdateLatest(blob);
          result := 0;
        case ProcessBlobs =>
          result := ProcessBlob(blob, Extract(latest, start, done), start, events, messages);
      }
    }

    method IterateBlobs(pass: Pass) returns (result: int)
      requires AllReadable(Blobs(inputData))
      modifies this
      ensures result == 0 ==>
        Visited(pass, Blobs(inputData), old(latestThreadMessages), old(currentOffset), old(eventOutput),
          old(messagesOutput))
      ensures result != 0 ==>
        && pass.ProcessBlobs? && latestThreadMessages == old(latestThreadMessages)
        && Progress(Blobs(inputData), old(currentOffset), old(eventOutput), old(messagesOutput))
        && result == Extract(latestThreadMessages, old(currentOffset), Blobs(inputData)).result
    {
      NothingVisited(pass);
      hide Extract, Readable, Number, Visited, Written;
      var data := inputData;
      ghost var done: seq<Bytes> := [];
      while |data| > 0
        invariant Blobs(inputData) == done + Blobs(data) && AllReadable(done)
        invariant Visited(pass, done, old(latestThreadMessages), old(currentOffset), old(eventOutput),
          old(messagesOutput))
        decreases |data|
      {
        if |data| < MIN_BLOB_SIZE { break; }
        var magic := Number(data[..8]);
        if magic != MAGIC_PREFIX { break; }
        var blobSize := Number(data[8..12]);
        var blobSizeWithPadding := blobSize + BlobPaddingRequired(blobSize);
        var rest := data[16..];
        if |rest| < blobSizeWithPadding { break; }
        if |rest| < EVENT_HEADER_SIZE { break; }
        assert StartsWithRecord(data);
        var blob := rest[..blobSize];
        assert blob == FirstBlob(data) && rest[blobSizeWithPadding..] == AfterFirst(data);
        assert Readable(blob) by { assert blob == Blobs(inputData)[|done|]; }
        ghost var after := Blobs(AfterFirst(data));
        assert Blobs(inputData) == done + [blob] + after;
        result := Visit(pass, blob, done, old(latestThreadMessages), old(currentOffset), old(eventOutput),
          old(messagesOutput));
        if result != 0 {
          ExtractStops(latestThreadMessages, old(currentOffset), done + [blob], after);
          return;
        }
        data := rest[blobSizeWithPadding..];
        done := done + [blob];
      }
      assert Blobs(data) == [];
      assert done == Blobs(inputData);
      result := 0;
    }

    /** The whole run over one log file. */
    method Perform() returns (result: int)
      requires AllReadable(Blobs(inputData)) && latestThreadMessages == map[]
      modifies this
      ensures latestThreadMessages == if skipLatest then LatestOf(map[], Blobs(inputData)) else map[]
      ensures Progress(Blobs(inputData), old(currentOffset), old(eventOutput), old(messagesOutput))
      ensures result == Extract(latestThreadMessages, old(currentOffset), Blobs(inputData)).result
    {
      if skipLatest {
        result := IterateBlobs(UpdateLatestMessages);
        if result != 0 { return; }
      }
      result := IterateBlobs(ProcessBlobs);
    }
  }
}
