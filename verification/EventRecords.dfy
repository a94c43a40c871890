/** What the server writes for an event: a header, the context it happened in, and the event's own fields. */
module EventRecords {
  import opened BlobFraming

  type Uuid = b: Bytes | |b| == 16 witness [0, 0, 0, 0, 0, 0, 0, 0, 0, 0, 0, 0, 0, 0, 0, 0]

  type Time = n: int | 0 <= n < 0x1_0000_0000_0000_0000

  /** When it happened, who did it, and from where. */
  datatype Context = Context(timestamp: Time, performedBy: Uuid, ipAddress: Uuid)

  datatype Event =
    | AddNewDiscussionThread(id: Uuid, name: Bytes)
    | ChangeDiscussionThreadName(id: Uuid, name: Bytes)
    | DeleteDiscussionThread(id: Uuid)
    | MergeDiscussionThreads(from: Uuid, into: Uuid)
    | AddNewDiscussionThreadMessage(id: Uuid, threadId: Uuid, approved: bool, content: Bytes)
    | ChangeDiscussionThreadMessageContent(id: Uuid, content: Bytes, reason: Bytes)
    | DeleteDiscussionThreadMessage(id: Uuid)
    | OtherEvent(kind: nat, body: Bytes)

  datatype LogRecord = LogRecord(event: Event, version: nat, context: Context)

  /** The number of an event's kind in the enumeration that must never change. */
  function KindOf(e: Event): nat {
    match e
    case AddNewDiscussionThread(_, _) => 8
    case ChangeDiscussionThreadName(_, _) => 9
    case DeleteDiscussionThread(_) => 11
    case MergeDiscussionThreads(_, _) => 12
    case AddNewDiscussionThreadMessage(_, _, _, _) => 15
    case ChangeDiscussionThreadMessageContent(_, _, _) => 16
    case DeleteDiscussionThreadMessage(_) => 19
    case OtherEvent(kind, _) => kind
  }

  function Header(kind: nat, version: nat): Bytes {
    LittleEndian(kind, 4) + LittleEndian(version, 2) + LittleEndian(1, 2)
  }

  function ContextBytes(c: Context): Bytes {
    LittleEndian(c.timestamp, 8) + c.performedBy + c.ipAddress
  }

  /** A text with its size in front. */
  function Prefixed(text: Bytes): Bytes {
    LittleEndian(|text|, 4) + text
  }

  function ApprovalBytes(approved: bool): Bytes {
    LittleEndian(if approved then 1 else 0, 4)
  }

  /** The event's own fields; the first version of an added message knows no approval. */
  function Body(e: Event, version: nat): Bytes {
    match e
    case AddNewDiscussionThread(id, name) => id + Prefixed(name)
    case ChangeDiscussionThreadName(id, name) => id + Prefixed(name)
    case DeleteDiscussionThread(id) => id
    case MergeDiscussionThreads(from, into) => from + into
    case AddNewDiscussionThreadMessage(id, threadId, approved, content) =>
      id + threadId + (if version == 3 then ApprovalBytes(approved) else []) + Prefixed(content)
    case ChangeDiscussionThreadMessageContent(id, content, reason) => id + Prefixed(content) + Prefixed(reason)
    case DeleteDiscussionThreadMessage(id) => id
    case OtherEvent(_, body) => body
  }

  function Encoded(r: LogRecord): Bytes {
    Header(KindOf(r.event), r.version) + ContextBytes(r.context) + Body(r.event, r.version)
  }

  /** The fourth version of an added message: its content is elsewhere, at an offset. */
  function StoredMessage(c: Context, id: Uuid, threadId: Uuid, approved: bool, size: nat, offset: nat): Bytes {
    Header(15, 4) + ContextBytes(c)
    + (id + threadId + ApprovalBytes(approved) + LittleEndian(size, 4) + LittleEndian(offset, 8))
  }

  /** The second version, from before there were approvals. */
  function FirstStoredMessage(c: Context, id: Uuid, threadId: Uuid, size: nat, offset: nat): Bytes {
    Header(15, 2) + ContextBytes(c) + (id + threadId + LittleEndian(size, 4) + LittleEndian(offset, 8))
  }

  /** Everything fits the field it is written to. */
  predicate FitsFields(r: LogRecord) {
    |Encoded(r)| < 0x1_0000_0000 && r.version < 0x1_0000 && KindOf(r.event) < 0x1_0000_0000
  }

  /** The kinds and versions with the layout above, in records whose sizes fit their fields. */
  predicate IsValid(r: LogRecord) {
    && FitsFields(r)
    && match r.event
       case AddNewDiscussionThreadMessage(_, _, _, _) => r.version == 1 || r.version == 3
       case OtherEvent(kind, _) => kind !in {8, 9, 11, 12, 15, 16, 19}
       case _ => r.version == 1
  }

  ghost predicate AllValid(log: seq<LogRecord>) {
    forall i | 0 <= i < |log| :: IsValid(log[i])
  }

  function EncodedAll(log: seq<LogRecord>): seq<Bytes> {
    seq(|log|, i requires 0 <= i < |log| => Encoded(log[i]))
  }

  lemma {:induction false} LittleEndianWidth(n: nat, width: nat)
    ensures |LittleEndian(n, width)| == width
  {
    if width > 0 { LittleEndianWidth(n / 256, width - 1); }
  }

  lemma HeaderWidth(kind: nat, version: nat, c: Context)
    ensures |Header(kind, version)| == 8 && |ContextBytes(c)| == 40
  {
    LittleEndianWidth(kind, 4);
    LittleEndianWidth(version, 2);
    LittleEndianWidth(1, 2);
    LittleEndianWidth(c.timestamp, 8);
  }

  /** The header of a record gives back kind, version and the version of the context. */
  lemma HeaderReadBack(kind: nat, version: nat, tail: Bytes)
    requires kind < 0x1_0000_0000 && version < 0x1_0000
    ensures var b := Header(kind, version) + tail;
      |b| >= 8 && Number(b[..4]) == kind && Number(b[4..6]) == version && Number(b[6..8]) == 1
  {
    hide LittleEndian, Number, Power256;
    Widths();
    NumberOfLittleEndian(kind, 4);
    NumberOfLittleEndian(version, 2);
    NumberOfLittleEndian(1, 2);
    var b := Header(kind, version) + tail;
    assert b[..4] == LittleEndian(kind, 4) && b[4..6] == LittleEndian(version, 2) && b[6..8] == LittleEndian(1, 2);
  }

  /** A record is longer than its header and context, and what stands before the event's own fields. */
  lemma RecordFront(r: LogRecord)
    requires FitsFields(r)
    ensures var b := Encoded(r);
      && 48 <= |b| < 0x1_0000_0000 && b[8..48] == ContextBytes(r.context) && b[48..] == Body(r.event, r.version)
      && Number(b[..4]) == KindOf(r.event) && Number(b[4..6]) == r.version && Number(b[6..8]) == 1
  {
    hide Number, Body;
    HeaderWidth(KindOf(r.event), r.version, r.context);
    HeaderReadBack(KindOf(r.event), r.version, ContextBytes(r.context) + Body(r.event, r.version));
    hide Header, ContextBytes;
    var h, c, b := Header(KindOf(r.event), r.version), ContextBytes(r.context), Body(r.event, r.version);
    assert h + c + b == h + (c + b);
  }

  /** A text is read back from behind its size. */
  lemma PrefixedReadBack(before: Bytes, text: Bytes, after: Bytes)
    requires |text| < 0x1_0000_0000
    ensures var b := before + Prefixed(text) + after;
      && |b| == |before| + 4 + |text| + |after| && Number(b[|before|..][..4]) == |text|
      && b[|before|..|before| + 4] == b[|before|..][..4]
      && b[|before| + 4..][..|text|] == text && b[|before| + 4..|before| + 4 + |text|] == text
  {
    hide LittleEndian, Number, Power256;
    Widths();
    NumberOfLittleEndian(|text|, 4);
    var b := before + Prefixed(text) + after;
    assert b[|before|..][..4] == LittleEndian(|text|, 4);
  }

  /** A log of valid records is read back from its file, record by record. */
  lemma LogReadBack(crc32: Bytes -> Checksum, log: seq<LogRecord>)
    requires AllValid(log)
    ensures Blobs(Framed(crc32, EncodedAll(log))) == EncodedAll(log) && Unread(Framed(crc32, EncodedAll(log))) == []
    ensures Writable(EncodedAll(log))
  {
    hide Blobs, Unread, Framed, Encoded;
    forall i | 0 <= i < |log| ensures 48 <= |EncodedAll(log)[i]| < 0x1_0000_0000 {
      RecordFront(log[i]);
    }
    ReadBack(crc32, EncodedAll(log));
  }
}
