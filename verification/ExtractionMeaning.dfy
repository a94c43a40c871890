/** What message extraction promises: the same events, read from the new log and the side file. */
module ExtractionMeaning {
  import opened BlobFraming
  import opened MessageExtraction

  /** What importing a whole log means. */
  function Meanings(blobs: seq<Bytes>, side: Bytes): seq<Event>
    requires forall i | 0 <= i < |blobs| :: |blobs[i]| >= EVENT_HEADER_SIZE
  {
    seq(|blobs|, i requires 0 <= i < |blobs| => Meaning(blobs[i], side))
  }

  lemma CutFields(eventType: Bytes, version: Bytes, context: Bytes, kept: Bytes, approved: Bytes, size: Bytes,
      offset: Bytes)
    requires |eventType| == |approved| == |size| == 4 && |version| == |context| == 2 && |kept| == 72 && |offset| == 8
    ensures var b := eventType + version + context + kept + approved + size + offset;
      && |b| == 96 && b[..4] == eventType && b[4..6] == version && b[6..8] == context && b[8..][..72] == kept
      && b[80..][..4] == approved && b[84..][..4] == size && b[88..][..8] == offset
  {
  }

  /** The fields of a version 4 event come out as they went in. */
  lemma ShortenedParts(blob: Bytes, offset: nat)
    requires HasMessage(blob) && offset < 0x1_0000_0000_0000_0000
    ensures var b := Shortened(blob, offset);
      && |b| == NEW_BLOB_SIZE && EventType(b) == ADD_NEW_DISCUSSION_THREAD_MESSAGE && Version(b) == 4
      && ContextVersion(b) == 1
      && b[EVENT_HEADER_SIZE..][..CONTEXT_SIZE + 2 * UUID_SIZE]
        == blob[EVENT_HEADER_SIZE..][..CONTEXT_SIZE + 2 * UUID_SIZE]
      && Number(b[CONTENT_AT..][..4]) == Approved(blob) && Number(b[CONTENT_AT + 4..][..4]) == MessageSize(blob)
      && Number(b[CONTENT_AT + 8..][..8]) == offset
  {
    Widths();
    if Version(blob) == 3 { NumberIsBounded(blob[CONTENT_AT..][..4]); }
    NumberIsBounded(blob[SizeAt(blob)..][..4]);
    NumberOfLittleEndian(EventType(blob), 4);
    NumberOfLittleEndian(4, 2);
    NumberOfLittleEndian(ContextVersion(blob), 2);
    NumberOfLittleEndian(Approved(blob), 4);
    NumberOfLittleEndian(MessageSize(blob), 4);
    NumberOfLittleEndian(offset, 8);
    hide LittleEndian, Number, Power256;
    CutFields(LittleEndian(EventType(blob), 4), LittleEndian(4, 2), LittleEndian(ContextVersion(blob), 2),
              blob[EVENT_HEADER_SIZE..][..CONTEXT_SIZE + 2 * UUID_SIZE],
              LittleEndian(Approved(blob), 4), LittleEndian(MessageSize(blob), 4), LittleEndian(offset, 8));
  }

  /** A moved message means the same once the side file holds its content at the stored offset. */
  lemma MovedMeaning(blob: Bytes, side: Bytes, before: Bytes, after: Bytes)
    requires HasMessage(blob) && WellFormed(blob, side) && |before| < 0x1_0000_0000_0000_0000
    ensures var b, all := Shortened(blob, |before|), before + Content(blob) + after;
      && |b| == NEW_BLOB_SIZE && WellFormed(b, all) && Meaning(b, all) == Meaning(blob, side)
  {
    ShortenedParts(blob, |before|);
    WellFormedIsReadable(blob, side);
    var b, all := Shortened(blob, |before|), before + Content(blob) + after;
    hide Number, Shortened;
    assert all[|before|..][..|Content(blob)|] == Content(blob);
    assert Meaning(b, all) == StoredEvent(b, all, Approved(blob), CONTENT_AT + 4);
    assert Meaning(blob, side) == InlineEvent(blob);
  }

  /** Appending to the side file does not change what an event means. */
  lemma MeaningGrows(blob: Bytes, side: Bytes, more: Bytes)
    requires WellFormed(blob, side)
    ensures WellFormed(blob, side + more) && Meaning(blob, side + more) == Meaning(blob, side)
  {
    hide Number;
    if AddsMessage(blob) && (Version(blob) == 2 || Version(blob) == 4) {
      var sizeAt := if Version(blob) == 2 then CONTENT_AT else CONTENT_AT + 4;
      var size, offset := Number(blob[sizeAt..][..4]), Number(blob[sizeAt + 4..][..8]);
      assert offset + size <= |side|;
      assert (side + more)[offset..][..size] == side[offset..][..size];
    }
  }

  lemma MeaningsAppend(blobs: seq<Bytes>, blob: Bytes, side: Bytes)
    requires AllWellFormed(blobs, side) && WellFormed(blob, side)
    ensures AllWellFormed(blobs + [blob], side)
      && Meanings(blobs + [blob], side) == Meanings(blobs, side) + [Meaning(blob, side)]
  {
    hide WellFormed, Meaning;
    assert forall i | 0 <= i < |blobs| :: |blobs[i]| >= EVENT_HEADER_SIZE by {
      forall i | 0 <= i < |blobs| ensures |blobs[i]| >= EVENT_HEADER_SIZE { WellFormedIsReadable(blobs[i], side); }
    }
    WellFormedIsReadable(blob, side);
  }

  lemma AllMeaningsGrow(blobs: seq<Bytes>, side: Bytes, more: Bytes)
    requires AllWellFormed(blobs, side)
    ensures AllWellFormed(blobs, side + more) && Meanings(blobs, side + more) == Meanings(blobs, side)
  {
    hide Meaning, WellFormed;
    forall i | 0 <= i < |blobs|
      ensures WellFormed(blobs[i], side + more) && |blobs[i]| >= EVENT_HEADER_SIZE
      ensures Meaning(blobs[i], side + more) == Meaning(blobs[i], side)
    {
      WellFormedIsReadable(blobs[i], side);
      MeaningGrows(blobs[i], side, more);
    }
  }

  lemma AllWellFormedIsReadable(blobs: seq<Bytes>, side: Bytes)
    requires AllWellFormed(blobs, side)
    ensures AllReadable(blobs) && forall i | 0 <= i < |blobs| :: |blobs[i]| >= EVENT_HEADER_SIZE
  {
    hide WellFormed, Readable;
    forall i | 0 <= i < |blobs| ensures Readable(blobs[i]) && |blobs[i]| >= EVENT_HEADER_SIZE {
      WellFormedIsReadable(blobs[i], side);
      assert |blobs[i]| >= EVENT_HEADER_SIZE;
    }
  }

  /** One event: it is kept or moved out, and means the same with the longer side file. */
  lemma ExtendedMeaning(latest: map<Bytes, Bytes>, side: Bytes, front: Extraction, blob: Bytes)
    requires front.result == 0 && AllWellFormed(front.events, side + front.messages) && WellFormed(blob, side)
    requires |side + front.messages| < 0x1_0000_0000_0000_0000
    ensures Readable(blob)
    ensures var x := Extended(latest, |side|, front, blob);
      && x.result == 0 && AllWellFormed(x.events, side + x.messages) && front.messages <= x.messages
      && Meanings(x.events, side + x.messages)
         == Meanings(front.events, side + front.messages) + [Meaning(blob, side)]
  {
    WellFormedIsReadable(blob, side);
    AllWellFormedIsReadable(front.events, side + front.messages);
    var x := Extended(latest, |side|, front, blob);
    if MovesOut(latest, blob) {
      var moved := Content(blob);
      var written := Shortened(blob, |side + front.messages|);
      assert x == Extraction(front.events + [written], front.messages + moved, 0);
      Regroup(side, front.messages, moved);
      Regroup(side + front.messages, moved, []);
      assert side + front.messages + moved + [] == side + x.messages;
      MovedMeaning(blob, side, side + front.messages, []);
      AllMeaningsGrow(front.events, side + front.messages, moved);
      hide Extended, WellFormed, Meaning, Shortened, Content, HasMessage, MovesOut;
      MeaningsAppend(front.events, written, side + x.messages);
    } else {
      assert x == front.(events := front.events + [blob]);
      MeaningGrows(blob, side, front.messages);
      hide Extended, WellFormed, Meaning, HasMessage, MovesOut;
      MeaningsAppend(front.events, blob, side + front.messages);
    }
  }

  /** Extraction preserves meaning: the new events with the longer side file are the old events, one for one. */
  lemma {:induction false} ExtractPreservesMeaning(latest: map<Bytes, Bytes>, side: Bytes, blobs: seq<Bytes>)
    requires AllWellFormed(blobs, side)
    requires AllReadable(blobs) && |side| + |Extract(latest, |side|, blobs).messages| < 0x1_0000_0000_0000_0000
    ensures forall i | 0 <= i < |blobs| :: |blobs[i]| >= EVENT_HEADER_SIZE
    ensures var x := Extract(latest, |side|, blobs);
      && x.result == 0 && AllWellFormed(x.events, side + x.messages)
      && (forall i | 0 <= i < |x.events| :: |x.events[i]| >= EVENT_HEADER_SIZE)
      && Meanings(x.events, side + x.messages) == Meanings(blobs, side)
  {
    hide WellFormed, Readable, Meaning;
    AllWellFormedIsReadable(blobs, side);
    var x := Extract(latest, |side|, blobs);
    if blobs != [] {
      var front, blob := blobs[..|blobs| - 1], blobs[|blobs| - 1];
      assert blobs == front + [blob];
      var y := Extract(latest, |side|, front);
      MessagesGrow(latest, |side|, y, blob);
      ExtractPreservesMeaning(latest, side, front);
      hide Extended;
      ExtendedMeaning(latest, side, y, blob);
      AllWellFormedIsReadable(x.events, side + x.messages);
      MeaningsAppend(front, blob, side);
    }
  }

  lemma MessagesGrow(latest: map<Bytes, Bytes>, start: nat, front: Extraction, blob: Bytes)
    requires Readable(blob)
    ensures |front.messages| <= |Extended(latest, start, front, blob).messages|
  {
  }

  lemma {:induction false} BlobsAreWritable(bytes: Bytes)
    ensures Writable(Blobs(bytes))
    decreases |bytes|
  {
    if StartsWithRecord(bytes) {
      Widths();
      NumberIsBounded(bytes[8..12]);
      BlobsAreWritable(AfterFirst(bytes));
    }
  }

  lemma {:induction false} EventsAreWritable(latest: map<Bytes, Bytes>, start: nat, blobs: seq<Bytes>)
    requires AllReadable(blobs) && Writable(blobs)
    requires start + |Extract(latest, start, blobs).messages| < 0x1_0000_0000_0000_0000
    ensures Writable(Extract(latest, start, blobs).events)
    ensures forall i | 0 <= i < |Extract(latest, start, blobs).events| ::
      |Extract(latest, start, blobs).events[i]| >= EVENT_HEADER_SIZE
  {
    hide Number, HasInlineMessage, AddsMessage;
    if blobs != [] {
      var front, blob := blobs[..|blobs| - 1], blobs[|blobs| - 1];
      var y := Extract(latest, start, front);
      MessagesGrow(latest, start, y, blob);
      EventsAreWritable(latest, start, front);
      if MovesOut(latest, blob) { ShortenedParts(blob, start + |y.messages|); }
      hide Shortened;
    }
  }

  /** The log file written is read back completely, and with the longer side file it means what the input meant. */
  lemma LogKeepsItsMeaning(crc32: Bytes -> Checksum, latest: map<Bytes, Bytes>, input: Bytes, side: Bytes)
    requires AllWellFormed(Blobs(input), side) && AllReadable(Blobs(input))
    requires |side| + |Extract(latest, |side|, Blobs(input)).messages| < 0x1_0000_0000_0000_0000
    ensures forall i | 0 <= i < |Blobs(input)| :: |Blobs(input)[i]| >= EVENT_HEADER_SIZE
    ensures var x := Extract(latest, |side|, Blobs(input)); var output := Framed(crc32, x.events);
      && x.result == 0 && Unread(output) == [] && |output| % 8 == 0
      && (forall i | 0 <= i < |Blobs(output)| :: |Blobs(output)[i]| >= EVENT_HEADER_SIZE)
      && Meanings(Blobs(output), side + x.messages) == Meanings(Blobs(input), side)
  {
    hide Extract, Blobs, Unread, Framed, WellFormed;
    var x := Extract(latest, |side|, Blobs(input));
    ExtractPreservesMeaning(latest, side, Blobs(input));
    BlobsAreWritable(input);
    EventsAreWritable(latest, |side|, Blobs(input));
    ReadBack(crc32, x.events);
  }

  /** Events with a truncated context are dropped without an error, and only they are. */
  lemma {:induction false} OnlyTruncatedEventsAreLost(latest: map<Bytes, Bytes>, start: nat, blobs: seq<Bytes>)
    requires AllReadable(blobs) && Extract(latest, start, blobs).result == 0
    ensures |Extract(latest, start, blobs).events| <= |blobs|
    ensures |Extract(latest, start, blobs).events| == |blobs| <==> forall i | 0 <= i < |blobs| :: !Truncated(blobs[i])
  {
    hide Truncated, MovesOut, Content, MessageSize, Shortened, Readable;
    if blobs != [] {
      OnlyTruncatedEventsAreLost(latest, start, blobs[..|blobs| - 1]);
      assert blobs == blobs[..|blobs| - 1] + [blobs[|blobs| - 1]];
    }
  }

  /** Such an event goes unnoticed by the exit code: a bare header announcing an added message yields nothing. */
  lemma TruncatedEventIsLost()
    ensures var blob: Bytes := [15, 0, 0, 0, 1, 0, 1, 0];
      AllReadable([blob]) && Truncated(blob) && Extract(map[], 0, [blob]) == Extraction([], [], 0)
  {
    var blob: Bytes := [15, 0, 0, 0, 1, 0, 1, 0];
    assert Number(blob[..4]) == 15 && Number(blob[4..6]) == 1 && Number(blob[6..8]) == 1 by { HeaderNumbers(); }
    assert [blob][..0] == [];
  }

  lemma HeaderNumbers()
    ensures var blob: Bytes := [15, 0, 0, 0, 1, 0, 1, 0];
      Number(blob[..4]) == 15 && Number(blob[4..6]) == 1 && Number(blob[6..8]) == 1
  {
    var blob: Bytes := [15, 0, 0, 0, 1, 0, 1, 0];
    assert LittleEndian(15, 4) == [15, 0, 0, 0] && LittleEndian(1, 2) == [1, 0];
    assert blob[..4] == [15, 0, 0, 0] && blob[4..6] == [1, 0] && blob[6..8] == [1, 0];
    Widths();
    NumberOfLittleEndian(15, 4);
    NumberOfLittleEndian(1, 2);
  }

  lemma EventAdded(latest: map<Bytes, Bytes>, start: nat, front: Extraction, blob: Bytes)
    requires Readable(blob) && !Truncated(blob) && Extended(latest, start, front, blob).result == 0
    ensures front.result == 0
    ensures Extended(latest, start, front, blob).events
      == front.events + [if MovesOut(latest, blob) then Shortened(blob, start + |front.messages|) else blob]
  {
    hide Readable, Truncated, MovesOut, Shortened, Content, MessageSize, HasMessage;
  }

  predicate NoneTruncated(blobs: seq<Bytes>) {
    forall i | 0 <= i < |blobs| :: |blobs[i]| >= EVENT_HEADER_SIZE && !Truncated(blobs[i])
  }

  lemma WellFormedNotTruncated(blobs: seq<Bytes>, side: Bytes)
    requires AllWellFormed(blobs, side)
    ensures NoneTruncated(blobs) && AllReadable(blobs)
  {
    hide WellFormed, Truncated, Readable;
    forall i | 0 <= i < |blobs| ensures |blobs[i]| >= EVENT_HEADER_SIZE && !Truncated(blobs[i]) && Readable(blobs[i]) {
      assert WellFormed(blobs[i], side);
      WellFormedIsReadable(blobs[i], side);
    }
  }

  lemma SplitLast(blobs: seq<Bytes>)
    requires AllReadable(blobs) && NoneTruncated(blobs) && blobs != []
    ensures var front, blob := blobs[..|blobs| - 1], blobs[|blobs| - 1];
      AllReadable(front) && NoneTruncated(front) && Readable(blob) && !Truncated(blob)
  {
  }

  /** Without truncated events there is one event for each blob. */
  lemma OneForOne(latest: map<Bytes, Bytes>, start: nat, blobs: seq<Bytes>)
    requires AllReadable(blobs) && NoneTruncated(blobs) && Extract(latest, start, blobs).result == 0
    ensures |Extract(latest, start, blobs).events| == |blobs|
  {
    hide Readable, Truncated;
    OnlyTruncatedEventsAreLost(latest, start, blobs);
  }

  /** Event `i` becomes its short form, with an offset into the side file, or stays as it was. */
  lemma {:induction false} EventAt(latest: map<Bytes, Bytes>, start: nat, blobs: seq<Bytes>, i: nat)
      returns (offset: nat)
    requires AllReadable(blobs) && NoneTruncated(blobs) && Extract(latest, start, blobs).result == 0 && i < |blobs|
    ensures |Extract(latest, start, blobs).events| == |blobs| && Readable(blobs[i])
    ensures start <= offset <= start + |Extract(latest, start, blobs).messages|
    ensures Extract(latest, start, blobs).events[i]
      == if MovesOut(latest, blobs[i]) then Shortened(blobs[i], offset) else blobs[i]
  {
    SplitLast(blobs);
    var front, blob := blobs[..|blobs| - 1], blobs[|blobs| - 1];
    hide AllReadable, NoneTruncated, Readable, Truncated, Extended, MovesOut, Shortened;
    var y := Extract(latest, start, front);
    EventAdded(latest, start, y, blob);
    MessagesGrow(latest, start, y, blob);
    OneForOne(latest, start, front);
    if i < |front| {
      offset := EventAt(latest, start, front, i);
    } else {
      offset := start + |y.messages|;
    }
  }

  predicate DistinctMessages(blobs: seq<Bytes>) {
    forall i, j | 0 <= i < j < |blobs| && HasMessage(blobs[i]) && HasMessage(blobs[j]) ::
      MessageId(blobs[i]) != MessageId(blobs[j])
  }

  /** No later event adds a message to the same thread. */
  predicate LastOfThread(blobs: seq<Bytes>, i: nat)
    requires i < |blobs| && HasMessage(blobs[i])
  {
    forall j | i < j < |blobs| && HasMessage(blobs[j]) :: ThreadId(blobs[j]) != ThreadId(blobs[i])
  }

  /** The entry of a thread comes from the last event that added a message to it. */
  lemma {:induction false} LatestComesFromLast(blobs: seq<Bytes>, thread: Bytes) returns (k: int)
    ensures thread in LatestOf(map[], blobs)
      ==> 0 <= k < |blobs| && HasMessage(blobs[k]) && ThreadId(blobs[k]) == thread
    ensures thread in LatestOf(map[], blobs)
      ==> LatestOf(map[], blobs)[thread] == MessageId(blobs[k]) && LastOfThread(blobs, k)
    ensures thread !in LatestOf(map[], blobs)
      ==> forall j | 0 <= j < |blobs| && HasMessage(blobs[j]) :: ThreadId(blobs[j]) != thread
  {
    hide HasMessage, MessageId, ThreadId;
    k := -1;
    if blobs != [] {
      k := LatestComesFromLast(blobs[..|blobs| - 1], thread);
      var blob := blobs[|blobs| - 1];
      if HasMessage(blob) && ThreadId(blob) == thread { k := |blobs| - 1; }
    }
  }

  /** With skip-latest and distinct message ids, an added message stays inline exactly when it is the last of its
      thread. */
  lemma LastMessagesStayInline(side: Bytes, blobs: seq<Bytes>, i: nat)
    requires AllWellFormed(blobs, side) && AllReadable(blobs) && DistinctMessages(blobs)
    requires |side| + |Extract(LatestOf(map[], blobs), |side|, blobs).messages| < 0x1_0000_0000_0000_0000
    requires i < |blobs| && HasMessage(blobs[i])
    ensures var x := Extract(LatestOf(map[], blobs), |side|, blobs);
      && |x.events| == |blobs| && (x.events[i] == blobs[i] <==> LastOfThread(blobs, i))
      && |x.events[i]| >= EVENT_HEADER_SIZE && (!LastOfThread(blobs, i) ==> Version(x.events[i]) == 4)
  {
    hide Extract, Content, MessageSize, WellFormed, AddsMessage, Number, LatestOf, Shortened;
    var latest := LatestOf(map[], blobs);
    ExtractPreservesMeaning(latest, side, blobs);
    WellFormedNotTruncated(blobs, side);
    var offset := EventAt(latest, |side|, blobs, i);
    var k := LatestComesFromLast(blobs, ThreadId(blobs[i]));
    assert IsLatest(latest, blobs[i]) <==> k == i;
    assert k == i <==> LastOfThread(blobs, i);
    if k != i { ShortenedParts(blobs[i], offset); }
  }

  lemma {:induction false} NothingToMove(latest: map<Bytes, Bytes>, start: nat, blobs: seq<Bytes>)
    requires AllReadable(blobs)
    requires forall i | 0 <= i < |blobs| ::
      |blobs[i]| >= EVENT_HEADER_SIZE && !Truncated(blobs[i]) && !MovesOut(latest, blobs[i])
    ensures Extract(latest, start, blobs) == Extraction(blobs, [], 0)
  {
    hide Truncated, MovesOut, Readable, Content, MessageSize, Shortened;
    if blobs != [] {
      var front, blob := blobs[..|blobs| - 1], blobs[|blobs| - 1];
      assert blobs == front + [blob] && !MovesOut(latest, blob) && !Truncated(blob);
      NothingToMove(latest, start, front);
    }
  }

  /** When each message still inline is the one `latest` names for its thread, they are the latest ones themselves. */
  lemma {:induction false} LatestAgain(latest: map<Bytes, Bytes>, events: seq<Bytes>)
    requires forall i | 0 <= i < |events| && HasMessage(events[i]) :: IsLatest(latest, events[i])
    ensures forall thread | thread in LatestOf(map[], events) ::
      thread in latest && LatestOf(map[], events)[thread] == latest[thread]
    ensures forall i | 0 <= i < |events| && HasMessage(events[i]) :: IsLatest(LatestOf(map[], events), events[i])
  {
    hide HasMessage, ThreadId, MessageId;
    if events != [] {
      var front := events[..|events| - 1];
      assert forall i | 0 <= i < |front| :: front[i] == events[i];
      LatestAgain(latest, front);
    }
  }

  /** Running the tool again on its own output, each time leaving out the latest message of each thread, changes
      nothing; the same holds for whatever messages the first run left where they were. */
  lemma SecondSkippingRunChangesNothing(side: Bytes, blobs: seq<Bytes>, latest: map<Bytes, Bytes>, start: nat)
    requires AllWellFormed(blobs, side) && AllReadable(blobs)
    requires |side| + |Extract(latest, |side|, blobs).messages| < 0x1_0000_0000_0000_0000
    ensures var events := Extract(latest, |side|, blobs).events;
      AllReadable(events) && Extract(LatestOf(map[], events), start, events) == Extraction(events, [], 0)
  {
    hide Extract, WellFormed, Readable, NoneTruncated, AllReadable, LatestOf, Truncated, HasMessage, IsLatest;
    ExtractPreservesMeaning(latest, side, blobs);
    WellFormedNotTruncated(blobs, side);
    var x := Extract(latest, |side|, blobs);
    AllWellFormedIsReadable(x.events, side + x.messages);
    WellFormedNotTruncated(x.events, side + x.messages);
    OneForOne(latest, |side|, blobs);
    forall i | 0 <= i < |x.events| && HasMessage(x.events[i]) ensures IsLatest(latest, x.events[i]) {
      StillInline(latest, side, blobs, i);
    }
    LatestAgain(latest, x.events);
    NoneToMove(LatestOf(map[], x.events), x.events);
    NothingToMove(LatestOf(map[], x.events), start, x.events);
  }

  lemma NoneToMove(latest: map<Bytes, Bytes>, events: seq<Bytes>)
    requires NoneTruncated(events)
    requires forall i | 0 <= i < |events| && HasMessage(events[i]) :: IsLatest(latest, events[i])
    ensures forall i | 0 <= i < |events| ::
      |events[i]| >= EVENT_HEADER_SIZE && !Truncated(events[i]) && !MovesOut(latest, events[i])
  {
    hide Truncated, HasMessage, IsLatest;
  }

  lemma StillInline(latest: map<Bytes, Bytes>, side: Bytes, blobs: seq<Bytes>, i: nat)
    requires AllReadable(blobs) && NoneTruncated(blobs) && i < |blobs|
    requires |side| + |Extract(latest, |side|, blobs).messages| < 0x1_0000_0000_0000_0000
    requires Extract(latest, |side|, blobs).result == 0
    ensures i < |Extract(latest, |side|, blobs).events|
    ensures var e := Extract(latest, |side|, blobs).events[i]; HasMessage(e) ==> IsLatest(latest, e)
  {
    hide Extract, AllReadable, Shortened, Number, Truncated, NoneTruncated, IsLatest;
    var offset := EventAt(latest, |side|, blobs, i);
    if MovesOut(latest, blobs[i]) { ShortenedParts(blobs[i], offset); }
  }

  /** Running the tool again on its own output, in either mode, changes nothing. */
  lemma SecondRunChangesNothing(side: Bytes, blobs: seq<Bytes>, latest: map<Bytes, Bytes>, start: nat)
    requires AllWellFormed(blobs, side) && AllReadable(blobs)
    requires |side| + |Extract(map[], |side|, blobs).messages| < 0x1_0000_0000_0000_0000
    ensures var events := Extract(map[], |side|, blobs).events;
      AllReadable(events) && Extract(latest, start, events) == Extraction(events, [], 0)
  {
    ExtractPreservesMeaning(map[], side, blobs);
    WellFormedNotTruncated(blobs, side);
    var x := Extract(map[], |side|, blobs);
    AllWellFormedIsReadable(x.events, side + x.messages);
    OneForOne(map[], |side|, blobs);
    hide Extract, WellFormed, Readable, NoneTruncated;
    forall i | 0 <= i < |x.events| 
      ensures |x.events[i]| >= EVENT_HEADER_SIZE && !Truncated(x.events[i]) && !MovesOut(latest, x.events[i])
    {
      NoInlineMessageAt(side, blobs, i);
    }
    NothingToMove(latest, start, x.events);
  }

  lemma NoInlineMessageAt(side: Bytes, blobs: seq<Bytes>, i: nat)
    requires AllReadable(blobs) && NoneTruncated(blobs) && i < |blobs|
    requires |side| + |Extract(map[], |side|, blobs).messages| < 0x1_0000_0000_0000_0000
    requires Extract(map[], |side|, blobs).result == 0
    ensures i < |Extract(map[], |side|, blobs).events|
    ensures var e := Extract(map[], |side|, blobs).events[i]; |e| >= EVENT_HEADER_SIZE && !HasInlineMessage(e)
  {
    var offset := EventAt(map[], |side|, blobs, i);
    hide Extract, AllReadable, Shortened, Number;
    MovedOrOther(blobs[i], offset);
  }

  lemma MovedOrOther(blob: Bytes, offset: nat)
    requires Readable(blob) && !Truncated(blob) && offset < 0x1_0000_0000_0000_0000
    ensures HasMessage(blob) <==> MovesOut(map[], blob)
    ensures if HasMessage(blob)
      then |Shortened(blob, offset)| >= EVENT_HEADER_SIZE && !HasInlineMessage(Shortened(blob, offset))
      else !HasInlineMessage(blob)
  {
    if HasMessage(blob) { ShortenedParts(blob, offset); }
    hide Shortened, Number;
  }
}
