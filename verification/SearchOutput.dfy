/** The search events as JSON text: how an event is written, and that the files read back as the events. */
module SearchOutput {
  import opened Wrappers
  import opened BlobFraming
  import opened JsonText
  import opened JsonWriters
  import opened SearchExtraction
  import opened SearchFiles

  /** Property names and kinds of events are made of small letters and blanks. */
  type Words = s: string | forall i | 0 <= i < |s| :: s[i] == ' ' || 'a' <= s[i] <= 'z'

  function BytesOf(s: Words): Bytes {
    seq(|s|, i requires 0 <= i < |s| => s[i] as int)
  }

  lemma DifferentTexts(a: Words, b: Words)
    ensures BytesOf(a) == BytesOf(b) <==> a == b
  {
    if BytesOf(a) == BytesOf(b) {
      forall i | 0 <= i < |a| ensures a[i] == b[i] {
        assert BytesOf(a)[i] == BytesOf(b)[i];
      }
    }
  }

  lemma WordsArePlain(s: Words)
    ensures !IsEscapeNeeded(BytesOf(s)) && Quoted(BytesOf(s)) == [QUOTE] + BytesOf(s) + [QUOTE]
    ensures (BytesOf(s) + [0])[..LengthUsed(BytesOf(s) + [0], 0)] == BytesOf(s)
  {
    NothingToEscape(BytesOf(s));
    assert (BytesOf(s) + [0])[|s|] == 0;
  }

  const DASH: Byte := 45

  function LowercaseDigit(n: nat): Byte
    requires n < 16
  {
    if n < 10 then 48 + n else 87 + n
  }

  /** The text after the first `n` bytes of an id: two digits each, with dashes at fixed places. */
  function IdPrefix(id: Id, n: nat): Bytes
    requires n <= 16
  {
    if n == 0 then []
    else
      var text := IdPrefix(id, n - 1) + [LowercaseDigit(id[n - 1] / 16), LowercaseDigit(id[n - 1] % 16)];
      text + if |text| in {8, 13, 18, 23} then [DASH] else []
  }

  function IdText(id: Id): Bytes {
    IdPrefix(id, 16)
  }

  /** Where the digits of the `n`-th byte are. */
  function DigitsAt(n: nat): nat {
    2 * n + (if n < 4 then 0 else if n < 6 then 1 else if n < 8 then 2 else if n < 10 then 3 else 4)
  }

  lemma {:induction false} IdLength(id: Id, n: nat)
    requires n <= 16
    ensures |IdPrefix(id, n)| == DigitsAt(n)
  {
    if n > 0 { IdLength(id, n - 1); }
  }

  /** Five groups of small hexadecimal digits with dashes between them, section 3 of RFC 4122. */
  lemma {:induction false} IdTextShape(id: Id, n: nat, k: nat)
    requires n <= 16 && k < |IdPrefix(id, n)|
    ensures IdPrefix(id, n)[k] == DASH <==> k in {8, 13, 18, 23}
    ensures IdPrefix(id, n)[k] == DASH || 48 <= IdPrefix(id, n)[k] <= 57 || 97 <= IdPrefix(id, n)[k] <= 102
  {
    IdLength(id, n);
    IdLength(id, n - 1);
    if k < |IdPrefix(id, n - 1)| { IdTextShape(id, n - 1, k); }
  }

  function Nibble(c: Byte): nat {
    if HexValue(c) < 0 then 0 else HexValue(c)
  }

  function ByteFrom(high: Byte, low: Byte): Byte {
    (16 * Nibble(high) + Nibble(low)) % 256
  }

  /** Reading an id. */
  function IdOf(text: Bytes): Id {
    if |text| != DigitsAt(16) then seq(16, _ => 0)
    else
      seq(16, n requires 0 <= n < 16 => ByteFrom(text[DigitsAt(n)], text[DigitsAt(n) + 1]))
  }

  lemma {:induction false} IdDigits(id: Id, n: nat, k: nat)
    requires k < n <= 16
    ensures |IdPrefix(id, n)| == DigitsAt(n) >= DigitsAt(k) + 2
    ensures IdPrefix(id, n)[DigitsAt(k)] == LowercaseDigit(id[k] / 16)
    ensures IdPrefix(id, n)[DigitsAt(k) + 1] == LowercaseDigit(id[k] % 16)
  {
    IdLength(id, n);
    IdLength(id, n - 1);
    if k < n - 1 { IdDigits(id, n - 1, k); }
  }

  lemma DigitsReadBack(b: Byte)
    ensures ByteFrom(LowercaseDigit(b / 16), LowercaseDigit(b % 16)) == b
  {
    assert Nibble(LowercaseDigit(b / 16)) == b / 16 && Nibble(LowercaseDigit(b % 16)) == b % 16;
  }

  /** An id's text gives the id back. */
  lemma IdTextReadBack(id: Id)
    ensures IdOf(IdText(id)) == id
  {
    hide IdPrefix, LowercaseDigit, ByteFrom;
    IdLength(id, 16);
    forall k | 0 <= k < 16 ensures IdOf(IdText(id))[k] == id[k] {
      IdDigits(id, 16, k);
      DigitsReadBack(id[k]);
    }
  }

  lemma {:induction false} IdIsSafe(id: Id, n: nat)
    requires n <= 16
    ensures !IsEscapeNeeded(IdPrefix(id, n))
  {
    if n > 0 { IdIsSafe(id, n - 1); }
  }

  method FillId(id: Id) returns (buffer: array<Byte>)
    ensures fresh(buffer) && buffer[..] == IdText(id)
  {
    buffer := new Byte[36](_ => 0);
    var destination := 0;
    IdLength(id, 16);
    for source := 0 to 16
      invariant destination == DigitsAt(source) && buffer[..destination] == IdPrefix(id, source)
    {
      IdLength(id, source + 1);
      ghost var before := buffer[..destination];
      buffer[destination] := LowercaseDigit(id[source] / 16);
      buffer[destination + 1] := LowercaseDigit(id[source] % 16);
      destination := destination + 2;
      assert buffer[..destination] == before + [LowercaseDigit(id[source] / 16), LowercaseDigit(id[source] % 16)];
      if destination == 8 || destination == 13 || destination == 18 || destination == 23 {
        buffer[destination] := DASH;
        destination := destination + 1;
      }
    }
    assert buffer[..] == buffer[..destination];
  }

  /** An id as text, filled into a buffer of fixed size. */
  method WriteId(w: JsonWriter, id: Id)
    requires w.Valid()
    modifies w.stateStack, w.out, w.out.buffer
    ensures w.Valid()
      && w.Output() == old(w.Output()) + Separator(!JsonWriter.CommaAt(old(w.Stack()))) + Quoted(IdText(id))
    ensures w.Stack() == JsonWriter.Touched(old(w.Stack()))
      && (w.out.buffer == old(w.out.buffer) || fresh(w.out.buffer))
  {
    IdIsSafe(id, 16);
    NothingToEscape(IdText(id));
    hide IdText, Separator;
    var buffer := FillId(id);
    w.WriteSafeString(buffer[..]);
  }

  /** Section 3 of RFC 8259: the literal names, and the characters that structure a text. */
  lemma LiteralNames()
    ensures NULL_TEXT == BytesOf("null") && TRUE_TEXT == BytesOf("true") && FALSE_TEXT == BytesOf("false")
    ensures QUOTE as char == '"' && COMMA as char == ',' && COLON as char == ':' && MINUS as char == '-'
    ensures BACKSLASH as char == '\\'
  {
  }

  const NEW_THREAD: Words := "new thread"
  const CHANGE_NAME: Words := "change thread name"
  const DELETE_THREAD: Words := "delete thread"
  const NEW_MESSAGE: Words := "new thread message"
  const CHANGE_CONTENT: Words := "change thread message content"
  const DELETE_MESSAGE: Words := "delete thread message"
  const TYPE: Words := "type"
  const ID: Words := "id"
  const NAME: Words := "name"
  const CONTENT: Words := "content"

  /** The words that name the kind of an event. */
  function KindOf(e: SearchEvent): Words {
    match e
    case NewThread(_, _) => NEW_THREAD
    case ThreadNameChanged(_, _) => CHANGE_NAME
    case ThreadDeleted(_) => DELETE_THREAD
    case NewMessage(_, _) => NEW_MESSAGE
    case ContentChanged(_, _) => CHANGE_CONTENT
    case MessageDeleted(_) => DELETE_MESSAGE
  }

  /** The text an event carries, with the name of its property. */
  function TextOfEvent(e: SearchEvent): Option<(Words, Content)> {
    match e
    case NewThread(_, name) => Some((NAME, name))
    case ThreadNameChanged(_, name) => Some((NAME, name))
    case NewMessage(_, content) => Some((CONTENT, content))
    case ContentChanged(_, content) => Some((CONTENT, content))
    case _ => None
  }

  /** The event as a JSON object. */
  function EventValue(e: SearchEvent): Value {
    var text := TextOfEvent(e);
    Object(Member(BytesOf(TYPE), Text(BytesOf(KindOf(e))),
           Member(BytesOf(ID), Text(IdText(e.id)),
                  if text.None? then NoMembers
                  else Member(BytesOf(text.value.0), Text(text.value.1), NoMembers))))
  }

  /** The event that a kind, an id and perhaps a text stand for. */
  function EventFrom(kind: Bytes, id: Id, text: Option<(Bytes, Content)>): Option<SearchEvent> {
    if text.None? then
      if kind == BytesOf(DELETE_THREAD) then Some(ThreadDeleted(id))
      else if kind == BytesOf(DELETE_MESSAGE) then Some(MessageDeleted(id))
      else None
    else
      var (name, content) := text.value;
      if name == BytesOf(NAME) then
        if kind == BytesOf(NEW_THREAD) then Some(NewThread(id, content))
        else if kind == BytesOf(CHANGE_NAME) then Some(ThreadNameChanged(id, content))
        else None
      else if name == BytesOf(CONTENT) then
        if kind == BytesOf(NEW_MESSAGE) then Some(NewMessage(id, content))
        else if kind == BytesOf(CHANGE_CONTENT) then Some(ContentChanged(id, content))
        else None
      else None
  }

  /** What a reader makes of a JSON value. */
  function ReadEvent(v: Value): Option<SearchEvent> {
    match v
    case Object(Member(a, Text(kind), Member(b, Text(id), NoMembers))) =>
      if a == BytesOf(TYPE) && b == BytesOf(ID) then EventFrom(kind, IdOf(id), None) else None
    case Object(Member(a, Text(kind), Member(b, Text(id), Member(name, Text(text), NoMembers)))) =>
      if a == BytesOf(TYPE) && b == BytesOf(ID) then EventFrom(kind, IdOf(id), Some((name, text))) else None
    case _ => None
  }

  lemma KindsDiffer()
    ensures BytesOf(NAME) != BytesOf(CONTENT) && BytesOf(NEW_THREAD) != BytesOf(CHANGE_NAME)
    ensures BytesOf(NEW_MESSAGE) != BytesOf(CHANGE_CONTENT) && BytesOf(DELETE_THREAD) != BytesOf(DELETE_MESSAGE)
  {
    DifferentTexts(NAME, CONTENT);
    DifferentTexts(NEW_THREAD, CHANGE_NAME);
    DifferentTexts(NEW_MESSAGE, CHANGE_CONTENT);
    DifferentTexts(DELETE_THREAD, DELETE_MESSAGE);
  }

  /** Every event is read back from its value. */
  lemma EventReadBack(e: SearchEvent)
    ensures ReadEvent(EventValue(e)) == Some(e)
  {
    hide BytesOf, IdText, IdOf;
    IdTextReadBack(e.id);
    KindsDiffer();
  }

  /** What ends up in the text: a view of length zero is taken for a zero-terminated string, so the bytes behind it in
      memory are written, up to the first zero. */
  function Shown(text: Content, behind: Bytes): Content
    requires 0 in behind
  {
    (text + behind)[..LengthUsed(text + behind, |text|)]
  }

  function AsWritten(e: SearchEvent, behind: Bytes): SearchEvent
    requires 0 in behind
  {
    match e
    case NewThread(id, name) => NewThread(id, Shown(name, behind))
    case ThreadNameChanged(id, name) => ThreadNameChanged(id, Shown(name, behind))
    case NewMessage(id, content) => NewMessage(id, Shown(content, behind))
    case ContentChanged(id, content) => ContentChanged(id, Shown(content, behind))
    case _ => e
  }

  /** An empty text comes out right only if a zero happens to follow it. */
  predicate ComesOutRight(e: SearchEvent, behind: Bytes) {
    var text := TextOfEvent(e);
    text.Some? && text.value.1 == [] ==> behind != [] && behind[0] == 0
  }

  lemma ShownIs(text: Content, behind: Bytes)
    requires 0 in behind
    ensures Shown(text, behind) == text <==> text != [] || behind[0] == 0
  {
    if text == [] {
      assert text + behind == behind;
    } else {
      assert (text + behind)[..|text|] == text;
    }
  }

  lemma WrittenRight(e: SearchEvent, behind: Bytes)
    requires 0 in behind
    ensures AsWritten(e, behind) == e <==> ComesOutRight(e, behind)
  {
    hide Shown;
    var text := TextOfEvent(e);
    if text.Some? { ShownIs(text.value.1, behind); }
  }

  /** The name of a property as the callers of newPropertyRaw spell it, with quotes, colon and comma. */
  function RawName(name: Words, first: bool): Bytes {
    Separator(first) + ([QUOTE] + BytesOf(name) + [QUOTE]) + [COLON]
  }

  lemma RawNameIs(name: Words, first: bool)
    ensures RawName(name, first) == Separator(first) + Quoted(BytesOf(name)) + [COLON]
  {
    WordsArePlain(name);
  }

  /** A property as it stands in the text of an object. */
  function MemberText(name: Words, value: Bytes, first: bool): Bytes {
    Separator(first) + Quoted(BytesOf(name)) + [COLON] + Quoted(value)
  }

  function TextMember(e: SearchEvent): Bytes {
    var text := TextOfEvent(e);
    if text.None? then [] else MemberText(text.value.0, text.value.1, false)
  }

  lemma MemberStep(name: Words, value: Bytes, tail: Members, first: bool)
    ensures CanonicalMembers(Member(BytesOf(name), Text(value), tail), first)
      == MemberText(name, value, first) + CanonicalMembers(tail, false)
  {
    hide BytesOf, Quoted, Separator;
    assert Canonical(Text(value)) == Quoted(value);
  }

  lemma Nested(a: Bytes, b: Bytes, c: Bytes, d: Bytes, e: Bytes)
    ensures a + (b + (c + d)) + e == a + b + c + d + e
  {
  }

  lemma ObjectText(e: SearchEvent)
    ensures Canonical(EventValue(e))
      == [123] + MemberText(TYPE, BytesOf(KindOf(e)), true) + MemberText(ID, IdText(e.id), false)
        + TextMember(e) + [125]
  {
    hide BytesOf, IdText, KindOf, MemberText;
    var text := TextOfEvent(e);
    var rest := if text.None? then NoMembers else Member(BytesOf(text.value.0), Text(text.value.1), NoMembers);
    if text.Some? { MemberStep(text.value.0, text.value.1, NoMembers, false); }
    assert CanonicalMembers(rest, false) == TextMember(e);
    var more := Member(BytesOf(ID), Text(IdText(e.id)), rest);
    MemberStep(ID, IdText(e.id), rest, false);
    MemberStep(TYPE, BytesOf(KindOf(e)), more, true);
    Nested([123], MemberText(TYPE, BytesOf(KindOf(e)), true), MemberText(ID, IdText(e.id), false),
      TextMember(e), [125]);
  }

  /** A property whose value is a text. */
  method WriteTextMember(w: JsonWriter, name: Words, value: Bytes, length: nat, first: bool)
    requires w.Valid() && length <= |value| && (length == 0 ==> 0 in value)
    requires w.stateIndex == 1 && w.Stack() == Inside(w.Stack()[..1], first)
    modifies w.stateStack, w.out, w.out.buffer
    ensures w.Valid()
      && w.Output() == old(w.Output()) + MemberText(name, value[..LengthUsed(value, length)], first)
    ensures w.stateIndex == 1 && w.Stack() == Inside(old(w.Stack())[..1], false)
    ensures w.out.buffer == old(w.out.buffer) || fresh(w.out.buffer)
  {
    hide Quoted, LengthUsed, BytesOf;
    ghost var outer := w.Stack()[..1];
    RawNameIs(name, first);
    w.NewPropertyRaw(RawName(name, first));
    assert w.Stack() == outer + [State(true, !first, true)];
    w.WriteEscapedString(value, length);
    assert w.Stack() == Inside(outer, false);
  }

  method WriteIdMember(w: JsonWriter, id: Id)
    requires w.Valid() && w.stateIndex == 1 && w.Stack() == Inside(w.Stack()[..1], false)
    modifies w.stateStack, w.out, w.out.buffer
    ensures w.Valid() && w.Output() == old(w.Output()) + MemberText(ID, IdText(id), false)
    ensures w.stateIndex == 1 && w.Stack() == Inside(old(w.Stack())[..1], false)
    ensures w.out.buffer == old(w.out.buffer) || fresh(w.out.buffer)
  {
    hide Quoted, BytesOf, IdText;
    ghost var outer := w.Stack()[..1];
    RawNameIs(ID, false);
    w.NewPropertyRaw(RawName(ID, false));
    assert w.Stack() == outer + [State(true, true, true)];
    WriteId(w, id);
    assert w.Stack() == Inside(outer, false);
  }

  method WriteTextOf(w: JsonWriter, e: SearchEvent, behind: Bytes)
    requires w.Valid() && w.stateIndex == 1 && w.Stack() == Inside(w.Stack()[..1], false) && 0 in behind
    modifies w.stateStack, w.out, w.out.buffer
    ensures w.Valid() && w.Output() == old(w.Output()) + TextMember(AsWritten(e, behind))
    ensures w.stateIndex == 1 && (w.out.buffer == old(w.out.buffer) || fresh(w.out.buffer))
  {
    hide MemberText, LengthUsed, Inside;
    var text := TextOfEvent(e);
    if text.Some? {
      WriteTextMember(w, text.value.0, text.value.1 + behind, |text.value.1|, false);
    }
  }

  lemma WrittenKind(e: SearchEvent, behind: Bytes)
    requires 0 in behind
    ensures KindOf(AsWritten(e, behind)) == KindOf(e) && AsWritten(e, behind).id == e.id
  {
  }

  lemma InsideFirst(outer: seq<State>)
    requires outer == [State(false, false, false)]
    ensures var inner := JsonWriter.Touched(outer) + [State(true, false, false)];
      !JsonWriter.CommaAt(outer) && |inner| == 2 && inner == Inside(inner[..1], true)
    ensures forall o: Bytes :: o + Separator(true) + [123] == o + [123]
  {
  }

  /** One event, driven through the writer: the text is the canonical one of the event's value. */
  method WriteEvent(w: JsonWriter, e: SearchEvent, behind: Bytes)
    requires w.Valid() && w.Stack() == [State(false, false, false)] && 0 in behind
    modifies w, w.stateStack, w.out, w.out.buffer
    ensures w.Valid() && w.Output() == old(w.Output()) + Canonical(EventValue(AsWritten(e, behind)))
    ensures w.out.buffer == old(w.out.buffer) || fresh(w.out.buffer)
  {
    hide MemberText, BytesOf, IdText, LengthUsed, KindOf, TextMember, AsWritten, Canonical, EventValue, Inside;
    hide JsonWriter.CommaAt, JsonWriter.Touched, Separator;
    WordsArePlain(KindOf(e));
    WrittenKind(e, behind);
    ObjectText(AsWritten(e, behind));
    InsideFirst(w.Stack());
    ghost var o := w.Output();
    w.Start(123);
    ghost var outer := w.Stack()[..1];
    WriteTextMember(w, TYPE, BytesOf(KindOf(e)) + [0], 0, true);
    InsideStep(outer, false);
    WriteIdMember(w, e.id);
    WriteTextOf(w, e, behind);
    w.End(125);
    Join(o, [123], MemberText(TYPE, BytesOf(KindOf(e)), true), MemberText(ID, IdText(e.id), false),
      TextMember(AsWritten(e, behind)), [125]);
  }

  function EventValues(events: seq<SearchEvent>): seq<Value> {
    seq(|events|, i requires 0 <= i < |events| => EventValue(events[i]))
  }

  function EventTexts(events: seq<SearchEvent>): seq<Bytes> {
    Texts(EventValues(events))
  }

  function ReadItems(items: Items): Option<seq<SearchEvent>> {
    match items
    case NoItems => Some([])
    case Item(v, tail) =>
      var first, rest := ReadEvent(v), ReadItems(tail);
      if first.Some? && rest.Some? then Some([first.value] + rest.value) else None
  }

  /** Reading a file of events: one JSON array and nothing behind it. */
  function ReadFile(file: Bytes): Option<seq<SearchEvent>> {
    match ParseValue(file)
    case Read(Array(items), rest) => if rest == [] then ReadItems(items) else None
    case _ => None
  }

  function ReadFiles(files: seq<Bytes>): Option<seq<SearchEvent>> {
    if files == [] then Some([])
    else
      var front, last := ReadFiles(files[..|files| - 1]), ReadFile(files[|files| - 1]);
      if front.Some? && last.Some? then Some(front.value + last.value) else None
  }

  lemma PlainEvent(e: SearchEvent)
    ensures Plain(EventValue(e)) == EventValue(e) && Canonical(EventValue(e)) != []
  {
    hide BytesOf, IdText, KindOf;
    var text := TextOfEvent(e);
    var rest := if text.None? then NoMembers else Member(BytesOf(text.value.0), Text(text.value.1), NoMembers);
    assert PlainMembers(rest) == rest;
    var more := Member(BytesOf(ID), Text(IdText(e.id)), rest);
    assert PlainMembers(more) == more;
    var all := Member(BytesOf(TYPE), Text(BytesOf(KindOf(e))), more);
    assert PlainMembers(all) == all && EventValue(e) == Object(all);
    CanonicalStart(EventValue(e));
  }

  lemma {:induction false} ItemsReadBack(events: seq<SearchEvent>)
    ensures PlainItems(ItemsOf(EventValues(events))) == ItemsOf(EventValues(events))
    ensures ReadItems(ItemsOf(EventValues(events))) == Some(events)
  {
    hide EventValue, ReadEvent, Plain;
    if events != [] {
      assert EventValues(events)[1..] == EventValues(events[1..]);
      ItemsReadBack(events[1..]);
      EventReadBack(events[0]);
      PlainEvent(events[0]);
      assert [events[0]] + events[1..] == events;
    }
  }

  /** A file of event texts is read back as those events. */
  lemma FileReadBack(events: seq<SearchEvent>)
    ensures ReadFile(FileText(EventTexts(events))) == Some(events)
  {
    ItemsReadBack(events);
    FileIsArray(EventValues(events));
  }

  lemma TextsSplit(events: seq<SearchEvent>, n: nat)
    ensures |EventTexts(events)| == |events|
    ensures n <= |events| ==>
      EventTexts(events)[..n] == EventTexts(events[..n]) && EventTexts(events)[n..] == EventTexts(events[n..])
    ensures n < |events| ==> EventTexts(events)[n] == Canonical(EventValue(events[n]))
    ensures n < |events| ==> EventTexts(events[..n + 1]) == EventTexts(events[..n]) + [Canonical(EventValue(events[n]))]
  {
    hide EventValue, Canonical;
  }

  /** However the texts are divided among files, all files together are read back as all events. */
  lemma {:induction false} FilesReadBack(files: seq<Bytes>, all: seq<seq<Bytes>>, events: seq<SearchEvent>)
    requires |files| == |all| && Flattened(all) == EventTexts(events)
    requires forall k | 0 <= k < |all| :: files[k] == FileText(all[k])
    ensures ReadFiles(files) == Some(events)
  {
    hide FileText, EventTexts, ReadFile, ReadFiles, Flattened;
    if all == [] {
      NoFiles();
      TextsSplit(events, 0);
    } else {
      var front, last := all[..|all| - 1], all[|all| - 1];
      assert all == front + [last];
      FlattenedAppend(front, last);
      var n := |Flattened(front)|;
      TextsSplit(events, n);
      FilesReadBack(files[..|files| - 1], front, events[..n]);
      FileReadBack(events[n..]);
      OneMoreFile(files, events[..n], events[n..]);
      assert events[..n] + events[n..] == events;
    }
  }

  lemma NoFiles()
    ensures Flattened([]) == [] && ReadFiles([]) == Some([])
  {
  }

  lemma OneMoreFile(files: seq<Bytes>, front: seq<SearchEvent>, last: seq<SearchEvent>)
    requires files != [] && ReadFiles(files[..|files| - 1]) == Some(front) && ReadFile(files[|files| - 1]) == Some(last)
    ensures ReadFiles(files) == Some(front + last)
  {
  }

  function WrittenEvents(events: seq<SearchEvent>, behind: nat -> Bytes): seq<SearchEvent>
    requires forall i :: 0 in behind(i)
  {
    seq(|events|, i requires 0 <= i < |events| => AsWritten(events[i], behind(i)))
  }

  lemma WrittenAre(events: seq<SearchEvent>, behind: nat -> Bytes)
    requires forall i :: 0 in behind(i)
    ensures var written := WrittenEvents(events, behind);
      && |written| == |events| && (forall i | 0 <= i < |events| :: written[i] == AsWritten(events[i], behind(i)))
      && (written == events <==> forall i | 0 <= i < |events| :: ComesOutRight(events[i], behind(i)))
  {
    hide AsWritten, ComesOutRight;
    var written := WrittenEvents(events, behind);
    forall i | 0 <= i < |events| ensures written[i] == events[i] <==> ComesOutRight(events[i], behind(i)) {
      WrittenRight(events[i], behind(i));
    }
  }

  /** writeJson for one event. */
  method WriteJson(files: EventFiles, outputBuffer: StringBuffer, e: SearchEvent, behind: Bytes)
    requires files.Valid() && outputBuffer.Valid() && 0 in behind
    modifies files, outputBuffer, outputBuffer.buffer
    ensures files.Valid() && files.Written() == old(files.Written()) + [Canonical(EventValue(AsWritten(e, behind)))]
    ensures outputBuffer.Valid() && (outputBuffer.buffer == old(outputBuffer.buffer) || fresh(outputBuffer.buffer))
  {
    PlainEvent(AsWritten(e, behind));
    hide Canonical, EventValue, AsWritten;
    outputBuffer.Clear();
    var w := new JsonWriter(outputBuffer);
    WriteEvent(w, e, behind);
    var text := outputBuffer.buffer[..outputBuffer.used];
    ghost var canonical := Canonical(EventValue(AsWritten(e, behind)));
    assert [] + canonical == canonical;
    assert text == canonical;
    files.WriteJson(text);
  }

  /** All events go to files; `behind` is what follows the text of each one in memory. The files are read back as
      exactly the events if and only if no empty text has anything but a zero behind it. */
  method WriteFiles(events: seq<SearchEvent>, behind: nat -> Bytes, eventsPerFile: nat) returns (files: seq<Bytes>)
    requires forall i :: 0 in behind(i)
    ensures ReadFiles(files) == Some(WrittenEvents(events, behind))
    ensures ReadFiles(files) == Some(events)
      <==> forall i | 0 <= i < |events| :: ComesOutRight(events[i], behind(i))
  {
    hide EventTexts, WrittenEvents, Canonical, EventValue, AsWritten, ReadFiles, ComesOutRight;
    ghost var written := WrittenEvents(events, behind);
    WrittenAre(events, behind);
    var output := new EventFiles(eventsPerFile);
    var outputBuffer := new StringBuffer(0x10_0000);
    TextsSplit([], 0);
    for i := 0 to |events|
      invariant output.Valid() && outputBuffer.Valid() && fresh(outputBuffer.buffer)
      invariant output.Written() == EventTexts(written[..i])
    {
      WriteJson(output, outputBuffer, events[i], behind(i));
      TextsSplit(written, i);
    }
    assert written[..|events|] == written;
    var all := output.CloseFile();
    files := output.closedFiles;
    FilesReadBack(files, all, written);
  }

  /** From event logs to files: whoever reads the files and replays them has the index of the forum. */
  method Extract(inputs: seq<Bytes>, behind: nat -> Bytes, eventsPerFile: nat)
      returns (code: int, files: seq<Bytes>, ghost events: seq<SearchEvent>)
    requires AllFilesDecodable(inputs) && ValidHistory(Forum(map[], map[], {}), HistoryOfAll(inputs))
    requires forall i :: 0 in behind(i)
    ensures code == 0 <==> forall i | 0 <= i < |inputs| :: IsSound(inputs[i])
    ensures ReadFiles(files) == Some(WrittenEvents(events, behind))
    ensures code == 0 ==> Replay(events) == IndexOf(ForumOf(Forum(map[], map[], {}), HistoryOfAll(inputs)))
    ensures code == 0 && (forall i | 0 <= i < |events| :: ComesOutRight(events[i], behind(i))) ==>
      && ReadFiles(files).Some?
      && Replay(ReadFiles(files).value) == IndexOf(ForumOf(Forum(map[], map[], {}), HistoryOfAll(inputs)))
  {
    var extractor := new SearchDataExtractor();
    code := extractor.StartExtraction(inputs);
    events := extractor.events;
    files := WriteFiles(extractor.events, behind, eventsPerFile);
  }
}
