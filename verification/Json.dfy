/** JSON text: the canonical form of a value, and a parser for it (RFC 8259). */
module JsonText {
  import opened BlobFraming

  const QUOTE: Byte := 34
  const MINUS: Byte := 45
  const COMMA: Byte := 44
  const COLON: Byte := 58
  const BACKSLASH: Byte := 92

  /** The escape table: 0 for characters that stay, 255 for the six-character form, else the character after the
      backslash. */
  function ToEscape(c: Byte): Byte {
    if c == 8 then 98 else if c == 9 then 116 else if c == 10 then 110 else if c == 12 then 102 else if c == 13 then 114
    else if c < 32 then 255
    else if c == 34 || c == 47 || c == 92 then c else 0
  }

  function HexDigit(n: nat): Byte
    requires n < 16
  {
    if n < 10 then 48 + n else 55 + n
  }

  function EscapedByte(c: Byte): Bytes {
    if ToEscape(c) == 0 then [c]
    else if ToEscape(c) < 255 then [BACKSLASH, ToEscape(c)]
    else [BACKSLASH, 117, 48, 48, HexDigit(c / 16), HexDigit(c % 16)]
  }

  function Escaped(s: Bytes): Bytes {
    if s == [] then [] else Escaped(s[..|s| - 1]) + EscapedByte(s[|s| - 1])
  }

  lemma {:induction false} EscapedInFront(c: Byte, s: Bytes)
    ensures Escaped([c] + s) == EscapedByte(c) + Escaped(s)
  {
    var all := [c] + s;
    if s == [] {
      assert all[..0] == [] && Escaped([]) == [] && all[0] == c;
      assert EscapedByte(c) + [] == [] + EscapedByte(c);
    } else {
      assert all[..|all| - 1] == [c] + s[..|s| - 1];
      EscapedInFront(c, s[..|s| - 1]);
    }
  }

  function Digits(n: nat): Bytes {
    if n < 10 then [48 + n] else Digits(n / 10) + [48 + n % 10]
  }

  function NumberText(n: int): Bytes {
    if n < 0 then [MINUS] + Digits(-n) else Digits(n)
  }

  /** The integer type a number is written as. */
  datatype Kind = Unsigned(bits: nat) | Signed(bits: nat) | Unknown

  datatype Value =
    | Null
    | Bool(b: bool)
    | Number(n: int, kind: Kind)
    | Text(s: Bytes)
    | Array(items: Items)
    | Object(members: Members)

  datatype Items = NoItems | Item(head: Value, tail: Items)
  datatype Members = NoMembers | Member(name: Bytes, value: Value, tail: Members)

  const NULL_TEXT: Bytes := [110, 117, 108, 108]
  const TRUE_TEXT: Bytes := [116, 114, 117, 101]
  const FALSE_TEXT: Bytes := [102, 97, 108, 115, 101]

  function Quoted(s: Bytes): Bytes {
    [QUOTE] + Escaped(s) + [QUOTE]
  }

  /** The canonical text, with commas exactly between siblings. */
  function Canonical(v: Value): Bytes {
    match v
    case Null => NULL_TEXT
    case Bool(b) => if b then TRUE_TEXT else FALSE_TEXT
    case Number(n, _) => NumberText(n)
    case Text(s) => Quoted(s)
    case Array(items) => [91] + CanonicalItems(items, true) + [93]
    case Object(members) => [123] + CanonicalMembers(members, true) + [125]
  }

  function Separator(first: bool): Bytes {
    if first then [] else [COMMA]
  }

  function CanonicalItems(items: Items, first: bool): Bytes {
    match items
    case NoItems => []
    case Item(v, tail) => Separator(first) + (Canonical(v) + CanonicalItems(tail, false))
  }

  function CanonicalMembers(members: Members, first: bool): Bytes {
    match members
    case NoMembers => []
    case Member(name, v, tail) =>
      Separator(first) + (Quoted(name) + ([COLON] + (Canonical(v) + CanonicalMembers(tail, false))))
  }

  /** Text does not say which type a number came from. */
  function Plain(v: Value): Value {
    match v
    case Number(n, _) => Number(n, Unknown)
    case Array(items) => Array(PlainItems(items))
    case Object(members) => Object(PlainMembers(members))
    case _ => v
  }

  function PlainItems(items: Items): Items {
    match items
    case NoItems => NoItems
    case Item(v, tail) => Item(Plain(v), PlainItems(tail))
  }

  function PlainMembers(members: Members): Members {
    match members
    case NoMembers => NoMembers
    case Member(name, v, tail) => Member(name, Plain(v), PlainMembers(tail))
  }

  datatype Parsed<A> = Failed | Read(value: A, rest: Bytes)

  function HexValue(c: Byte): int {
    if 48 <= c <= 57 then c - 48 else if 65 <= c <= 70 then c - 55 else if 97 <= c <= 102 then c - 87 else -1
  }

  /** The characters behind an opening quote, up to the closing one; section 7. Only one-byte \u escapes are read. */
  function ParseChars(s: Bytes): (r: Parsed<Bytes>)
    ensures r.Read? ==> |r.rest| < |s|
    decreases |s|
  {
    if s == [] then Failed
    else if s[0] == QUOTE then Read([], s[1..])
    else if s[0] == BACKSLASH then
      if |s| >= 2 && Unescaped(s[1]) >= 0 then Behind(Unescaped(s[1]), ParseChars(s[2..]))
      else if |s| >= 6 && s[1] == 117 && s[2] == 48 && s[3] == 48 && 0 <= HexValue(s[4]) < 8 && HexValue(s[5]) >= 0
      then Behind(HexValue(s[4]) * 16 + HexValue(s[5]), ParseChars(s[6..]))
      else Failed
    else if s[0] < 32 then Failed
    else Behind(s[0], ParseChars(s[1..]))
  }

  function Behind(c: Byte, p: Parsed<Bytes>): Parsed<Bytes> {
    if p.Read? then Read([c] + p.value, p.rest) else Failed
  }

  function Unescaped(c: Byte): int {
    if c == 34 || c == 47 || c == 92 then c
    else if c == 98 then 8 else if c == 102 then 12 else if c == 110 then 10
    else if c == 114 then 13 else if c == 116 then 9
    else -1
  }

  predicate IsDigit(c: Byte) {
    48 <= c <= 57
  }

  function DigitCount(s: Bytes): (n: nat)
    ensures n <= |s|
  {
    if s == [] || !IsDigit(s[0]) then 0 else 1 + DigitCount(s[1..])
  }

  function ValueOf(digits: Bytes): int {
    if digits == [] then 0 else ValueOf(digits[..|digits| - 1]) * 10 + digits[|digits| - 1] - 48
  }

  /** Section 6, integers only: no leading zeros. */
  function ParseNatural(s: Bytes): (r: Parsed<int>)
    ensures r.Read? ==> |r.rest| < |s|
  {
    var n := DigitCount(s);
    if n == 0 || (n > 1 && s[0] == 48) then Failed else Read(ValueOf(s[..n]), s[n..])
  }

  function ParseNumber(s: Bytes): (r: Parsed<Value>)
    ensures r.Read? ==> |r.rest| < |s|
  {
    if s != [] && s[0] == MINUS then
      var p := ParseNatural(s[1..]);
      if p.Read? then Read(Number(-p.value, Unknown), p.rest) else Failed
    else
      var p := ParseNatural(s);
      if p.Read? then Read(Number(p.value, Unknown), p.rest) else Failed
  }

  /** Section 2: a value, without insignificant white space. */
  function ParseValue(s: Bytes): (r: Parsed<Value>)
    ensures r.Read? ==> |r.rest| < |s|
    decreases |s|, 1
  {
    if s == [] then Failed
    else if s[0] == QUOTE then
      var p := ParseChars(s[1..]);
      if p.Read? then Read(Text(p.value), p.rest) else Failed
    else if s[0] == 91 then
      if |s| > 1 && s[1] == 93 then Read(Array(NoItems), s[2..])
      else
        var p := ParseItems(s[1..]);
        if p.Read? then Read(Array(p.value), p.rest) else Failed
    else if s[0] == 123 then
      if |s| > 1 && s[1] == 125 then Read(Object(NoMembers), s[2..])
      else
        var p := ParseMembers(s[1..]);
        if p.Read? then Read(Object(p.value), p.rest) else Failed
    else if NULL_TEXT <= s then Read(Null, s[4..])
    else if TRUE_TEXT <= s then Read(Bool(true), s[4..])
    else if FALSE_TEXT <= s then Read(Bool(false), s[5..])
    else ParseNumber(s)
  }

  /** At least one item, up to and including the closing bracket. */
  function ParseItems(s: Bytes): (r: Parsed<Items>)
    ensures r.Read? ==> |r.rest| < |s|
    decreases |s|, 2
  {
    var p := ParseValue(s);
    if p.Failed? || p.rest == [] then Failed
    else if p.rest[0] == 93 then Read(Item(p.value, NoItems), p.rest[1..])
    else if p.rest[0] != COMMA then Failed
    else
      var q := ParseItems(p.rest[1..]);
      if q.Read? then Read(Item(p.value, q.value), q.rest) else Failed
  }

  function ParseMembers(s: Bytes): (r: Parsed<Members>)
    ensures r.Read? ==> |r.rest| < |s|
    decreases |s|, 2
  {
    if s == [] || s[0] != QUOTE then Failed
    else
      var name := ParseChars(s[1..]);
      if name.Failed? || name.rest == [] || name.rest[0] != COLON then Failed
      else
        var p := ParseValue(name.rest[1..]);
        if p.Failed? || p.rest == [] then Failed
        else if p.rest[0] == 125 then Read(Member(name.value, p.value, NoMembers), p.rest[1..])
        else if p.rest[0] != COMMA then Failed
        else
          var q := ParseMembers(p.rest[1..]);
          if q.Read? then Read(Member(name.value, p.value, q.value), q.rest) else Failed
  }

  lemma ParseOneChar(c: Byte, tail: Bytes)
    ensures ParseChars(EscapedByte(c) + tail) == Behind(c, ParseChars(tail))
  {
    var s := EscapedByte(c) + tail;
    var e := ToEscape(c);
    if e == 0 {
      assert s[0] == c && s[1..] == tail;
    } else if e < 255 {
      assert s[0] == BACKSLASH && s[1] == e && s[2..] == tail;
      assert Unescaped(e) == c;
    } else {
      assert s[0] == BACKSLASH && s[1] == 117 && s[4] == HexDigit(c / 16) && s[5] == HexDigit(c % 16) && s[6..] == tail;
      assert HexValue(s[4]) == c / 16 && HexValue(s[5]) == c % 16;
    }
  }

  /** Reading an escaped string up to the closing quote gives the string. */
  lemma {:induction false} UnescapeUndoesEscape(s: Bytes, tail: Bytes)
    ensures ParseChars(Escaped(s) + ([QUOTE] + tail)) == Read(s, tail)
  {
    if s == [] {
      assert Escaped(s) + ([QUOTE] + tail) == [QUOTE] + tail;
      assert ([QUOTE] + tail)[1..] == tail;
    } else {
      var c, rest := s[0], s[1..];
      assert s == [c] + rest;
      EscapedInFront(c, rest);
      var behind := Escaped(rest) + ([QUOTE] + tail);
      assert Escaped(s) + ([QUOTE] + tail) == EscapedByte(c) + behind;
      UnescapeUndoesEscape(rest, tail);
      ParseOneChar(c, behind);
    }
  }

  lemma {:induction false} DigitsShape(n: nat)
    ensures Digits(n) != [] && (forall i | 0 <= i < |Digits(n)| :: IsDigit(Digits(n)[i])) && ValueOf(Digits(n)) == n
    ensures Digits(n)[0] == 48 ==> n == 0
  {
    if n >= 10 {
      DigitsShape(n / 10);
      assert Digits(n)[..|Digits(n)| - 1] == Digits(n / 10);
    } else {
      assert Digits(n)[..0] == [];
    }
  }

  predicate NoDigitFirst(tail: Bytes) {
    tail == [] || !IsDigit(tail[0])
  }

  lemma {:induction false} DigitsEnd(digits: Bytes, tail: Bytes)
    requires (forall i | 0 <= i < |digits| :: IsDigit(digits[i])) && NoDigitFirst(tail)
    ensures DigitCount(digits + tail) == |digits|
  {
    if digits == [] {
      assert digits + tail == tail;
    } else {
      assert (digits + tail)[1..] == digits[1..] + tail;
      DigitsEnd(digits[1..], tail);
    }
  }

  lemma ParseDigits(n: nat, tail: Bytes)
    requires NoDigitFirst(tail)
    ensures ParseNatural(Digits(n) + tail) == Read(n, tail)
  {
    DigitsShape(n);
    DigitsEnd(Digits(n), tail);
    var s := Digits(n) + tail;
    assert s[..|Digits(n)|] == Digits(n) && s[|Digits(n)|..] == tail;
  }

  /** Reading back a number text. */
  lemma ParseNumberText(n: int, kind: Kind, tail: Bytes)
    requires NoDigitFirst(tail)
    ensures ParseValue(Canonical(Number(n, kind)) + tail) == Read(Number(n, Unknown), tail)
  {
    hide ParseNumber, Digits, ParseValue;
    if n < 0 { NegativeText(-n, tail); } else { NaturalText(n, tail); }
    NumberFirst(NumberText(n) + tail);
  }

  lemma NaturalText(n: nat, tail: Bytes)
    requires NoDigitFirst(tail)
    ensures ParseNumber(Digits(n) + tail) == Read(Number(n, Unknown), tail)
    ensures Digits(n) + tail != [] && IsDigit((Digits(n) + tail)[0])
  {
    DigitsShape(n);
    ParseDigits(n, tail);
    hide Digits, ParseNatural;
    assert (Digits(n) + tail)[0] == Digits(n)[0];
  }

  lemma NegativeText(n: int, tail: Bytes)
    requires n >= 0 && NoDigitFirst(tail)
    ensures ParseNumber([MINUS] + Digits(n) + tail) == Read(Number(-n, Unknown), tail)
    ensures ([MINUS] + Digits(n) + tail)[0] == MINUS
  {
    ParseDigits(n, tail);
    hide Digits, ParseNatural;
    assert ([MINUS] + Digits(n) + tail)[1..] == Digits(n) + tail;
  }

  lemma NumberFirst(s: Bytes)
    requires s != [] && (IsDigit(s[0]) || s[0] == MINUS)
    ensures ParseValue(s) == ParseNumber(s)
  {
    hide ParseNumber, ParseChars, ParseItems, ParseMembers;
    assert NULL_TEXT[0] == 110 && TRUE_TEXT[0] == 116 && FALSE_TEXT[0] == 102;
  }

  lemma ParseQuoted(s: Bytes, tail: Bytes)
    ensures Quoted(s) + tail != [] && (Quoted(s) + tail)[0] == QUOTE
    ensures ParseChars((Quoted(s) + tail)[1..]) == Read(s, tail)
  {
    assert (Quoted(s) + tail)[1..] == Escaped(s) + ([QUOTE] + tail);
    UnescapeUndoesEscape(s, tail);
  }

  lemma ParseWords(tail: Bytes)
    ensures ParseValue(NULL_TEXT + tail) == Read(Null, tail)
    ensures ParseValue(TRUE_TEXT + tail) == Read(Bool(true), tail)
    ensures ParseValue(FALSE_TEXT + tail) == Read(Bool(false), tail)
  {
    assert (NULL_TEXT + tail)[4..] == tail && (TRUE_TEXT + tail)[4..] == tail && (FALSE_TEXT + tail)[5..] == tail;
    assert (TRUE_TEXT + tail)[0] == 116 && (FALSE_TEXT + tail)[0] == 102 && (NULL_TEXT + tail)[0] == 110;
    assert NULL_TEXT <= NULL_TEXT + tail && TRUE_TEXT <= TRUE_TEXT + tail && FALSE_TEXT <= FALSE_TEXT + tail;
  }

  lemma CanonicalStart(v: Value)
    ensures Canonical(v) != [] && Canonical(v)[0] !in {93, 125}
  {
    if v.Number? { DigitsShape(if v.n < 0 then -v.n else v.n); }
  }

  /** Parsing undoes writing, for every value and whatever follows it. */
  lemma {:induction false} ParseUndoesWrite(v: Value, tail: Bytes)
    requires NoDigitFirst(tail)
    ensures ParseValue(Canonical(v) + tail) == Read(Plain(v), tail)
    decreases v, 0
  {
    match v
    case Null => ParseWords(tail);
    case Bool(_) => ParseWords(tail);
    case Number(n, kind) => ParseNumberText(n, kind, tail);
    case Text(s) => ParseQuoted(s, tail);
    case Array(items) => ParseArrayText(items, tail);
    case Object(members) => ParseObjectText(members, tail);
  }

  lemma {:induction false} ParseArrayText(items: Items, tail: Bytes)
    ensures ParseValue(Canonical(Array(items)) + tail) == Read(Array(PlainItems(items)), tail)
    decreases items, 1
  {
    var s := Canonical(Array(items)) + tail;
    if items.NoItems? {
      assert s == [91, 93] + tail && s[2..] == tail;
    } else {
      assert s[1..] == CanonicalItems(items, true) + ([93] + tail);
      CanonicalStart(items.head);
      assert s[1] == Canonical(items.head)[0];
      ParseItemsText(items, tail);
    }
  }

  lemma {:induction false} ParseItemsText(items: Items, tail: Bytes)
    requires items.Item?
    ensures ParseItems(CanonicalItems(items, true) + ([93] + tail)) == Read(PlainItems(items), tail)
    decreases items, 0
  {
    var s := CanonicalItems(items, true) + ([93] + tail);
    var behind := CanonicalItems(items.tail, false) + ([93] + tail);
    assert s == Canonical(items.head) + behind;
    if items.tail.NoItems? {
      assert behind == [93] + tail && behind[1..] == tail;
    } else {
      assert behind[0] == COMMA && behind[1..] == CanonicalItems(items.tail, true) + ([93] + tail);
      ParseItemsText(items.tail, tail);
    }
    ParseUndoesWrite(items.head, behind);
  }

  lemma {:induction false} ParseObjectText(members: Members, tail: Bytes)
    ensures ParseValue(Canonical(Object(members)) + tail) == Read(Object(PlainMembers(members)), tail)
    decreases members, 1
  {
    var s := Canonical(Object(members)) + tail;
    if members.NoMembers? {
      assert s == [123, 125] + tail && s[2..] == tail;
    } else {
      assert s[1..] == CanonicalMembers(members, true) + ([125] + tail);
      assert s[1] == QUOTE;
      ParseMembersText(members, tail);
    }
  }

  lemma CommaOrEnd(members: Members, tail: Bytes)
    ensures var behind := CanonicalMembers(members, false) + ([125] + tail);
      if members.NoMembers? then behind[0] == 125 && behind[1..] == tail
      else behind[0] == COMMA && behind[1..] == CanonicalMembers(members, true) + ([125] + tail)
  {
    hide Quoted, Canonical;
    var behind := CanonicalMembers(members, false) + ([125] + tail);
    if members.NoMembers? {
      assert behind == [125] + tail;
    } else {
      assert CanonicalMembers(members, false) == [COMMA] + CanonicalMembers(members, true);
    }
  }

  lemma {:induction false} ParseMembersText(members: Members, tail: Bytes)
    requires members.Member?
    ensures ParseMembers(CanonicalMembers(members, true) + ([125] + tail)) == Read(PlainMembers(members), tail)
    decreases members, 0
  {
    var s := CanonicalMembers(members, true) + ([125] + tail);
    var behind := CanonicalMembers(members.tail, false) + ([125] + tail);
    var value := Canonical(members.value) + behind;
    assert s == Quoted(members.name) + ([COLON] + value);
    ParseQuoted(members.name, [COLON] + value);
    CommaOrEnd(members.tail, tail);
    assert ([COLON] + value)[1..] == value;
    hide Quoted, Escaped, ParseChars;
    if members.tail.Member? { ParseMembersText(members.tail, tail); }
    ParseUndoesWrite(members.value, behind);
  }
}

/** The writer: a growing buffer, a stack of comma states, and what it emits for a whole value. */
module JsonWriters {
  import opened BlobFraming
  import opened JsonText

  class StringBuffer {
    var buffer: array<Byte>
    const growWith: nat
    var capacity: nat
    var used: nat

    constructor (growWith: nat)
      requires growWith >= 128
      ensures Valid() && View() == [] && fresh(buffer)
    {
      buffer := new Byte[growWith](_ => 0);
      this.growWith, capacity, used := growWith, growWith, 0;
    }

    ghost predicate Valid()
      reads this
    {
      buffer.Length == capacity && used <= capacity && growWith >= 128
    }

    ghost function View(): Bytes
      requires Valid()
      reads this, buffer
    {
      buffer[..used]
    }

    method Clear()
      requires Valid()
      modifies `used
      ensures Valid() && View() == [] && buffer == old(buffer)
    {
      used := 0;
    }

    /** A larger buffer with the same contents. */
    method Resize()
      requires Valid()
      modifies `buffer, `capacity
      ensures Valid() && View() == old(View()) && fresh(buffer) && capacity == old(capacity) + growWith
        && used == old(used)
    {
      var newBuffer := new Byte[capacity + growWith](i requires 0 <= i < capacity + growWith reads this, buffer =>
        if i < used && i < buffer.Length then buffer[i] else 0);
      capacity := capacity + growWith;
      assert newBuffer[..used] == buffer[..used];
      buffer := newBuffer;
    }

    method WriteChar(value: Byte)
      requires Valid()
      modifies this, buffer
      ensures Valid() && View() == old(View()) + [value] && (buffer == old(buffer) || fresh(buffer))
    {
      if capacity < used + 1 { Resize(); }
      buffer[used] := value;
      used := used + 1;
    }

    method Write(value: Bytes)
      requires Valid()
      modifies this, buffer
      ensures Valid() && View() == old(View()) + value && (buffer == old(buffer) || fresh(buffer))
    {
      while capacity < used + |value|
        invariant Valid() && View() == old(View()) && used == old(used) && (buffer == old(buffer) || fresh(buffer))
        decreases used + |value| - capacity
      {
        Resize();
      }
      for i := 0 to |value|
        invariant Valid() && used == old(used) && buffer[..used + i] == old(View()) + value[..i]
        invariant used + |value| <= capacity
        modifies buffer
      {
        buffer[used + i] := value[i];
        assert value[..i + 1] == value[..i] + [value[i]];
      }
      assert value[..|value|] == value;
      used := used + |value|;
    }
  }

  predicate IsEscapeNeeded(value: Bytes) {
    exists i | 0 <= i < |value| :: ToEscape(value[i]) != 0
  }

  lemma {:induction false} NothingToEscape(value: Bytes)
    requires !IsEscapeNeeded(value)
    ensures Escaped(value) == value
  {
    if value != [] { NothingToEscape(value[..|value| - 1]); }
  }

  /** Writes runs of plain characters in one piece, flushing them before each escape. */
  method EscapeString(value: Bytes, destination: StringBuffer)
    requires destination.Valid()
    modifies destination, destination.buffer
    ensures destination.Valid() && destination.View() == old(destination.View()) + Escaped(value)
    ensures destination.buffer == old(destination.buffer) || fresh(destination.buffer)
  {
    hide Escaped, EscapedByte, IsEscapeNeeded, ToEscape;
    if !IsEscapeNeeded(value) {
      NothingToEscape(value);
      destination.Write(value);
      return;
    }
    var directWriteFrom, i := 0, 0;
    EscapedNothing(value);
    while i < |value|
      invariant directWriteFrom <= i <= |value| && destination.Valid()
      invariant destination.buffer == old(destination.buffer) || fresh(destination.buffer)
      invariant destination.View() + value[directWriteFrom..i] == old(destination.View()) + Escaped(value[..i])
      decreases |value| - i
    {
      EscapedNext(value, i, old(destination.View()));
      ghost var sofar := old(destination.View()) + Escaped(value[..i]);
      if ToEscape(value[i]) != 0 {
        if directWriteFrom < i { destination.Write(value[directWriteFrom..i]); }
        directWriteFrom := i + 1;
        assert destination.View() == sofar;
        WriteEscape(value[i], destination);
        assert value[directWriteFrom..i + 1] == [];
      } else {
        assert value[directWriteFrom..i + 1] == value[directWriteFrom..i] + [value[i]];
        Regroup(destination.View(), value[directWriteFrom..i], [value[i]]);
      }
      i := i + 1;
    }
    assert value[..i] == value;
    if directWriteFrom < i { destination.Write(value[directWriteFrom..i]); }
  }

  lemma EscapedNothing(value: Bytes)
    ensures Escaped(value[..0]) == [] && value[0..0] == []
  {
  }

  lemma EscapedNext(value: Bytes, i: nat, before: Bytes)
    requires i < |value|
    ensures before + Escaped(value[..i + 1]) == before + Escaped(value[..i]) + EscapedByte(value[i])
    ensures ToEscape(value[i]) == 0 ==> EscapedByte(value[i]) == [value[i]]
  {
    assert value[..i + 1][..i] == value[..i];
  }

  /** The two-character or six-character escape of one character. */
  method WriteEscape(c: Byte, destination: StringBuffer)
    requires destination.Valid() && ToEscape(c) != 0
    modifies destination, destination.buffer
    ensures destination.Valid() && destination.View() == old(destination.View()) + EscapedByte(c)
    ensures destination.buffer == old(destination.buffer) || fresh(destination.buffer)
  {
    var r := ToEscape(c);
    if r < 255 {
      destination.Write([BACKSLASH, r]);
    } else {
      destination.Write([BACKSLASH, 117, 48, 48, HexDigit(c / 16), HexDigit(c % 16)]);
    }
  }

  /** What the writer remembers of one open array or object. */
  datatype State = State(enumerationStarted: bool, commaRequired: bool, propertyNameAdded: bool)

  predicate NeedsComma(s: State) {
    s.enumerationStarted && s.commaRequired && !s.propertyNameAdded
  }

  function AfterValue(s: State): State {
    State(s.enumerationStarted, s.enumerationStarted || s.commaRequired, false)
  }

  predicate FitsKind(n: int, kind: Kind) {
    match kind
    case Signed(bits) => bits in {8, 16, 32, 64} && Minimum(kind) <= n < -Minimum(kind)
    case Unsigned(bits) => bits in {8, 16, 32, 64} && 0 <= n < -2 * Minimum(kind)
    case Unknown => false
  }

  /** The least value of the signed type of a width. */
  function Minimum(kind: Kind): int {
    if kind.Unknown? then 0
    else if kind.bits == 8 then -0x80
    else if kind.bits == 16 then -0x8000
    else if kind.bits == 32 then -0x8000_0000
    else -0x8000_0000_0000_0000
  }

  predicate AtMinimum(v: Value) {
    v.Number? && v.kind.Signed? && v.n == Minimum(v.kind)
  }

  function PowerOf2(n: nat): nat {
    if n == 0 then 1 else 2 * PowerOf2(n - 1)
  }

  /** The value that is written without its comma, and the range of each integer type, in powers of two. */
  lemma AtMinimumIs(n: int, bits: nat)
    requires bits in {8, 16, 32, 64}
    ensures AtMinimum(Number(n, Signed(bits))) <==> n + PowerOf2(bits - 1) == 0
    ensures FitsKind(n, Signed(bits)) <==> 0 <= n + PowerOf2(bits - 1) < PowerOf2(bits)
    ensures FitsKind(n, Unsigned(bits)) <==> 0 <= n < PowerOf2(bits)
    ensures !AtMinimum(Number(n, Unsigned(bits)))
  {
    assert PowerOf2(7) == 0x80;
    PowersAdd(7, 8);
    PowersAdd(8, 8);
    PowersAdd(15, 16);
    PowersAdd(16, 16);
    PowersAdd(31, 32);
    assert PowerOf2(8) == 0x100;
    assert PowerOf2(16) == 0x1_0000;
    assert PowerOf2(32) == 0x1_0000_0000;
  }

  lemma {:induction false} PowersAdd(a: nat, b: nat)
    ensures PowerOf2(a + b) == PowerOf2(a) * PowerOf2(b)
  {
    if a > 0 { PowersAdd(a - 1, b); }
  }

  predicate InDomain(v: Value) {
    match v
    case Number(n, kind) => FitsKind(n, kind)
    case Array(items) => ItemsInDomain(items)
    case Object(members) => MembersInDomain(members)
    case _ => true
  }

  predicate ItemsInDomain(items: Items) {
    items.Item? ==> InDomain(items.head) && ItemsInDomain(items.tail)
  }

  predicate MembersInDomain(members: Members) {
    members.Member? ==> InDomain(members.value) && MembersInDomain(members.tail)
  }

  /** What is emitted for a value: like the canonical text, but the least value of a signed type takes no comma. */
  function Emitted(v: Value, comma: bool): Bytes {
    Separator(!comma || AtMinimum(v)) + EmittedBody(v)
  }

  function EmittedBody(v: Value): Bytes {
    match v
    case Array(items) => [91] + EmittedItems(items, true) + [93]
    case Object(members) => [123] + EmittedMembers(members, true) + [125]
    case _ => Canonical(v)
  }

  function EmittedItems(items: Items, first: bool): Bytes {
    match items
    case NoItems => []
    case Item(v, tail) => Separator(first || AtMinimum(v)) + EmittedBody(v) + EmittedItems(tail, false)
  }

  function EmittedMembers(members: Members, first: bool): Bytes {
    match members
    case NoMembers => []
    case Member(name, v, tail) =>
      Separator(first) + Quoted(name) + [COLON] + EmittedBody(v) + EmittedMembers(tail, false)
  }

  /** How many commas go missing: one for each least value that is not the first item of its array. */
  function LostCommas(v: Value): nat {
    match v
    case Array(items) => LostInItems(items, true)
    case Object(members) => LostInMembers(members)
    case _ => 0
  }

  function LostInItems(items: Items, first: bool): nat {
    match items
    case NoItems => 0
    case Item(v, tail) => (if !first && AtMinimum(v) then 1 else 0) + LostCommas(v) + LostInItems(tail, false)
  }

  function LostInMembers(members: Members): nat {
    match members
    case NoMembers => 0
    case Member(_, v, tail) => LostCommas(v) + LostInMembers(tail)
  }

  lemma {:induction false} EmittedLength(v: Value)
    ensures |EmittedBody(v)| + LostCommas(v) == |Canonical(v)|
    ensures LostCommas(v) == 0 ==> EmittedBody(v) == Canonical(v)
    decreases v, 0
  {
    match v
    case Array(items) => EmittedItemsLength(items, true);
    case Object(members) => EmittedMembersLength(members, true);
    case _ =>
  }

  lemma {:induction false} EmittedItemsLength(items: Items, first: bool)
    ensures |EmittedItems(items, first)| + LostInItems(items, first) == |CanonicalItems(items, first)|
    ensures LostInItems(items, first) == 0 ==> EmittedItems(items, first) == CanonicalItems(items, first)
    decreases items, 0
  {
    if items.Item? {
      EmittedLength(items.head);
      EmittedItemsLength(items.tail, false);
    }
  }

  lemma {:induction false} EmittedMembersLength(members: Members, first: bool)
    ensures |EmittedMembers(members, first)| + LostInMembers(members) == |CanonicalMembers(members, first)|
    ensures LostInMembers(members) == 0 ==> EmittedMembers(members, first) == CanonicalMembers(members, first)
    decreases members, 0
  {
    if members.Member? {
      EmittedLength(members.value);
      EmittedMembersLength(members.tail, false);
    }
  }

  lemma EmittedStart(v: Value)
    ensures EmittedBody(v) != [] && EmittedBody(v)[0] !in {93, 125}
    ensures AtMinimum(v) ==> EmittedBody(v)[0] == MINUS
  {
    CanonicalStart(v);
  }

  /** A text that lacks a comma somewhere is rejected, whatever follows it. */
  lemma {:induction false} LostCommaFails(v: Value, tail: Bytes)
    requires LostCommas(v) > 0
    ensures ParseValue(EmittedBody(v) + tail).Failed?
    decreases v, 0
  {
    match v
    case Array(items) =>
      var s := EmittedBody(v) + tail;
      assert s[1..] == EmittedItems(items, true) + ([93] + tail);
      EmittedStart(items.head);
      assert s[1] == EmittedBody(items.head)[0];
      LostCommaFailsItems(items, tail);
    case Object(members) =>
      var s := EmittedBody(v) + tail;
      assert s[1..] == EmittedMembers(members, true) + ([125] + tail);
      assert s[1] == QUOTE;
      LostCommaFailsMembers(members, tail);
    case _ =>
  }

  /** Between two items stands a comma, or the minus sign of the second one. */
  lemma EmittedBehind(items: Items, tail: Bytes)
    requires items.Item?
    ensures var behind, next := EmittedItems(items, false) + ([93] + tail), EmittedItems(items, true) + ([93] + tail);
      behind != [] && if AtMinimum(items.head) then behind[0] == MINUS else behind[0] == COMMA && behind[1..] == next
  {
    EmittedStart(items.head);
    hide EmittedBody, AtMinimum;
    assert EmittedItems(items, true)[0] == EmittedBody(items.head)[0];
    assert EmittedItems(items, false) == Separator(AtMinimum(items.head)) + EmittedItems(items, true);
  }

  /** Where the comma is missing, the parser finds a minus sign. */
  lemma {:induction false} LostCommaFailsItems(items: Items, tail: Bytes)
    requires items.Item? && LostInItems(items, true) > 0
    ensures ParseItems(EmittedItems(items, true) + ([93] + tail)).Failed?
    decreases items, 0
  {
    var v, more := items.head, items.tail;
    var behind := EmittedItems(more, false) + ([93] + tail);
    assert EmittedItems(items, true) + ([93] + tail) == EmittedBody(v) + behind;
    if LostCommas(v) > 0 {
      LostCommaFails(v, behind);
    } else {
      EmittedBehind(more, tail);
      EmittedLength(v);
      ParseUndoesWrite(v, behind);
      if !AtMinimum(more.head) { LostCommaFailsItems(more, tail); }
    }
  }

  lemma EmittedCommaOrEnd(members: Members, tail: Bytes)
    ensures var behind := EmittedMembers(members, false) + ([125] + tail);
      if members.NoMembers? then behind[0] == 125 && behind[1..] == tail
      else behind[0] == COMMA && behind[1..] == EmittedMembers(members, true) + ([125] + tail)
  {
    hide Quoted, EmittedBody;
    if members.Member? {
      assert EmittedMembers(members, false) == [COMMA] + EmittedMembers(members, true);
    }
  }

  lemma {:induction false} LostCommaFailsMembers(members: Members, tail: Bytes)
    requires members.Member? && LostInMembers(members) > 0
    ensures ParseMembers(EmittedMembers(members, true) + ([125] + tail)).Failed?
    decreases members, 0
  {
    var v, more := members.value, members.tail;
    var behind := EmittedMembers(more, false) + ([125] + tail);
    var value := EmittedBody(v) + behind;
    assert EmittedMembers(members, true) + ([125] + tail) == Quoted(members.name) + ([COLON] + value);
    ParseQuoted(members.name, [COLON] + value);
    EmittedCommaOrEnd(more, tail);
    assert ([COLON] + value)[1..] == value;
    hide Quoted, Escaped, ParseChars;
    if LostCommas(v) > 0 {
      LostCommaFails(v, behind);
    } else {
      EmittedLength(v);
      ParseUndoesWrite(v, behind);
      LostCommaFailsMembers(more, tail);
    }
  }

  /** The writer's text is the canonical one, and a parser reads the value back from it, if and only if no comma goes
      missing. */
  lemma WriterMeetsParser(v: Value)
    ensures EmittedBody(v) == Canonical(v) <==> LostCommas(v) == 0
    ensures ParseValue(EmittedBody(v)) == Read(Plain(v), []) <==> LostCommas(v) == 0
  {
    EmittedLength(v);
    assert EmittedBody(v) + [] == EmittedBody(v);
    if LostCommas(v) == 0 { ParseUndoesWrite(v, []); } else { LostCommaFails(v, []); }
  }

  /** A lost comma is not harmless: an array of 1 and the least 8-bit number comes out as text no parser accepts. */
  lemma LostCommaBreaksText()
    ensures var v := Array(Item(Number(1, Signed(8)), Item(Number(-128, Signed(8)), NoItems)));
      InDomain(v) && LostCommas(v) == 1 && ParseValue(EmittedBody(v)).Failed?
  {
    var v := Array(Item(Number(1, Signed(8)), Item(Number(-128, Signed(8)), NoItems)));
    assert Digits(1) == [49] && Digits(128) == [49, 50, 56];
    var s: Bytes := [91, 49, 45, 49, 50, 56, 93];
    assert EmittedBody(v) == s;
    assert s[1..] == Digits(1) + [45, 49, 50, 56, 93];
    ParseNumberText(1, Unknown, [45, 49, 50, 56, 93]);
  }

  function Depth(v: Value): nat {
    match v
    case Array(items) => 1 + ItemsDepth(items)
    case Object(members) => 1 + MembersDepth(members)
    case _ => 0
  }

  function Max(a: nat, b: nat): nat {
    if a < b then b else a
  }

  function ItemsDepth(items: Items): nat {
    if items.NoItems? then 0 else Max(Depth(items.head), ItemsDepth(items.tail))
  }

  function MembersDepth(members: Members): nat {
    if members.NoMembers? then 0 else Max(Depth(members.value), MembersDepth(members.tail))
  }

  const MAX_STATE_DEPTH := 32

  function MaxDigitsOfNumber(bits: nat): nat {
    if bits == 8 then 3 else if bits == 16 then 5 else if bits == 32 then 10 else 20
  }

  function Power10(k: nat): nat {
    if k == 0 then 1 else 10 * Power10(k - 1)
  }

  lemma {:induction false} DigitsFit(n: nat, k: nat)
    requires k > 0 && n < Power10(k)
    ensures |Digits(n)| <= k
  {
    if n >= 10 { DigitsFit(n / 10, k - 1); }
  }

  lemma KindFits(n: nat, kind: Kind)
    requires !kind.Unknown? && kind.bits in {8, 16, 32, 64} && n <= -2 * Minimum(kind)
    ensures |Digits(n)| <= MaxDigitsOfNumber(kind.bits)
  {
    assert Power10(3) == 1000;
    assert Power10(5) == 1_00000;
    assert Power10(10) == 1_00000_00000;
    assert Power10(15) == 1_00000_00000_00000;
    assert Power10(20) == 1_00000_00000_00000_00000;
    DigitsFit(n, MaxDigitsOfNumber(kind.bits));
  }

  class JsonWriter {
    const out: StringBuffer
    const stateStack: array<State>
    var stateIndex: int

    constructor (out: StringBuffer)
      requires out.Valid()
      ensures Valid() && this.out == out && Stack() == [State(false, false, false)] && fresh(stateStack)
      ensures out.View() == old(out.View())
    {
      this.out := out;
      stateStack := new State[MAX_STATE_DEPTH](_ => State(false, false, false));
      stateIndex := 0;
    }

    ghost predicate Valid()
      reads this, stateStack, out
    {
      out.Valid() && stateStack.Length == MAX_STATE_DEPTH && 0 <= stateIndex < MAX_STATE_DEPTH
    }

    /** The states of everything that is open, innermost last. */
    ghost function Stack(): (s: seq<State>)
      requires Valid()
      reads this, stateStack, out
      ensures |s| == stateIndex + 1
    {
      stateStack[..stateIndex + 1]
    }

    ghost function Output(): Bytes
      requires Valid()
      reads this, stateStack, out, out.buffer
    {
      out.View()
    }

    /** The stack after a value has been written at its top. */
    static ghost function Touched(stack: seq<State>): seq<State>
      requires stack != []
    {
      stack[..|stack| - 1] + [AfterValue(stack[|stack| - 1])]
    }

    static ghost predicate CommaAt(stack: seq<State>)
      requires stack != []
    {
      NeedsComma(stack[|stack| - 1])
    }

    method IsCommaNeeded() returns (result: bool)
      requires Valid()
      modifies stateStack
      ensures Valid() && result == CommaAt(old(Stack())) && Stack() == Touched(old(Stack()))
    {
      var state := stateStack[stateIndex];
      result := state.enumerationStarted && state.commaRequired && !state.propertyNameAdded;
      stateStack[stateIndex] := State(state.enumerationStarted, state.enumerationStarted || state.commaRequired, false);
      assert stateStack[..stateIndex] == old(stateStack[..stateIndex + 1][..stateIndex]);
    }

    method PushState(state: State)
      requires Valid() && stateIndex + 1 < MAX_STATE_DEPTH
      modifies `stateIndex, stateStack
      ensures Valid() && Stack() == old(Stack()) + [state]
    {
      stateIndex := stateIndex + 1;
      stateStack[stateIndex] := state;
      assert stateStack[..stateIndex] == old(stateStack[..stateIndex + 1]);
    }

    method PopState()
      requires Valid() && stateIndex > 0
      modifies `stateIndex
      ensures Valid() && Stack() == old(Stack())[..|old(Stack())| - 1]
    {
      stateIndex := stateIndex - 1;
    }

    /** Anything written as a whole: a comma if one is due, then the text. */
    method WriteText(text: Bytes)
      requires Valid()
      modifies stateStack, out, out.buffer
      ensures Valid() && Output() == old(Output()) + Separator(!CommaAt(old(Stack()))) + text
      ensures Stack() == Touched(old(Stack())) && (out.buffer == old(out.buffer) || fresh(out.buffer))
    {
      var comma := IsCommaNeeded();
      ghost var stack := Stack();
      if comma { out.Write([COMMA] + text); } else { out.Write(text); }
      assert Stack() == stack;
    }

    method Null()
      requires Valid()
      modifies stateStack, out, out.buffer
      ensures Valid() && Output() == old(Output()) + Separator(!CommaAt(old(Stack()))) + NULL_TEXT
      ensures Stack() == Touched(old(Stack())) && (out.buffer == old(out.buffer) || fresh(out.buffer))
    {
      WriteText(NULL_TEXT);
    }

    method WriteBool(value: bool)
      requires Valid()
      modifies stateStack, out, out.buffer
      ensures Valid() && Output()
        == old(Output()) + Separator(!CommaAt(old(Stack()))) + if value then TRUE_TEXT else FALSE_TEXT
      ensures Stack() == Touched(old(Stack())) && (out.buffer == old(out.buffer) || fresh(out.buffer))
    {
      WriteText(if value then TRUE_TEXT else FALSE_TEXT);
    }

    /** startArray and startObject */
    method Start(bracket: Byte)
      requires Valid() && stateIndex + 1 < MAX_STATE_DEPTH
      modifies `stateIndex, stateStack, out, out.buffer
      ensures Valid() && Output() == old(Output()) + Separator(!CommaAt(old(Stack()))) + [bracket]
      ensures Stack() == Touched(old(Stack())) + [State(true, false, false)]
        && (out.buffer == old(out.buffer) || fresh(out.buffer))
    {
      WriteText([bracket]);
      PushState(State(true, false, false));
    }

    /** endArray and endObject */
    method End(bracket: Byte)
      requires Valid() && stateIndex > 0
      modifies `stateIndex, out, out.buffer
      ensures Valid() && Output() == old(Output()) + [bracket]
      ensures Stack() == old(Stack())[..|old(Stack())| - 1] && (out.buffer == old(out.buffer) || fresh(out.buffer))
    {
      out.WriteChar(bracket);
      PopState();
    }

    /** A length of zero is looked up again as that of a zero-terminated string. */
    method WriteEscapedString(value: Bytes, length: nat)
      requires Valid() && length <= |value| && (length == 0 ==> 0 in value)
      modifies stateStack, out, out.buffer
      ensures Valid() && Output()
        == old(Output()) + Separator(!CommaAt(old(Stack()))) + Quoted(value[..LengthUsed(value, length)])
      ensures Stack() == Touched(old(Stack())) && (out.buffer == old(out.buffer) || fresh(out.buffer))
    {
      hide Escaped, EscapedByte, LengthUsed, NeedsComma, AfterValue, Separator;
      WriteText([QUOTE]);
      ghost var stack := Stack();
      EscapeString(value[..LengthUsed(value, length)], out);
      out.WriteChar(QUOTE);
      assert Stack() == stack;
    }

    method NewProperty(name: Bytes)
      requires Valid()
      modifies stateStack, out, out.buffer
      ensures Valid() && Output() == old(Output()) + Separator(!CommaAt(old(Stack()))) + Quoted(name) + [COLON]
      ensures Stack() == WithProperty(Touched(old(Stack()))) && (out.buffer == old(out.buffer) || fresh(out.buffer))
    {
      TerminatedLength(name);
      WriteEscapedString(name + [0], |name|);
      out.WriteChar(COLON);
      ghost var stack := Touched(old(Stack()));
      assert Stack() == stack;
      stateStack[stateIndex] := stateStack[stateIndex].(propertyNameAdded := true);
      assert Stack() == WithProperty(stack);
    }

    /** The caller supplies the punctuation and decides about the comma. */
    method NewPropertyRaw(name: Bytes)
      requires Valid()
      modifies stateStack, out, out.buffer
      ensures Valid() && Output() == old(Output()) + name
      ensures Stack() == WithProperty(old(Stack())) && (out.buffer == old(out.buffer) || fresh(out.buffer))
    {
      ghost var stack := Stack();
      out.Write(name);
      assert Stack() == stack;
      stateStack[stateIndex] := stateStack[stateIndex].(propertyNameAdded := true);
      assert Stack() == WithProperty(stack);
    }

    /** For a text that is known to need no escapes. */
    method WriteSafeString(value: Bytes)
      requires Valid()
      modifies stateStack, out, out.buffer
      ensures Valid() && Output() == old(Output()) + Separator(!CommaAt(old(Stack()))) + ([QUOTE] + value + [QUOTE])
      ensures Stack() == Touched(old(Stack())) && (out.buffer == old(out.buffer) || fresh(out.buffer))
    {
      WriteText([QUOTE]);
      ghost var stack := Stack();
      out.Write(value);
      out.WriteChar(QUOTE);
      assert Stack() == stack;
    }

    static ghost function WithProperty(stack: seq<State>): seq<State>
      requires stack != []
    {
      stack[..|stack| - 1] + [stack[|stack| - 1].(propertyNameAdded := true)]
    }

    /** Digits are filled in from the end of a fixed buffer; the least value of a signed type is written as it is,
        without a comma. */
    method WriteNumber(value: int, kind: Kind)
      requires Valid() && FitsKind(value, kind)
      modifies stateStack, out, out.buffer
      ensures Valid() && Output() == old(Output()) + Emitted(Number(value, kind), CommaAt(old(Stack())))
      ensures Stack() == Touched(old(Stack())) && (out.buffer == old(out.buffer) || fresh(out.buffer))
    {
      hide Digits, AfterValue, NeedsComma;
      var includeComma := IsCommaNeeded();
      ghost var stack := Stack();
      if kind.Signed? && value == Minimum(kind) {
        out.Write(NumberText(value));
        assert Stack() == stack;
        return;
      }
      var text := DigitsOf(value, kind, includeComma);
      out.Write(text);
      assert Stack() == stack;
    }
  }

  /** The length that counts: the given one, or up to the first zero byte when it is zero. */
  function LengthUsed(value: Bytes, length: nat): (n: nat)
    requires length <= |value| && (length == 0 ==> 0 in value)
    ensures n <= |value|
  {
    if length == 0 then Strlen(value) else length
  }

  function Strlen(value: Bytes): (n: nat)
    requires 0 in value
    ensures n < |value| && value[n] == 0 && forall i | 0 <= i < n :: value[i] != 0
  {
    if value[0] == 0 then 0 else
      assert 0 in value[1..];
      1 + Strlen(value[1..])
  }

  lemma TerminatedLength(s: Bytes)
    ensures 0 in s + [0] && (s + [0])[..LengthUsed(s + [0], |s|)] == s
  {
    assert (s + [0])[|s|] == 0;
  }

  /** A view of length zero is written as an empty string exactly when a zero byte comes first in memory. */
  lemma EmptyViewIsEmpty(value: Bytes)
    requires 0 in value
    ensures Quoted(value[..LengthUsed(value, 0)]) == Quoted([]) <==> value[0] == 0
  {
    var s := value[..LengthUsed(value, 0)];
    if s != [] {
      assert Escaped(s) != [];
      assert |Quoted(s)| > |Quoted([])|;
    }
  }

  /** The digits still to be written when `rest` is left. */
  function Left(rest: nat): Bytes {
    if rest > 9 then Digits(rest / 10) else []
  }

  lemma LastDigit(n: nat)
    ensures Digits(n) == Left(n) + [48 + n % 10] && (n <= 9 ==> Left(n) == [])
  {
  }

  lemma NextDigit(rest: nat, written: Bytes)
    requires rest > 9
    ensures Left(rest) + written == Left(rest / 10) + ([48 + rest / 10 % 10] + written)
    ensures |Left(rest)| == |Left(rest / 10)| + 1
  {
    LastDigit(rest / 10);
  }

  /** The digit loop: fills the buffer from its end and returns the position before the first digit. */
  method FillDigits(digitsBuffer: array<Byte>, value: nat) returns (digit: int)
    requires |Digits(value)| <= digitsBuffer.Length
    modifies digitsBuffer
    ensures digit == digitsBuffer.Length - |Digits(value)| - 1 && digitsBuffer[digit + 1..] == Digits(value)
  {
    LastDigit(value);
    hide Digits, Left;
    var rest: nat := value;
    digit := digitsBuffer.Length - 1;
    digitsBuffer[digit] := rest % 10 + 48;
    digit := digit - 1;
    while rest > 9
      invariant |Left(rest)| <= digit + 1 < digitsBuffer.Length
      invariant Digits(value) == Left(rest) + digitsBuffer[digit + 1..]
      decreases rest
    {
      NextDigit(rest, digitsBuffer[digit + 1..]);
      ghost var written := digitsBuffer[digit + 1..];
      rest := rest / 10;
      digitsBuffer[digit] := rest % 10 + 48;
      digit := digit - 1;
      assert digitsBuffer[digit + 1..] == [48 + rest % 10] + written;
    }
    LastDigit(rest);
  }

  /** The digits with the sign and the comma put in front of them. */
  method DigitsOf(value: int, kind: Kind, includeComma: bool) returns (text: Bytes)
    requires FitsKind(value, kind) && !AtMinimum(Number(value, kind))
    ensures text == Separator(!includeComma) + NumberText(value)
  {
    hide Digits;
    var digitsBuffer := new Byte[MaxDigitsOfNumber(kind.bits) + 3];
    var magnitude: nat := if value < 0 then -value else value;
    KindFits(magnitude, kind);
    var digit := FillDigits(digitsBuffer, magnitude);
    if value < 0 {
      digitsBuffer[digit] := MINUS;
      digit := digit - 1;
      assert digitsBuffer[digit + 1..] == [MINUS] + digitsBuffer[digit + 2..];
    }
    ghost var number := digitsBuffer[digit + 1..];
    assert number == NumberText(value);
    if includeComma {
      digitsBuffer[digit] := COMMA;
      digit := digit - 1;
      assert digitsBuffer[digit + 1..] == [COMMA] + number;
    }
    text := digitsBuffer[digit + 1..];
  }

  /** A whole value driven through the writer: what is emitted, and the state stack restored. */
  method WriteValue(w: JsonWriter, v: Value)
    requires w.Valid() && InDomain(v) && w.stateIndex + Depth(v) < MAX_STATE_DEPTH
    modifies w, w.stateStack, w.out, w.out.buffer
    ensures w.Valid() && w.Output() == old(w.Output()) + Emitted(v, JsonWriter.CommaAt(old(w.Stack())))
    ensures w.Stack() == JsonWriter.Touched(old(w.Stack()))
      && (w.out.buffer == old(w.out.buffer) || fresh(w.out.buffer))
    decreases v, 0
  {
    ghost var comma := JsonWriter.CommaAt(w.Stack());
    Regroup(w.Output(), Separator(!comma), EmittedBody(v));
    hide AfterValue, NeedsComma, Escaped, Digits, EmittedItems, EmittedMembers, Separator;
    match v {
      case Null => w.Null();
      case Bool(b) => w.WriteBool(b);
      case Number(n, kind) => w.WriteNumber(n, kind);
      case Text(s) =>
        TerminatedLength(s);
        w.WriteEscapedString(s + [0], |s|);
      case Array(items) => WriteArray(w, items);
      case Object(members) => WriteObject(w, members);
    }
  }

  method WriteArray(w: JsonWriter, items: Items)
    requires w.Valid() && ItemsInDomain(items) && w.stateIndex + 1 + ItemsDepth(items) < MAX_STATE_DEPTH
    modifies w, w.stateStack, w.out, w.out.buffer
    ensures w.Valid() && w.Output() == old(w.Output()) + Emitted(Array(items), JsonWriter.CommaAt(old(w.Stack())))
    ensures w.Stack() == JsonWriter.Touched(old(w.Stack()))
      && (w.out.buffer == old(w.out.buffer) || fresh(w.out.buffer))
    decreases items, 1
  {
    hide EmittedItems, AfterValue;
    ghost var comma := Separator(!JsonWriter.CommaAt(w.Stack()));
    ghost var outer := JsonWriter.Touched(w.Stack());
    w.Start(91);
    assert w.Stack()[..w.stateIndex] == outer;
    WriteItems(w, items, true);
    ghost var inner := w.Stack();
    w.End(93);
    assert inner[..|inner| - 1] == outer;
    Join(old(w.Output()), comma, [91], EmittedItems(items, true), [93], []);
  }

  method WriteObject(w: JsonWriter, members: Members)
    requires w.Valid() && MembersInDomain(members) && w.stateIndex + 1 + MembersDepth(members) < MAX_STATE_DEPTH
    modifies w, w.stateStack, w.out, w.out.buffer
    ensures w.Valid() && w.Output() == old(w.Output()) + Emitted(Object(members), JsonWriter.CommaAt(old(w.Stack())))
    ensures w.Stack() == JsonWriter.Touched(old(w.Stack()))
      && (w.out.buffer == old(w.out.buffer) || fresh(w.out.buffer))
    decreases members, 1
  {
    hide EmittedMembers, AfterValue;
    ghost var comma := Separator(!JsonWriter.CommaAt(w.Stack()));
    ghost var outer := JsonWriter.Touched(w.Stack());
    w.Start(123);
    assert w.Stack()[..w.stateIndex] == outer;
    WriteMembers(w, members, true);
    ghost var inner := w.Stack();
    w.End(125);
    assert inner[..|inner| - 1] == outer;
    Join(old(w.Output()), comma, [123], EmittedMembers(members, true), [125], []);
  }

  lemma Join(o: Bytes, a: Bytes, b: Bytes, c: Bytes, d: Bytes, e: Bytes)
    ensures o + a + b + c + d + e == o + (a + b + c + d + e)
    ensures o + a + b + c + d == o + (a + (b + c + d))
  {
  }

  /** The stack inside an array or object after some of its parts. */
  ghost function Inside(outer: seq<State>, first: bool): seq<State> {
    outer + [State(true, !first, false)]
  }

  lemma InsideStep(outer: seq<State>, first: bool)
    ensures |Inside(outer, first)| == |outer| + 1
    ensures JsonWriter.CommaAt(Inside(outer, first)) == !first
    ensures JsonWriter.Touched(Inside(outer, first)) == Inside(outer, false) && Inside(outer, false)[..|outer|] == outer
  {
  }

  method WriteItems(w: JsonWriter, items: Items, first: bool)
    requires w.Valid() && ItemsInDomain(items) && w.stateIndex + ItemsDepth(items) < MAX_STATE_DEPTH
    requires w.Stack() == Inside(w.Stack()[..w.stateIndex], first)
    modifies w, w.stateStack, w.out, w.out.buffer
    ensures w.Valid() && w.Output() == old(w.Output()) + EmittedItems(items, first)
    ensures w.stateIndex == old(w.stateIndex) && w.Stack()[..w.stateIndex] == old(w.Stack())[..w.stateIndex]
    ensures w.out.buffer == old(w.out.buffer) || fresh(w.out.buffer)
    decreases items, 0
  {
    match items {
      case NoItems =>
      case Item(v, tail) =>
        ghost var outer := w.Stack()[..w.stateIndex];
        Regroup(w.Output(), Emitted(v, !first), EmittedItems(tail, false));
        InsideStep(outer, first);
        assert EmittedItems(items, first) == Emitted(v, !first) + EmittedItems(tail, false);
        hide EmittedItems, Emitted, EmittedBody, AfterValue, NeedsComma, Inside, InDomain, Depth;
        WriteValue(w, v);
        assert w.Stack() == Inside(outer, false) && w.Stack()[..w.stateIndex] == outer;
        WriteItems(w, tail, false);
    }
  }

  /** newProperty and the value: there is no comma between name and value. */
  method WriteMember(w: JsonWriter, name: Bytes, v: Value, first: bool)
    requires w.Valid() && InDomain(v) && w.stateIndex + Depth(v) < MAX_STATE_DEPTH
    requires w.Stack() == Inside(w.Stack()[..w.stateIndex], first)
    modifies w, w.stateStack, w.out, w.out.buffer
    ensures w.Valid() && w.Output() == old(w.Output()) + Separator(first) + Quoted(name) + [COLON] + EmittedBody(v)
    ensures w.Stack() == Inside(old(w.Stack())[..old(w.stateIndex)], false)
    ensures w.out.buffer == old(w.out.buffer) || fresh(w.out.buffer)
    decreases v, 1
  {
    hide Quoted, EmittedBody, Escaped;
    ghost var outer := w.Stack()[..w.stateIndex];
    w.NewProperty(name);
    assert w.Stack() == outer + [State(true, true, true)];
    ghost var sofar := w.Output();
    WriteValue(w, v);
    assert w.Output() == sofar + ([] + EmittedBody(v));
    assert w.Stack() == Inside(outer, false);
  }

  method WriteMembers(w: JsonWriter, members: Members, first: bool)
    requires w.Valid() && MembersInDomain(members) && w.stateIndex + MembersDepth(members) < MAX_STATE_DEPTH
    requires w.Stack() == Inside(w.Stack()[..w.stateIndex], first)
    modifies w, w.stateStack, w.out, w.out.buffer
    ensures w.Valid() && w.Output() == old(w.Output()) + EmittedMembers(members, first)
    ensures w.stateIndex == old(w.stateIndex) && w.Stack()[..w.stateIndex] == old(w.Stack())[..w.stateIndex]
    ensures w.out.buffer == old(w.out.buffer) || fresh(w.out.buffer)
    decreases members, 0
  {
    match members {
      case NoMembers =>
      case Member(name, v, tail) =>
        ghost var outer := w.Stack()[..w.stateIndex];
        Join(w.Output(), Separator(first), Quoted(name), [COLON], EmittedBody(v), EmittedMembers(tail, false));
        hide Quoted, EmittedBody, Escaped, AfterValue;
        WriteMember(w, name, v, first);
        assert w.Stack()[..w.stateIndex] == outer;
        WriteMembers(w, tail, false);
    }
  }
}
