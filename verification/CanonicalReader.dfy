/**
 What a payload means as a value, and a reader for the canonical text. The reader is not part
 of the program: it exists to show that a printed text can be undone.
 */
module CanonicalReader {
  import opened Wrappers
  import opened Text
  import NumberText
  import opened KeyedSort
  import opened CanonicalPayload

  // ---------------------------------------------------------------- meaning

  function MeaningOfFields(fields: seq<Field>): (m: map<Text, Meaning>)
    ensures forall k :: k in m <==> exists f <- fields :: f.key == k
  {
    if |fields| == 0 then map[]
    else MeaningOfFields(fields[1..])[fields[0].key := MeaningOf(fields[0].value)]
  }

  function MeaningOfItems(items: seq<Value>): (r: seq<Meaning>)
    ensures |r| == |items|
    ensures forall i :: 0 <= i < |items| ==> r[i] == MeaningOf(items[i])
  {
    if |items| == 0 then [] else [MeaningOf(items[0])] + MeaningOfItems(items[1..])
  }

  /** The value a payload stands for. Refused payloads have no text, so their meaning is immaterial. */
  function MeaningOf(v: Value): Meaning {
    match v
    case Null => MNull
    case Str(text) => MStr(text)
    case Boolean(flag) => MBoolean(flag)
    case Num(number) => MNum(number)
    case BigInt(integer) => MBigInt(integer)
    case Bytes(bytes) => MBytes(bytes)
    case Arr(items) => MArr(MeaningOfItems(items))
    case Obj(fields) => MObj(MeaningOfFields(fields))
    case _ => MHole
  }

  /** No array consists of a single hole: the one shape the encoder cannot tell from an empty array. */
  predicate NoLoneHole(v: Value) {
    match v
    case Arr(items) => items != [Hole] && forall item <- items :: NoLoneHole(item)
    case Obj(fields) => forall f <- fields :: NoLoneHole(f.value)
    case _ => true
  }

  // ---------------------------------------------------------------- reader

  /** Which tag a text starts with, told apart by its first three units. */
  function KindOf(t: Text): (k: Option<Kind>) {
    if |t| < 3 then None
    else if t[0] == 110 then Some(if t[2] == 108 then KNull else KNumber)
    else if t[0] == 115 then Some(KString)
    else if t[0] == 98 then Some(if t[1] == 111 then KBoolean else if t[1] == 105 then KBigInt else KBytes)
    else if t[0] == 97 then Some(KArray)
    else if t[0] == 111 then Some(KObject)
    else None
  }

  function ReadBoolean(t: Text): (r: Option<(Meaning, Text)>)
    ensures r.Some? ==> |r.value.1| <= |t|
  {
    var yes := Strip(t, Ascii("true"));
    var no := Strip(t, Ascii("false"));
    if yes.Some? then Some((MBoolean(true), yes.value))
    else if no.Some? then Some((MBoolean(false), no.value))
    else None
  }

  function ReadNumber(t: Text): (r: Option<(Meaning, Text)>)
    ensures r.Some? ==> |r.value.1| <= |t|
  {
    var n := Span(t, NumberText.IsNumberUnit);
    if n == 0 then None else Some((MNum(NumberText.Read(t[..n])), t[n..]))
  }

  /** The bytes of a nonempty list, up to its closing bracket. */
  function ReadByteList(t: Text): (r: Option<(seq<Byte>, Text)>)
    ensures r.Some? ==> |r.value.1| <= |t|
    decreases |t|
  {
    var head := ReadInt(t);
    if head.None? || !(0 <= head.value.0 < 256) || |head.value.1| == 0 then None
    else
      var after := head.value.1;
      if after[0] == CLOSE_BRACKET then Some(([head.value.0 as Byte], after[1..]))
      else if after[0] != COMMA then None
      else
        var tail := ReadByteList(after[1..]);
        if tail.None? then None
        else Some(([head.value.0 as Byte] + tail.value.0, tail.value.1))
  }

  function ReadItem(t: Text): (r: Option<(Meaning, Text)>)
    ensures r.Some? ==> |r.value.1| <= |t|
    decreases |t|, 1
  {
    if |t| > 0 && (t[0] == COMMA || t[0] == CLOSE_BRACKET) then Some((MHole, t)) else Read(t)
  }

  /** The elements of a nonempty array, up to its closing bracket. */
  function ReadItems(t: Text): (r: Option<(seq<Meaning>, Text)>)
    ensures r.Some? ==> |r.value.1| < |t|
    decreases |t|, 2
  {
    var head := ReadItem(t);
    if head.None? || |head.value.1| == 0 then None
    else
      var after := head.value.1;
      if after[0] == CLOSE_BRACKET then Some(([head.value.0], after[1..]))
      else if after[0] != COMMA then None
      else
        var tail := ReadItems(after[1..]);
        if tail.None? then None
        else Some(([head.value.0] + tail.value.0, tail.value.1))
  }

  /** One `"key":value` of an object. */
  function ReadEntry(t: Text): (r: Option<((Text, Meaning), Text)>)
    ensures r.Some? ==> |r.value.1| < |t|
    decreases |t|, 1
  {
    var key := ReadQuoted(t);
    if key.None? || |key.value.1| == 0 || key.value.1[0] != COLON then None
    else
      var value := Read(key.value.1[1..]);
      if value.None? then None
      else Some(((key.value.0, value.value.0), value.value.1))
  }

  /** The entries of a nonempty object, up to its closing brace. */
  function ReadEntries(t: Text): (r: Option<(map<Text, Meaning>, Text)>)
    ensures r.Some? ==> |r.value.1| < |t|
    decreases |t|, 2
  {
    var head := ReadEntry(t);
    if head.None? || |head.value.1| == 0 then None
    else
      var (key, value) := head.value.0;
      var after := head.value.1;
      if after[0] == CLOSE_BRACE then Some((map[key := value], after[1..]))
      else if after[0] != COMMA then None
      else
        var tail := ReadEntries(after[1..]);
        if tail.None? then None
        else Some((tail.value.0[key := value], tail.value.1))
  }

  /** What follows the tag of a value. */
  function ReadAfterTag(kind: Kind, t: Text): (r: Option<(Meaning, Text)>)
    ensures r.Some? ==> |r.value.1| <= |t|
    decreases |t|, 3
  {
    match kind
    case KNull => Some((MNull, t))
    case KString =>
      var r := ReadQuoted(t);
      if r.None? then None else Some((MStr(r.value.0), r.value.1))
    case KBoolean => ReadBoolean(t)
    case KNumber => ReadNumber(t)
    case KBigInt =>
      var r := ReadInt(t);
      if r.None? then None else Some((MBigInt(r.value.0), r.value.1))
    case KBytes =>
      if |t| > 0 && t[0] == CLOSE_BRACKET then Some((MBytes([]), t[1..]))
      else
        var r := ReadByteList(t);
        if r.None? then None else Some((MBytes(r.value.0), r.value.1))
    case KArray =>
      if |t| > 0 && t[0] == CLOSE_BRACKET then Some((MArr([]), t[1..]))
      else
        var r := ReadItems(t);
        if r.None? then None else Some((MArr(r.value.0), r.value.1))
    case KObject =>
      if |t| > 0 && t[0] == CLOSE_BRACE then Some((MObj(map[]), t[1..]))
      else
        var r := ReadEntries(t);
        if r.None? then None else Some((MObj(r.value.0), r.value.1))
  }

  /** Reads one value off the front of a text. */
  function Read(t: Text): (r: Option<(Meaning, Text)>)
    ensures r.Some? ==> |r.value.1| <= |t|
    decreases |t|, 0
  {
    var kind := KindOf(t);
    if kind.None? then None
    else
      var body := Strip(t, Tag(kind.value));
      if body.None? then None else ReadAfterTag(kind.value, body.value)
  }

  // ---------------------------------------------------------------- leaves

  lemma KindOfTag(kind: Kind, body: Text)
    ensures KindOf(Tag(kind) + body) == Some(kind)
  {
    var tag := Tag(kind);
    assert |tag| >= 3;
    assert (tag + body)[0] == tag[0] && (tag + body)[1] == tag[1] && (tag + body)[2] == tag[2];
  }

  lemma ReadTagged(kind: Kind, body: Text)
    ensures Read(Tag(kind) + body) == ReadAfterTag(kind, body)
  {
    KindOfTag(kind, body);
    StripToken(Tag(kind), body);
  }

  /** `text` reads as `m` in front of anything that does not continue a number. */
  ghost predicate Reads(text: Text, m: Meaning) {
    forall rest: Text | Stops(rest, NumberText.IsNumberUnit) :: Read(text + rest) == Some((m, rest))
  }

  /** A text reads as soon as the part after its tag does. */
  lemma ReadsAfterTag(kind: Kind, body: Text, m: Meaning)
    requires forall rest: Text | Stops(rest, NumberText.IsNumberUnit) ::
               ReadAfterTag(kind, body + rest) == Some((m, rest))
    ensures Reads(Tag(kind) + body, m)
  {
    forall rest: Text | Stops(rest, NumberText.IsNumberUnit)
      ensures Read(Tag(kind) + body + rest) == Some((m, rest))
    {
      ReadTagged(kind, body + rest);
      Associate(Tag(kind), body, rest);
    }
  }

  lemma ReadNumberBody(number: NumberText.Number, rest: Text)
    requires NumberText.Canonical(number) && Stops(rest, NumberText.IsNumberUnit)
    ensures ReadNumber(NumberText.Print(number) + rest) == Some((MNum(number), rest))
  {
    var body := NumberText.Print(number);
    NumberText.PrintUnits(number);
    NumberText.ReadPrint(number);
    SpanOfRun(body, rest, NumberText.IsNumberUnit);
    assert (body + rest)[..|body|] == body && (body + rest)[|body|..] == rest;
  }

  lemma ReadsNumber(number: NumberText.Number)
    requires NumberText.Canonical(number)
    ensures Reads(Print(Num(number)), MNum(number))
  {
    var body := NumberText.Print(number);
    forall rest: Text | Stops(rest, NumberText.IsNumberUnit)
      ensures ReadAfterTag(KNumber, body + rest) == Some((MNum(number), rest))
    {
      ReadNumberBody(number, rest);
    }
    ReadsAfterTag(KNumber, body, MNum(number));
  }

  lemma ReadsBoolean(flag: bool)
    ensures Reads(Print(Boolean(flag)), MBoolean(flag))
  {
    var body := Ascii(if flag then "true" else "false");
    forall rest: Text
      ensures ReadAfterTag(KBoolean, body + rest) == Some((MBoolean(flag), rest))
    {
      StripToken(body, rest);
      if !flag {
        assert (body + rest)[0] == 102;
        assert Ascii("true")[0] == 116;
        assert (body + rest)[..4][0] == 102;
      }
    }
    ReadsAfterTag(KBoolean, body, MBoolean(flag));
  }

  lemma ReadsInteger(integer: int)
    ensures Reads(Print(BigInt(integer)), MBigInt(integer))
  {
    forall rest: Text | Stops(rest, NumberText.IsNumberUnit)
      ensures ReadAfterTag(KBigInt, IntText(integer) + rest) == Some((MBigInt(integer), rest))
    {
      ReadIntText(integer, rest);
    }
    ReadsAfterTag(KBigInt, IntText(integer), MBigInt(integer));
  }

  lemma ReadsString(text: Text)
    ensures Reads(Print(Str(text)), MStr(text))
  {
    forall rest: Text
      ensures ReadAfterTag(KString, Quote(text) + rest) == Some((MStr(text), rest))
    {
      ReadQuote(text, rest);
    }
    ReadsAfterTag(KString, Quote(text), MStr(text));
  }

  // ---------------------------------------------------------------- bytes

  lemma ReadLastByte(b: Byte, rest: Text)
    ensures ReadByteList(Decimal(b) + ([CLOSE_BRACKET] + rest)) == Some(([b], rest))
  {
    var after := [CLOSE_BRACKET] + rest;
    assert IntText(b) == Decimal(b);
    ReadIntText(b, after);
    assert after[1..] == rest;
  }

  lemma ReadByteThen(b: Byte, more: Text, bytes: seq<Byte>, rest: Text)
    requires ReadByteList(more) == Some((bytes, rest))
    ensures ReadByteList(Decimal(b) + ([COMMA] + more)) == Some(([b] + bytes, rest))
  {
    var after := [COMMA] + more;
    assert IntText(b) == Decimal(b);
    ReadIntText(b, after);
    assert after[1..] == more;
  }

  lemma JoinStep(parts: seq<Text>, close: Text)
    requires |parts| > 1
    ensures Join(parts) + close == parts[0] + ([COMMA] + (Join(parts[1..]) + close))
  {
  }

  /** `parts` prints `bytes`, and the closing bracket follows the last part. */
  lemma {:induction false} ReadPrintedBytes(parts: seq<Text>, bytes: seq<Byte>, close: Text, rest: Text)
    requires |parts| == |bytes| > 0 && close == [CLOSE_BRACKET] + rest
    requires forall i :: 0 <= i < |bytes| ==> parts[i] == Decimal(bytes[i])
    ensures ReadByteList(Join(parts) + close) == Some((bytes, rest))
  {
    if |bytes| == 1 {
      ReadLastByte(bytes[0], rest);
      assert bytes == [bytes[0]];
      assert Join(parts) == Decimal(bytes[0]);
    } else {
      ReadPrintedBytes(parts[1..], bytes[1..], close, rest);
      JoinStep(parts, close);
      ReadByteThen(bytes[0], Join(parts[1..]) + close, bytes[1..], rest);
      assert bytes == [bytes[0]] + bytes[1..];
    }
  }

  lemma ReadBytesBody(bytes: seq<Byte>, rest: Text)
    ensures ReadAfterTag(KBytes, Join(PrintBytes(bytes)) + ([CLOSE_BRACKET] + rest)) == Some((MBytes(bytes), rest))
  {
    var parts := PrintBytes(bytes);
    var close := [CLOSE_BRACKET] + rest;
    if |bytes| > 0 {
      ReadPrintedBytes(parts, bytes, close, rest);
      JoinedStart(parts, close);
    } else {
      assert Join(parts) + close == close && close[1..] == rest;
    }
  }

  lemma JoinedStart(parts: seq<Text>, close: Text)
    requires |parts| > 0 && |parts[0]| > 0
    ensures |Join(parts) + close| > 0 && (Join(parts) + close)[0] == parts[0][0]
  {
  }

  lemma ReadsBytes(bytes: seq<Byte>)
    ensures Reads(Print(Bytes(bytes)), MBytes(bytes))
  {
    var joined := Join(PrintBytes(bytes));
    forall rest: Text
      ensures ReadAfterTag(KBytes, joined + [CLOSE_BRACKET] + rest) == Some((MBytes(bytes), rest))
    {
      Associate(joined, [CLOSE_BRACKET], rest);
      ReadBytesBody(bytes, rest);
    }
    ReadsAfterTag(KBytes, joined + [CLOSE_BRACKET], MBytes(bytes));
  }
}
