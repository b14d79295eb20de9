/**
 The canonical text that is hashed into a command fingerprint, and the payloads its encoder
 refuses. What a text determines is in CanonicalReader and CanonicalTheorems.
 */
module CanonicalPayload {
  import opened Wrappers
  import opened Text
  import opened NumberText
  import opened KeyedSort

  type Byte = b: int | 0 <= b < 256

  /**
   A run-time payload. Objects keep their keys in enumeration order. `Hole` is an
   absent element of a sparse array. The last three are the payloads the encoder
   refuses: non-finite numbers, objects with another prototype, and everything
   else (undefined, functions, symbols).
   */
  datatype Value =
    | Null
    | Str(text: Text)
    | Boolean(flag: bool)
    | Num(number: Number)
    | BigInt(integer: int)
    | Bytes(bytes: seq<Byte>)
    | Arr(items: seq<Value>)
    | Obj(fields: seq<Field>)
    | Hole
    | NonFinite
    | NonPlain
    | Unsupported

  datatype Field = Field(key: Text, value: Value)

  datatype Refusal = NonFiniteNumber | NonPlainObject | UnsupportedValue

  /** What a payload is, with objects as maps: key order is gone. */
  datatype Meaning =
    | MNull
    | MStr(text: Text)
    | MBoolean(flag: bool)
    | MNum(number: Number)
    | MBigInt(integer: int)
    | MBytes(bytes: seq<Byte>)
    | MArr(items: seq<Meaning>)
    | MObj(fields: map<Text, Meaning>)
    | MHole

  predicate DistinctFields(fields: seq<Field>) {
    forall i, j :: 0 <= i < j < |fields| ==> fields[i].key != fields[j].key
  }

  /** What the language guarantees of a value: unique keys, canonical numbers, holes only in arrays. */
  predicate PlainValue(v: Value) {
    match v
    case Num(number) => Canonical(number)
    case Arr(items) => forall item <- items :: item == Hole || PlainValue(item)
    case Obj(fields) => DistinctFields(fields) && forall f <- fields :: PlainValue(f.value)
    case Hole => false
    case _ => true
  }

  /** No part of the payload is one the encoder refuses. */
  predicate Supported(v: Value) {
    match v
    case Arr(items) => forall item <- items :: Supported(item)
    case Obj(fields) => forall f <- fields :: Supported(f.value)
    case NonFinite => false
    case NonPlain => false
    case Unsupported => false
    case _ => true
  }

  predicate Printable(v: Value) {
    PlainValue(v) && Supported(v)
  }

  // ---------------------------------------------------------------- refusals

  function FirstSome(entries: seq<(Text, Option<Refusal>)>): Option<Refusal> {
    if |entries| == 0 then None
    else if entries[0].1.Some? then entries[0].1
    else FirstSome(entries[1..])
  }

  function RefusalOfItems(items: seq<Value>): Option<Refusal> {
    if |items| == 0 then None
    else
      var first := FirstRefusal(items[0]);
      if first.Some? then first else RefusalOfItems(items[1..])
  }

  function RefusalEntries(fields: seq<Field>): (r: seq<(Text, Option<Refusal>)>)
    ensures |r| == |fields|
  {
    if |fields| == 0 then []
    else [(fields[0].key, FirstRefusal(fields[0].value))] + RefusalEntries(fields[1..])
  }

  /** The refusal met first: arrays in order, objects in sorted key order. */
  function FirstRefusal(v: Value): Option<Refusal> {
    match v
    case NonFinite => Some(NonFiniteNumber)
    case NonPlain => Some(NonPlainObject)
    case Unsupported => Some(UnsupportedValue)
    case Arr(items) => RefusalOfItems(items)
    case Obj(fields) => FirstSome(SortByKey(RefusalEntries(fields)))
    case _ => None
  }

  // ---------------------------------------------------------------- printing

  datatype Kind = KNull | KString | KBoolean | KNumber | KBigInt | KBytes | KArray | KObject

  function Tag(kind: Kind): Text {
    match kind
    case KNull => Ascii("null")
    case KString => Ascii("string:")
    case KBoolean => Ascii("boolean:")
    case KNumber => Ascii("number:")
    case KBigInt => Ascii("bigint:")
    case KBytes => Ascii("bytes:[")
    case KArray => Ascii("array:[")
    case KObject => Ascii("object:{")
  }

  const CLOSE_BRACKET: Unit := 93
  const CLOSE_BRACE: Unit := 125

  function Join(parts: seq<Text>): Text {
    if |parts| == 0 then []
    else if |parts| == 1 then parts[0]
    else parts[0] + ([COMMA] + Join(parts[1..]))
  }

  function PrintBytes(bytes: seq<Byte>): (r: seq<Text>)
    ensures |r| == |bytes|
    ensures forall i :: 0 <= i < |bytes| ==> r[i] == Decimal(bytes[i])
  {
    if |bytes| == 0 then [] else [Decimal(bytes[0])] + PrintBytes(bytes[1..])
  }

  function PrintItems(items: seq<Value>): (r: seq<Text>)
    requires forall item <- items :: item == Hole || Printable(item)
    ensures |r| == |items|
    ensures forall i :: 0 <= i < |items| ==> r[i] == if items[i] == Hole then [] else Print(items[i])
  {
    if |items| == 0 then []
    else [if items[0] == Hole then [] else Print(items[0])] + PrintItems(items[1..])
  }

  function PrintEntries(fields: seq<Field>): (r: seq<(Text, Text)>)
    requires forall f <- fields :: Printable(f.value)
    ensures |r| == |fields|
    ensures forall i :: 0 <= i < |fields| ==> r[i] == (fields[i].key, Print(fields[i].value))
  {
    if |fields| == 0 then []
    else [(fields[0].key, Print(fields[0].value))] + PrintEntries(fields[1..])
  }

  function EntryTexts(entries: seq<(Text, Text)>): (r: seq<Text>)
    ensures |r| == |entries|
  {
    if |entries| == 0 then []
    else [Quote(entries[0].0) + ([COLON] + entries[0].1)] + EntryTexts(entries[1..])
  }

  function Print(v: Value): Text
    requires Printable(v)
  {
    match v
    case Null => Tag(KNull)
    case Str(text) => Tag(KString) + Quote(text)
    case Boolean(flag) => Tag(KBoolean) + Ascii(if flag then "true" else "false")
    case Num(number) => Tag(KNumber) + NumberText.Print(number)
    case BigInt(integer) => Tag(KBigInt) + IntText(integer)
    case Bytes(bytes) => Tag(KBytes) + (Join(PrintBytes(bytes)) + [CLOSE_BRACKET])
    case Arr(items) => Tag(KArray) + (Join(PrintItems(items)) + [CLOSE_BRACKET])
    case Obj(fields) => Tag(KObject) + (Join(EntryTexts(SortByKey(PrintEntries(fields)))) + [CLOSE_BRACE])
  }

  /** `canonicalize`: the text, or the refusal it throws. */
  function Canonicalize(v: Value): (r: Result<Text, Refusal>)
    requires PlainValue(v)
  {
    var refusal := FirstRefusal(v);
    if refusal.Some? then Err(refusal.value)
    else
      RefusedIffUnsupported(v);
      Ok(Print(v))
  }

  lemma {:induction false} FirstSomeNone(entries: seq<(Text, Option<Refusal>)>)
    ensures FirstSome(entries).None? <==> forall e <- entries :: e.1.None?
  {
    if |entries| > 0 {
      FirstSomeNone(entries[1..]);
      assert entries == [entries[0]] + entries[1..];
    }
  }

  /** Exactly the payloads with an unsupported part are refused. */
  lemma {:induction false} RefusedIffUnsupported(v: Value)
    ensures FirstRefusal(v).None? <==> Supported(v)
  {
    match v
    case Arr(items) =>
      RefusedItems(items);
    case Obj(fields) =>
      RefusedFields(fields);
      var entries := RefusalEntries(fields);
      SortKeeps(entries);
      FirstSomeNone(SortByKey(entries));
    case _ =>
  }

  lemma {:induction false} RefusedItems(items: seq<Value>)
    ensures RefusalOfItems(items).None? <==> forall item <- items :: Supported(item)
  {
    if |items| > 0 {
      RefusedIffUnsupported(items[0]);
      RefusedItems(items[1..]);
      assert items == [items[0]] + items[1..];
    }
  }

  lemma {:induction false} RefusedFields(fields: seq<Field>)
    ensures (forall e <- RefusalEntries(fields) :: e.1.None?) <==> forall f <- fields :: Supported(f.value)
  {
    if |fields| > 0 {
      RefusedIffUnsupported(fields[0].value);
      RefusedFields(fields[1..]);
      assert fields == [fields[0]] + fields[1..];
    }
  }
}
