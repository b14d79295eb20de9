/** The canonical encoder is injective up to key order, except for lone holes. */
module CanonicalTheorems {
  import opened Wrappers
  import opened Text
  import NumberText
  import opened KeyedSort
  import opened CanonicalPayload
  import opened CanonicalReader

  // ---------------------------------------------------------------- arrays

  /** A printed element reads back; a hole prints nothing and reads back as a hole. */
  ghost predicate ItemReads(part: Text, m: Meaning) {
    if part == [] then m == MHole else Reads(part, m) && 97 <= part[0]
  }

  predicate Separates(after: Text) {
    |after| > 0 && (after[0] == COMMA || after[0] == CLOSE_BRACKET)
  }

  lemma ReadPrintedItem(part: Text, m: Meaning, after: Text)
    requires ItemReads(part, m) && Separates(after)
    ensures ReadItem(part + after) == Some((m, after))
  {
    if part == [] {
      assert part + after == after;
    } else {
      assert (part + after)[0] == part[0];
      assert Stops(after, NumberText.IsNumberUnit);
      assert Read(part + after) == Some((m, after));
    }
  }

  lemma ReadLastItem(part: Text, m: Meaning, rest: Text)
    requires ItemReads(part, m)
    ensures ReadItems(part + ([CLOSE_BRACKET] + rest)) == Some(([m], rest))
  {
    var after := [CLOSE_BRACKET] + rest;
    ReadPrintedItem(part, m, after);
    assert after[1..] == rest;
  }

  lemma ReadItemThen(part: Text, m: Meaning, more: Text, items: seq<Meaning>, rest: Text)
    requires ItemReads(part, m)
    requires ReadItems(more) == Some((items, rest))
    ensures ReadItems(part + ([COMMA] + more)) == Some(([m] + items, rest))
  {
    var after := [COMMA] + more;
    ReadPrintedItem(part, m, after);
    assert after[1..] == more;
  }

  lemma {:induction false} ReadPrintedItems(parts: seq<Text>, items: seq<Meaning>, close: Text, rest: Text)
    requires |parts| == |items| > 0 && close == [CLOSE_BRACKET] + rest
    requires forall i :: 0 <= i < |items| ==> ItemReads(parts[i], items[i])
    ensures ReadItems(Join(parts) + close) == Some((items, rest))
  {
    if |items| == 1 {
      ReadLastItem(parts[0], items[0], rest);
      assert items == [items[0]];
    } else {
      ReadPrintedItems(parts[1..], items[1..], close, rest);
      JoinStep(parts, close);
      ReadItemThen(parts[0], items[0], Join(parts[1..]) + close, items[1..], rest);
      assert items == [items[0]] + items[1..];
    }
  }

  lemma ReadArrayBody(parts: seq<Text>, items: seq<Meaning>, rest: Text)
    requires |parts| == |items| && parts != [[]]
    requires forall i :: 0 <= i < |items| ==> ItemReads(parts[i], items[i])
    ensures ReadAfterTag(KArray, Join(parts) + ([CLOSE_BRACKET] + rest)) == Some((MArr(items), rest))
  {
    var close := [CLOSE_BRACKET] + rest;
    if |items| == 0 {
      assert Join(parts) + close == close && close[1..] == rest;
    } else {
      ReadPrintedItems(parts, items, close, rest);
      if parts[0] == [] {
        assert |parts| > 1;
        JoinStep(parts, close);
      } else {
        JoinedStart(parts, close);
      }
    }
  }

  lemma ReadsArray(parts: seq<Text>, items: seq<Meaning>)
    requires |parts| == |items| && parts != [[]]
    requires forall i :: 0 <= i < |items| ==> ItemReads(parts[i], items[i])
    ensures Reads(Tag(KArray) + (Join(parts) + [CLOSE_BRACKET]), MArr(items))
  {
    forall rest: Text
      ensures ReadAfterTag(KArray, Join(parts) + [CLOSE_BRACKET] + rest) == Some((MArr(items), rest))
    {
      Associate(Join(parts), [CLOSE_BRACKET], rest);
      ReadArrayBody(parts, items, rest);
    }
    ReadsAfterTag(KArray, Join(parts) + [CLOSE_BRACKET], MArr(items));
  }

  // ---------------------------------------------------------------- objects

  /** The part of `m` that `entries` mention. */
  function Mentioned(entries: seq<(Text, Text)>, m: map<Text, Meaning>): (r: map<Text, Meaning>)
    requires forall e <- entries :: e.0 in m
    ensures forall k :: k in r <==> exists e <- entries :: e.0 == k
    ensures forall k :: k in r ==> k in m && r[k] == m[k]
  {
    if |entries| == 0 then map[] else Mentioned(entries[1..], m)[entries[0].0 := m[entries[0].0]]
  }

  lemma ReadPrintedEntry(key: Text, text: Text, m: Meaning, after: Text)
    requires Reads(text, m) && Stops(after, NumberText.IsNumberUnit)
    ensures ReadEntry(Quote(key) + ([COLON] + text) + after) == Some(((key, m), after))
  {
    var colon := [COLON] + (text + after);
    assert Quote(key) + ([COLON] + text) + after == Quote(key) + colon;
    ReadQuote(key, colon);
    assert colon[1..] == text + after;
  }

  lemma ReadLastEntry(key: Text, text: Text, m: Meaning, rest: Text)
    requires Reads(text, m)
    ensures ReadEntries(Quote(key) + ([COLON] + text) + ([CLOSE_BRACE] + rest)) == Some((map[key := m], rest))
  {
    var after := [CLOSE_BRACE] + rest;
    ReadPrintedEntry(key, text, m, after);
    assert after[1..] == rest;
  }

  lemma ReadEntryThen(key: Text, text: Text, m: Meaning, more: Text, fields: map<Text, Meaning>, rest: Text)
    requires Reads(text, m)
    requires ReadEntries(more) == Some((fields, rest))
    ensures ReadEntries(Quote(key) + ([COLON] + text) + ([COMMA] + more)) == Some((fields[key := m], rest))
  {
    var after := [COMMA] + more;
    ReadPrintedEntry(key, text, m, after);
    assert after[1..] == more;
  }

  lemma {:induction false} ReadPrintedEntries(
      entries: seq<(Text, Text)>, m: map<Text, Meaning>, close: Text, rest: Text)
    requires |entries| > 0 && close == [CLOSE_BRACE] + rest
    requires forall e <- entries :: e.0 in m && Reads(e.1, m[e.0])
    ensures ReadEntries(Join(EntryTexts(entries)) + close) == Some((Mentioned(entries, m), rest))
  {
    var (key, text) := entries[0];
    var parts := EntryTexts(entries);
    if |entries| == 1 {
      ReadLastEntry(key, text, m[key], rest);
      assert Mentioned(entries, m) == map[key := m[key]];
    } else {
      ReadPrintedEntries(entries[1..], m, close, rest);
      assert parts[1..] == EntryTexts(entries[1..]);
      JoinStep(parts, close);
      ReadEntryThen(key, text, m[key], Join(parts[1..]) + close, Mentioned(entries[1..], m), rest);
    }
  }

  lemma MentionsAll(entries: seq<(Text, Text)>, m: map<Text, Meaning>)
    requires forall e <- entries :: e.0 in m
    requires forall k <- m :: exists e <- entries :: e.0 == k
    ensures Mentioned(entries, m) == m
  {
  }

  lemma ReadAfterEntries(t: Text, m: map<Text, Meaning>, rest: Text)
    requires |t| > 0 && t[0] != CLOSE_BRACE && ReadEntries(t) == Some((m, rest))
    ensures ReadAfterTag(KObject, t) == Some((MObj(m), rest))
  {
  }

  lemma ReadObjectBody(entries: seq<(Text, Text)>, m: map<Text, Meaning>, rest: Text)
    requires forall e <- entries :: e.0 in m && Reads(e.1, m[e.0])
    requires forall k <- m :: exists e <- entries :: e.0 == k
    ensures ReadAfterTag(KObject, Join(EntryTexts(entries)) + ([CLOSE_BRACE] + rest)) == Some((MObj(m), rest))
  {
    var close := [CLOSE_BRACE] + rest;
    var parts := EntryTexts(entries);
    if |entries| == 0 {
      assert Join(parts) + close == close && close[1..] == rest;
      assert m == map[];
    } else {
      MentionsAll(entries, m);
      ReadPrintedEntries(entries, m, close, rest);
      assert parts[0][0] == QUOTE;
      JoinedStart(parts, close);
      ReadAfterEntries(Join(parts) + close, m, rest);
    }
  }

  lemma ReadsObject(entries: seq<(Text, Text)>, m: map<Text, Meaning>)
    requires forall e <- entries :: e.0 in m && Reads(e.1, m[e.0])
    requires forall k <- m :: exists e <- entries :: e.0 == k
    ensures Reads(Tag(KObject) + (Join(EntryTexts(entries)) + [CLOSE_BRACE]), MObj(m))
  {
    var joined := Join(EntryTexts(entries));
    forall rest: Text
      ensures ReadAfterTag(KObject, joined + [CLOSE_BRACE] + rest) == Some((MObj(m), rest))
    {
      Associate(joined, [CLOSE_BRACE], rest);
      ReadObjectBody(entries, m, rest);
    }
    ReadsAfterTag(KObject, joined + [CLOSE_BRACE], MObj(m));
  }

  // ---------------------------------------------------------------- round trip

  function KindOfValue(v: Value): Kind {
    match v
    case Str(_) => KString
    case Boolean(_) => KBoolean
    case Num(_) => KNumber
    case BigInt(_) => KBigInt
    case Bytes(_) => KBytes
    case Arr(_) => KArray
    case Obj(_) => KObject
    case _ => KNull
  }

  lemma TagStart(kind: Kind)
    ensures |Tag(kind)| > 0 && 97 <= Tag(kind)[0]
  {
  }

  lemma PrintNonempty(v: Value)
    requires Printable(v)
    ensures |Print(v)| > 0 && 97 <= Print(v)[0]
  {
    var tag := Tag(KindOfValue(v));
    TagStart(KindOfValue(v));
    assert tag <= Print(v);
  }

  lemma MeaningIsNoHole(v: Value)
    requires Printable(v)
    ensures MeaningOf(v) != MHole
  {
  }

  lemma {:induction false} ReadsItems(items: seq<Value>)
    requires forall item <- items :: item == Hole || (Printable(item) && NoLoneHole(item))
    ensures forall i :: 0 <= i < |items| ==> ItemReads(PrintItems(items)[i], MeaningOfItems(items)[i])
    decreases items, 1
  {
    forall i | 0 <= i < |items|
      ensures ItemReads(PrintItems(items)[i], MeaningOfItems(items)[i])
    {
      if items[i] != Hole {
        ReadsPrinted(items[i]);
        PrintNonempty(items[i]);
      }
    }
  }

  lemma {:induction false} MeaningOfField(fields: seq<Field>, i: nat)
    requires DistinctFields(fields) && i < |fields|
    ensures fields[i].key in MeaningOfFields(fields)
    ensures MeaningOfFields(fields)[fields[i].key] == MeaningOf(fields[i].value)
  {
    if i > 0 {
      MeaningOfField(fields[1..], i - 1);
    }
  }

  /** The reader undoes the printer in front of any continuation. */
  lemma {:induction false} ReadsPrinted(v: Value)
    requires Printable(v) && NoLoneHole(v)
    ensures Reads(Print(v), MeaningOf(v))
    decreases v, 2
  {
    match v
    case Null =>
      ReadsNull();
    case Str(text) => ReadsString(text);
    case Boolean(flag) => ReadsBoolean(flag);
    case Num(number) => ReadsNumber(number);
    case BigInt(integer) => ReadsInteger(integer);
    case Bytes(bytes) => ReadsBytes(bytes);
    case Arr(items) =>
      ReadsItems(items);
      LoneHoleParts(items);
      ReadsArray(PrintItems(items), MeaningOfItems(items));
    case Obj(fields) =>
      ReadsFields(fields);
  }

  lemma ReadsNull()
    ensures Reads(Print(Null), MNull)
  {
    forall rest: Text
      ensures ReadAfterTag(KNull, [] + rest) == Some((MNull, rest))
    {
      assert [] + rest == rest;
    }
    ReadsAfterTag(KNull, [], MNull);
    assert Tag(KNull) + [] == Tag(KNull);
  }

  lemma LoneHoleParts(items: seq<Value>)
    requires forall item <- items :: item == Hole || Printable(item)
    requires items != [Hole]
    ensures PrintItems(items) != [[]]
  {
    if |items| == 1 {
      assert items[0] != Hole;
      PrintNonempty(items[0]);
      assert PrintItems(items)[0] != [];
    }
  }

  lemma {:induction false} ReadsFields(fields: seq<Field>)
    requires DistinctFields(fields)
    requires forall f <- fields :: Printable(f.value) && NoLoneHole(f.value)
    ensures Reads(Tag(KObject) + (Join(EntryTexts(SortByKey(PrintEntries(fields)))) + [CLOSE_BRACE]),
                  MObj(MeaningOfFields(fields)))
    decreases fields, 1
  {
    var entries := PrintEntries(fields);
    var sorted := SortByKey(entries);
    var m := MeaningOfFields(fields);
    SortKeeps(entries);
    forall e | e in sorted
      ensures e.0 in m && Reads(e.1, m[e.0])
    {
      assert e in multiset(sorted) && e in multiset(entries);
      var i :| 0 <= i < |entries| && entries[i] == e;
      ReadsPrinted(fields[i].value);
      MeaningOfField(fields, i);
    }
    forall k | k in m
      ensures exists e <- sorted :: e.0 == k
    {
      var f :| f in fields && f.key == k;
      var i :| 0 <= i < |fields| && fields[i] == f;
      assert entries[i] in sorted;
    }
    ReadsObject(sorted, m);
  }

  // ------------------------------------------------ the text depends on the meaning alone

  lemma {:induction false} EqualItems(a: seq<Value>, b: seq<Value>)
    requires forall item <- a :: item == Hole || Printable(item)
    requires forall item <- b :: item == Hole || Printable(item)
    requires MeaningOfItems(a) == MeaningOfItems(b)
    ensures PrintItems(a) == PrintItems(b)
    decreases a, 1
  {
    assert |a| == |MeaningOfItems(a)| == |b|;
    forall i | 0 <= i < |a|
      ensures PrintItems(a)[i] == PrintItems(b)[i]
    {
      assert MeaningOf(a[i]) == MeaningOfItems(a)[i] == MeaningOf(b[i]);
      assert a[i] in a && b[i] in b;
      EqualItem(a[i], b[i]);
    }
  }

  /** Elements of one meaning print the same, holes as nothing. */
  lemma {:induction false} EqualItem(a: Value, b: Value)
    requires (a == Hole || Printable(a)) && (b == Hole || Printable(b)) && MeaningOf(a) == MeaningOf(b)
    ensures a == Hole <==> b == Hole
    ensures a != Hole ==> Print(a) == Print(b)
    decreases a, 3
  {
    if a != Hole && b != Hole {
      EqualMeaningEqualText(a, b);
    } else if a != Hole {
      MeaningIsNoHole(a);
    } else if b != Hole {
      MeaningIsNoHole(b);
    }
  }

  lemma {:induction false} EntriesIncluded(a: seq<Field>, b: seq<Field>)
    requires DistinctFields(a) && DistinctFields(b)
    requires forall f <- a :: Printable(f.value)
    requires forall f <- b :: Printable(f.value)
    requires MeaningOfFields(a) == MeaningOfFields(b)
    ensures forall e <- PrintEntries(a) :: e in PrintEntries(b)
    decreases a, 1
  {
    forall e | e in PrintEntries(a)
      ensures e in PrintEntries(b)
    {
      var i :| 0 <= i < |a| && PrintEntries(a)[i] == e;
      MeaningOfField(a, i);
      var f :| f in b && f.key == a[i].key;
      var j :| 0 <= j < |b| && b[j] == f;
      MeaningOfField(b, j);
      EqualMeaningEqualText(a[i].value, b[j].value);
      assert PrintEntries(b)[j] == e;
    }
  }

  lemma {:induction false} EntriesIncludedBack(a: seq<Field>, b: seq<Field>)
    requires DistinctFields(a) && DistinctFields(b)
    requires forall f <- a :: Printable(f.value)
    requires forall f <- b :: Printable(f.value)
    requires MeaningOfFields(a) == MeaningOfFields(b)
    ensures forall e <- PrintEntries(b) :: e in PrintEntries(a)
    decreases a, 1
  {
    forall e | e in PrintEntries(b)
      ensures e in PrintEntries(a)
    {
      var j :| 0 <= j < |b| && PrintEntries(b)[j] == e;
      MeaningOfField(b, j);
      var f :| f in a && f.key == b[j].key;
      var i :| 0 <= i < |a| && a[i] == f;
      MeaningOfField(a, i);
      EqualMeaningEqualText(a[i].value, b[j].value);
      assert PrintEntries(a)[i] == e;
    }
  }

  /** Payloads of the same meaning have the same text, whatever the order of their keys. */
  lemma {:induction false} EqualMeaningEqualText(a: Value, b: Value)
    requires Printable(a) && Printable(b)
    requires MeaningOf(a) == MeaningOf(b)
    ensures Print(a) == Print(b)
    decreases a, 2
  {
    match a
    case Arr(items) =>
      EqualItems(items, b.items);
    case Obj(fields) =>
      EntriesIncluded(fields, b.fields);
      EntriesIncludedBack(fields, b.fields);
      var ea, eb := PrintEntries(fields), PrintEntries(b.fields);
      SortKeeps(ea);
      SortKeeps(eb);
      SortAscending(ea);
      SortAscending(eb);
      AscendingUnique(SortByKey(ea), SortByKey(eb));
    case _ =>
  }

  /**
   Two payloads without lone holes have the same canonical text exactly when they are
   the same value, comparing objects as maps.
   */
  lemma SameTextIffSameMeaning(a: Value, b: Value)
    requires Printable(a) && Printable(b) && NoLoneHole(a) && NoLoneHole(b)
    ensures Print(a) == Print(b) <==> MeaningOf(a) == MeaningOf(b)
  {
    if Print(a) == Print(b) {
      ReadsPrinted(a);
      ReadsPrinted(b);
      assert Read(Print(a) + []) == Some((MeaningOf(a), []));
      assert Read(Print(b) + []) == Some((MeaningOf(b), []));
    }
    if MeaningOf(a) == MeaningOf(b) {
      EqualMeaningEqualText(a, b);
    }
  }

  // ---------------------------------------------------------------- lone holes

  /** Replaces every array that is one single hole by the empty array. */
  function Settle(v: Value): Value {
    match v
    case Arr(items) => if items == [Hole] then Arr([]) else Arr(SettleItems(items))
    case Obj(fields) => Obj(SettleFields(fields))
    case _ => v
  }

  function SettleItems(items: seq<Value>): (r: seq<Value>)
    ensures |r| == |items|
  {
    if |items| == 0 then [] else [Settle(items[0])] + SettleItems(items[1..])
  }

  function SettleFields(fields: seq<Field>): (r: seq<Field>)
    ensures |r| == |fields|
    ensures forall i :: 0 <= i < |r| ==> r[i].key == fields[i].key
  {
    if |fields| == 0 then []
    else [Field(fields[0].key, Settle(fields[0].value))] + SettleFields(fields[1..])
  }

  lemma {:induction false} SettledItems(items: seq<Value>)
    requires forall item <- items :: item == Hole || Printable(item)
    ensures forall i :: 0 <= i < |items| ==>
              var r := SettleItems(items)[i];
              (r == Hole <==> items[i] == Hole) && (r == Hole || Printable(r)) && NoLoneHole(r)
    ensures forall item <- SettleItems(items) :: (item == Hole || Printable(item)) && NoLoneHole(item)
    ensures PrintItems(SettleItems(items)) == PrintItems(items)
    decreases items, 1
  {
    if |items| > 0 {
      if items[0] != Hole {
        SettledPrints(items[0]);
      }
      SettledItems(items[1..]);
    }
  }

  lemma {:induction false} SettledFields(fields: seq<Field>)
    requires forall f <- fields :: Printable(f.value)
    ensures forall f <- SettleFields(fields) :: Printable(f.value) && NoLoneHole(f.value)
    ensures PrintEntries(SettleFields(fields)) == PrintEntries(fields)
    decreases fields, 1
  {
    if |fields| > 0 {
      SettledPrints(fields[0].value);
      SettledFields(fields[1..]);
    }
  }

  lemma LoneHoleSettles()
    ensures Printable(Arr([])) && NoLoneHole(Arr([])) && Printable(Arr([Hole]))
    ensures Print(Arr([])) == Print(Arr([Hole]))
  {
    assert PrintItems([Hole]) == [[]];
    assert Join([[]]) == Join([]);
  }

  lemma SettledArray(items: seq<Value>, settled: seq<Value>)
    requires Printable(Arr(items)) && settled != [Hole]
    requires forall item <- settled :: (item == Hole || Printable(item)) && NoLoneHole(item)
    requires PrintItems(settled) == PrintItems(items)
    ensures Printable(Arr(settled)) && NoLoneHole(Arr(settled))
    ensures Print(Arr(settled)) == Print(Arr(items))
  {
  }

  /** Settling removes every lone hole and never changes the text. */
  lemma {:induction false} SettledPrints(v: Value)
    requires Printable(v)
    ensures Printable(Settle(v)) && NoLoneHole(Settle(v))
    ensures Print(Settle(v)) == Print(v)
    decreases v, 2
  {
    match v
    case Arr(items) =>
      if items == [Hole] {
        LoneHoleSettles();
      } else {
        SettledItems(items);
        assert |items| == 1 ==> SettleItems(items)[0] != Hole;
        SettledArray(items, SettleItems(items));
      }
    case Obj(fields) =>
      SettledFields(fields);
    case _ =>
  }

  lemma {:induction false} SettledItemsSame(items: seq<Value>)
    requires forall item <- items :: NoLoneHole(item)
    ensures SettleItems(items) == items
    decreases items, 1
  {
    if |items| > 0 {
      SettleChangesNothing(items[0]);
      SettledItemsSame(items[1..]);
    }
  }

  lemma {:induction false} SettledFieldsSame(fields: seq<Field>)
    requires forall f <- fields :: NoLoneHole(f.value)
    ensures SettleFields(fields) == fields
    decreases fields, 1
  {
    if |fields| > 0 {
      SettleChangesNothing(fields[0].value);
      SettledFieldsSame(fields[1..]);
    }
  }

  lemma {:induction false} SettleChangesNothing(v: Value)
    requires NoLoneHole(v)
    ensures Settle(v) == v
    decreases v, 2
  {
    match v
    case Arr(items) => SettledItemsSame(items);
    case Obj(fields) => SettledFieldsSame(fields);
    case _ =>
  }

  /**
   The exact collisions of the encoder over all accepted payloads: same text exactly
   when the payloads agree as values once every lone-hole array is read as empty.
   */
  lemma CanonicalTextCollisions(a: Value, b: Value)
    requires PlainValue(a) && PlainValue(b)
    requires Canonicalize(a).Ok? && Canonicalize(b).Ok?
    ensures Canonicalize(a) == Canonicalize(b) <==> MeaningOf(Settle(a)) == MeaningOf(Settle(b))
    ensures NoLoneHole(a) && NoLoneHole(b) ==>
              (Canonicalize(a) == Canonicalize(b) <==> MeaningOf(a) == MeaningOf(b))
  {
    RefusedIffUnsupported(a);
    RefusedIffUnsupported(b);
    SettledPrints(a);
    SettledPrints(b);
    SameTextIffSameMeaning(Settle(a), Settle(b));
    if NoLoneHole(a) && NoLoneHole(b) {
      SettleChangesNothing(a);
      SettleChangesNothing(b);
    }
  }

  /** The one family of collisions, at its smallest: a sparse array of one hole prints as an empty array. */
  lemma LoneHoleCollision()
    ensures Canonicalize(Arr([Hole])) == Canonicalize(Arr([]))
    ensures Canonicalize(Arr([])).Ok?
    ensures MeaningOf(Arr([Hole])) != MeaningOf(Arr([]))
  {
    assert PrintItems([Hole]) == [[]];
    assert Join([[]]) == Join([]);
    assert MeaningOf(Arr([Hole])).items == [MHole];
  }
}
