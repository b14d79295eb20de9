/** Sorting keyed entries by UTF-16 code units, the default order of `Array.prototype.sort`. */
module KeyedSort {
  import opened Text

  predicate Less(a: Text, b: Text) {
    if |b| == 0 then false
    else if |a| == 0 then true
    else if a[0] != b[0] then a[0] < b[0]
    else Less(a[1..], b[1..])
  }

  lemma {:induction false} LessTotal(a: Text, b: Text)
    ensures Less(a, b) || a == b || Less(b, a)
    ensures !(Less(a, b) && Less(b, a)) && !Less(a, a)
  {
    if |a| > 0 {
      LessTotal(a[1..], a[1..]);
    }
    if |a| > 0 && |b| > 0 && a[0] == b[0] {
      LessTotal(a[1..], b[1..]);
      assert a == [a[0]] + a[1..] && b == [b[0]] + b[1..];
    }
  }

  lemma {:induction false} LessTransitive(a: Text, b: Text, c: Text)
    requires Less(a, b) && Less(b, c)
    ensures Less(a, c)
  {
    if |a| > 0 && a[0] == b[0] == c[0] {
      LessTransitive(a[1..], b[1..], c[1..]);
    }
  }

  /** `a` is a proper beginning of `b`, or is smaller at the first unit in which they differ, which is at `n`. */
  predicate FirstDifference(a: Text, b: Text, n: nat) {
    && n <= |a| && n < |b| && a[..n] == b[..n]
    && (n == |a| || a[n] < b[n])
  }

  lemma {:induction false} LessIff(a: Text, b: Text)
    ensures Less(a, b) <==> exists n: nat :: FirstDifference(a, b, n)
  {
    if |a| > 0 && |b| > 0 && a[0] == b[0] {
      LessIff(a[1..], b[1..]);
      if n: nat :| FirstDifference(a[1..], b[1..], n) {
        assert a[..n + 1] == [a[0]] + a[1..][..n] && b[..n + 1] == [b[0]] + b[1..][..n];
        assert FirstDifference(a, b, n + 1);
      }
      if n: nat :| FirstDifference(a, b, n) {
        assert a[1..][..n - 1] == a[..n][1..] && b[1..][..n - 1] == b[..n][1..];
        assert FirstDifference(a[1..], b[1..], n - 1);
      }
    } else if Less(a, b) {
      assert FirstDifference(a, b, 0);
    } else {
      forall n: nat
        ensures !FirstDifference(a, b, n)
      {
        if n > 0 && n <= |a| && n < |b| {
          assert a[..n][0] == a[0] && b[..n][0] == b[0];
        }
      }
    }
  }

  predicate DistinctKeys<T>(entries: seq<(Text, T)>) {
    forall i, j :: 0 <= i < j < |entries| ==> entries[i].0 != entries[j].0
  }

  predicate Ascending<T>(entries: seq<(Text, T)>) {
    forall i, j :: 0 <= i < j < |entries| ==> Less(entries[i].0, entries[j].0)
  }

  function Insert<T>(e: (Text, T), sorted: seq<(Text, T)>): seq<(Text, T)> {
    if |sorted| == 0 || Less(e.0, sorted[0].0) then [e] + sorted
    else [sorted[0]] + Insert(e, sorted[1..])
  }

  function SortByKey<T>(entries: seq<(Text, T)>): seq<(Text, T)> {
    if |entries| == 0 then [] else Insert(entries[0], SortByKey(entries[1..]))
  }

  lemma {:induction false} InsertKeeps<T>(e: (Text, T), sorted: seq<(Text, T)>)
    ensures multiset(Insert(e, sorted)) == multiset(sorted) + multiset{e}
  {
    if |sorted| == 0 || Less(e.0, sorted[0].0) {
      assert Insert(e, sorted) == [e] + sorted;
    } else {
      InsertKeeps(e, sorted[1..]);
      assert sorted == [sorted[0]] + sorted[1..];
    }
  }

  lemma FirstAndRest<T>(e: T, rest: seq<T>)
    ensures multiset([e] + rest) == multiset(rest) + multiset{e}
  {
  }

  lemma {:induction false} SortPermutes<T>(entries: seq<(Text, T)>)
    ensures multiset(SortByKey(entries)) == multiset(entries)
  {
    if |entries| > 0 {
      SortPermutes(entries[1..]);
      InsertKeeps(entries[0], SortByKey(entries[1..]));
      assert entries == [entries[0]] + entries[1..];
      FirstAndRest(entries[0], entries[1..]);
    }
  }

  /** Sorting rearranges: nothing is lost, nothing is added. */
  lemma SortKeeps<T>(entries: seq<(Text, T)>)
    ensures multiset(SortByKey(entries)) == multiset(entries)
    ensures forall e :: e in SortByKey(entries) <==> e in entries
    ensures |SortByKey(entries)| == |entries|
  {
    SortPermutes(entries);
    var sorted := SortByKey(entries);
    assert |multiset(sorted)| == |multiset(entries)|;
    forall e
      ensures e in sorted <==> e in entries
    {
      assert e in multiset(sorted) <==> e in multiset(entries);
    }
  }

  lemma {:induction false} InsertAscending<T>(e: (Text, T), sorted: seq<(Text, T)>)
    requires Ascending(sorted)
    requires forall x <- sorted :: x.0 != e.0
    ensures Ascending(Insert(e, sorted))
  {
    if |sorted| == 0 {
    } else if Less(e.0, sorted[0].0) {
      forall j | 0 <= j < |sorted|
        ensures Less(e.0, sorted[j].0)
      {
        if j > 0 {
          LessTransitive(e.0, sorted[0].0, sorted[j].0);
        }
      }
    } else {
      LessTotal(e.0, sorted[0].0);
      assert sorted[0] in sorted;
      InsertAscending(e, sorted[1..]);
      InsertKeeps(e, sorted[1..]);
      var tail := Insert(e, sorted[1..]);
      forall j | 0 <= j < |tail|
        ensures Less(sorted[0].0, tail[j].0)
      {
        assert tail[j] in multiset(tail);
        assert tail[j] in sorted[1..] || tail[j] == e;
      }
    }
  }

  lemma {:induction false} SortAscending<T>(entries: seq<(Text, T)>)
    requires DistinctKeys(entries)
    ensures Ascending(SortByKey(entries))
  {
    if |entries| > 0 {
      SortAscending(entries[1..]);
      var tail := SortByKey(entries[1..]);
      SortKeeps(entries[1..]);
      forall x | x in tail
        ensures x.0 != entries[0].0
      {
        assert x in multiset(tail) && x in entries[1..];
      }
      InsertAscending(entries[0], tail);
    }
  }

  /** An ascending sequence is determined by its elements. */
  lemma {:induction false} AscendingUnique<T>(a: seq<(Text, T)>, b: seq<(Text, T)>)
    requires Ascending(a) && Ascending(b)
    requires forall e :: e in a <==> e in b
    ensures a == b
  {
    assert |b| > 0 ==> b[0] in a;
    if |a| > 0 {
      assert a[0] in b;
      LessTotal(a[0].0, b[0].0);
      assert a[0] == b[0];
      forall e
        ensures e in a[1..] <==> e in b[1..]
      {
        LessTotal(a[0].0, a[0].0);
        if e in a[1..] {
          assert e in b;
        }
        if e in b[1..] {
          assert e in a;
        }
      }
      AscendingUnique(a[1..], b[1..]);
      assert a == [a[0]] + a[1..] && b == [b[0]] + b[1..];
    }
  }
}
