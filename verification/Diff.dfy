/** Where two lists of documents disagree: crates/heyl-cli/tests/harness/mod.rs:297-373. */
module Diff {
  import opened Wrappers
  import opened OrderedMap
  import opened Json
  import Text

  datatype Line =
    | Printed(actual: nat, expected: nat)
    | Missing(at: string, value: Value)
    | Unexpected(at: string)
    | Items(at: string, actual: nat, expected: nat)
    | Differs(at: string, want: Value, got: Value)
    | More(extra: nat)

  // ---- equality that does not see key order

  /** JSON equality: objects by their keys, arrays item by item, anything else as it is. */
  predicate Same(want: Value, got: Value)
    decreases want, 0
  {
    if want.Object? && got.Object? then
      && (forall i :: 0 <= i < |want.fields| ==> Agrees(want.fields[i].value, Get(got.fields, want.fields[i].key)))
      && (forall i :: 0 <= i < |got.fields| ==> Get(want.fields, got.fields[i].key).Some?)
    else if want.Array? && got.Array? then
      |want.items| == |got.items| && forall i :: 0 <= i < |want.items| ==> Same(want.items[i], got.items[i])
    else want == got
  }

  /** Item by item. */
  predicate SameItems(want: seq<Value>, got: seq<Value>) {
    |want| == |got| && forall i :: 0 <= i < |want| ==> Same(want[i], got[i])
  }

  predicate Agrees(want: Value, got: Option<Value>)
    decreases want, 1
  {
    got.Some? && Same(want, got.value)
  }

  predicate AgreesAt(want: OMap<Value>, got: OMap<Value>, key: string) {
    var x, y := Get(want, key), Get(got, key);
    (x.Some? <==> y.Some?) && (x.Some? ==> Same(x.value, y.value))
  }

  /** Two objects are the same when they have the same keys, and the same under every key. */
  lemma SameObjects(want: OMap<Value>, got: OMap<Value>)
    ensures Same(Object(want), Object(got)) <==> forall key :: AgreesAt(want, got, key)
  {
    if forall key :: AgreesAt(want, got, key) {
      forall i | 0 <= i < |want| ensures Agrees(want[i].value, Get(got, want[i].key)) {
        assert AgreesAt(want, got, want[i].key);
        GetAt(want, i);
      }
      forall i | 0 <= i < |got| ensures Get(want, got[i].key).Some? {
        assert AgreesAt(want, got, got[i].key);
        GetAt(got, i);
      }
    }
    if Same(Object(want), Object(got)) {
      forall key ensures AgreesAt(want, got, key) {
        SameAtKey(want, got, key);
      }
    }
  }

  lemma SameAtKey(want: OMap<Value>, got: OMap<Value>, key: string)
    requires Same(Object(want), Object(got))
    ensures AgreesAt(want, got, key)
  {
    assert forall i :: 0 <= i < |want| ==> Agrees(want[i].value, Get(got, want[i].key));
    assert forall i :: 0 <= i < |got| ==> Get(want, got[i].key).Some?;
    hide Same;
    var i, j := Find(want, key), Find(got, key);
    if i < |want| { assert Agrees(want[i].value, Get(got, want[i].key)); }
    if j < |got| { assert Get(want, got[j].key).Some?; }
  }

  lemma {:induction false} SameReflexive(v: Value)
    ensures Same(v, v)
  {
    if v.Object? {
      forall i | 0 <= i < |v.fields| ensures Same(v.fields[i].value, Get(v.fields, v.fields[i].key).value) {
        GetAt(v.fields, i);
        SameReflexive(v.fields[i].value);
      }
    } else if v.Array? {
      forall i | 0 <= i < |v.items| { SameReflexive(v.items[i]); }
    }
  }

  lemma {:induction false} SameSymmetric(a: Value, b: Value)
    requires Same(a, b)
    ensures Same(b, a)
  {
    if a.Object? && b.Object? {
      forall j | 0 <= j < |b.fields|
        ensures Get(a.fields, b.fields[j].key).Some? && Same(b.fields[j].value, Get(a.fields, b.fields[j].key).value)
      {
        var i := Find(a.fields, b.fields[j].key);
        GetAt(b.fields, j);
        SameSymmetric(a.fields[i].value, b.fields[j].value);
      }
    } else if a.Array? && b.Array? {
      forall i | 0 <= i < |a.items| { SameSymmetric(a.items[i], b.items[i]); }
    }
  }

  // ---- the lines a comparison reports

  function Here(at: string): string { if at == "" then "/" else at }

  function Walked(at: string, want: Value, got: Value): seq<Line>
    decreases want, 1
  {
    if want.Object? && got.Object? then
      WalkedFields(at, want.fields, got.fields) + Extras(at, want.fields, got.fields)
    else if want.Array? && got.Array? then
      if |want.items| == |got.items| then WalkedItems(at, want.items, got.items)
      else [Items(Here(at), |got.items|, |want.items|)]
    else if want != got then [Differs(Here(at), want, got)]
    else []
  }

  function WalkedFields(at: string, want: seq<Entry<Value>>, got: OMap<Value>): seq<Line>
    decreases want, 0
  {
    if want == [] then []
    else
      var e := want[|want| - 1];
      WalkedFields(at, want[..|want| - 1], got) + WalkedField(at + "/" + e.key, e.value, Get(got, e.key))
  }

  function WalkedField(at: string, want: Value, got: Option<Value>): seq<Line>
    decreases want, 2
  {
    match got
    case Some(other) => Walked(at, want, other)
    case None => [Missing(at, want)]
  }

  function Extras(at: string, want: OMap<Value>, got: seq<Entry<Value>>): seq<Line> {
    if got == [] then []
    else
      var e := got[|got| - 1];
      Extras(at, want, got[..|got| - 1]) + if Get(want, e.key).Some? then [] else [Unexpected(at + "/" + e.key)]
  }

  function WalkedItems(at: string, want: seq<Value>, got: seq<Value>): seq<Line>
    requires |want| == |got|
    decreases want, 0
  {
    if want == [] then []
    else
      var n := |want| - 1;
      WalkedItems(at, want[..n], got[..n]) + Walked(at + "/" + Text.Decimal(n), want[n], got[n])
  }

  /** The walk, pushing its lines onto a shared list. */
  method Walk(at: string, want: Value, got: Value, soFar: seq<Line>) returns (out: seq<Line>)
    ensures out == soFar + Walked(at, want, got)
    decreases want, 1
  {
    hide WalkedFields, WalkedItems, Extras, Get;
    out := soFar;
    if want.Object? && got.Object? {
      out := WalkFields(at, want.fields, got.fields, out);
      out := WalkExtras(at, want.fields, got.fields, out);
    } else if want.Array? && got.Array? {
      if |want.items| == |got.items| {
        out := WalkItems(at, want.items, got.items, out);
      } else {
        out := out + [Items(Here(at), |got.items|, |want.items|)];
      }
    } else if want != got {
      out := out + [Differs(Here(at), want, got)];
    }
  }

  method WalkExtras(at: string, want: OMap<Value>, got: seq<Entry<Value>>, soFar: seq<Line>) returns (out: seq<Line>)
    ensures out == soFar + Extras(at, want, got)
  {
    hide Get;
    out := soFar;
    for i := 0 to |got|
      invariant out == soFar + Extras(at, want, got[..i])
    {
      assert got[..i + 1][..i] == got[..i];
      if Get(want, got[i].key) == None {
        out := out + [Unexpected(at + "/" + got[i].key)];
      }
    }
    assert got[..|got|] == got;
  }

  method WalkFields(at: string, want: seq<Entry<Value>>, got: OMap<Value>, soFar: seq<Line>) returns (out: seq<Line>)
    ensures out == soFar + WalkedFields(at, want, got)
    decreases want, 0
  {
    hide Walked, Get;
    out := soFar;
    for i := 0 to |want|
      invariant out == soFar + WalkedFields(at, want[..i], got)
    {
      assert want[..i + 1][..i] == want[..i];
      match Get(got, want[i].key)
      case Some(other) => out := Walk(at + "/" + want[i].key, want[i].value, other, out);
      case None => out := out + [Missing(at + "/" + want[i].key, want[i].value)];
    }
    assert want[..|want|] == want;
  }

  method WalkItems(at: string, want: seq<Value>, got: seq<Value>, soFar: seq<Line>) returns (out: seq<Line>)
    requires |want| == |got|
    ensures out == soFar + WalkedItems(at, want, got)
    decreases want, 0
  {
    hide Walked;
    out := soFar;
    for i := 0 to |want|
      invariant out == soFar + WalkedItems(at, want[..i], got[..i])
    {
      assert want[..i + 1][..i] == want[..i] && got[..i + 1][..i] == got[..i];
      out := Walk(at + "/" + Text.Decimal(i), want[i], got[i], out);
    }
    assert want[..|want|] == want && got[..|got|] == got;
  }

  // ---- the report is empty exactly when there is nothing to report

  lemma {:induction false} WalkFindsDifferences(at: string, want: Value, got: Value)
    ensures Walked(at, want, got) == [] <==> Same(want, got)
    decreases want, 1
  {
    if want.Object? && got.Object? {
      FieldsFindDifferences(at, want.fields, got.fields);
      ExtrasFindDifferences(at, want.fields, got.fields);
    } else if want.Array? && got.Array? && |want.items| == |got.items| {
      ItemsFindDifferences(at, want.items, got.items);
    }
  }

  lemma {:induction false} FieldsFindDifferences(at: string, want: seq<Entry<Value>>, got: OMap<Value>)
    ensures WalkedFields(at, want, got) == [] <==>
      forall i :: 0 <= i < |want| ==> Agrees(want[i].value, Get(got, want[i].key))
    decreases want, 0
  {
    hide Agrees, Get, Walked, WalkedField;
    if want != [] {
      var n := |want| - 1;
      FieldsFindDifferences(at, want[..n], got);
      FieldFindsDifferences(at + "/" + want[n].key, want[n].value, Get(got, want[n].key));
      AgreesNext(want, got, n);
    }
  }

  lemma AgreesNext(want: seq<Entry<Value>>, got: OMap<Value>, n: nat)
    requires |want| == n + 1
    ensures (forall i :: 0 <= i < n + 1 ==> Agrees(want[i].value, Get(got, want[i].key))) <==>
      && (forall i :: 0 <= i < n ==> Agrees(want[..n][i].value, Get(got, want[..n][i].key)))
      && Agrees(want[n].value, Get(got, want[n].key))
  {
    hide Agrees, Get;
    forall i | 0 <= i < n ensures want[..n][i] == want[i] {}
    if forall i :: 0 <= i < n ==> Agrees(want[..n][i].value, Get(got, want[..n][i].key)) {
      forall i | 0 <= i < n ensures Agrees(want[i].value, Get(got, want[i].key)) {
        assert Agrees(want[..n][i].value, Get(got, want[..n][i].key));
      }
    }
  }

  lemma {:induction false} FieldFindsDifferences(at: string, want: Value, got: Option<Value>)
    ensures WalkedField(at, want, got) == [] <==> Agrees(want, got)
    decreases want, 2
  {
    if got.Some? { WalkFindsDifferences(at, want, got.value); }
  }

  lemma {:induction false} ExtrasFindDifferences(at: string, want: OMap<Value>, got: seq<Entry<Value>>)
    ensures Extras(at, want, got) == [] <==> forall i :: 0 <= i < |got| ==> Get(want, got[i].key).Some?
  {
    hide Get;
    if got != [] {
      var n := |got| - 1;
      assert forall i :: 0 <= i < n ==> got[..n][i] == got[i];
      ExtrasFindDifferences(at, want, got[..n]);
    }
  }

  lemma SameItemsNext(want: seq<Value>, got: seq<Value>, n: nat)
    requires |want| == |got| == n + 1
    ensures SameItems(want, got) <==> SameItems(want[..n], got[..n]) && Same(want[n], got[n])
  {
    hide Same;
    assert forall i :: 0 <= i < n ==> want[..n][i] == want[i] && got[..n][i] == got[i];
    if SameItems(want, got) {
      forall i | 0 <= i < n ensures Same(want[..n][i], got[..n][i]) {
        assert Same(want[i], got[i]);
      }
    }
    if SameItems(want[..n], got[..n]) && Same(want[n], got[n]) {
      forall i | 0 <= i < n + 1 ensures Same(want[i], got[i]) {
        if i < n { assert Same(want[..n][i], got[..n][i]); }
      }
    }
  }

  lemma {:induction false} ItemsFindDifferences(at: string, want: seq<Value>, got: seq<Value>)
    requires |want| == |got|
    ensures WalkedItems(at, want, got) == [] <==> SameItems(want, got)
    decreases want, 0
  {
    if want != [] {
      var n := |want| - 1;
      ItemsFindDifferences(at, want[..n], got[..n]);
      WalkFindsDifferences(at + "/" + Text.Decimal(n), want[n], got[n]);
      SameItemsNext(want, got, n);
    }
  }

  // ---- whole documents

  const LIMIT: nat := 12

  function Trimmed(out: seq<Line>): seq<Line> {
    if |out| > LIMIT then out[..LIMIT] + [More(|out| - LIMIT)] else out
  }

  function Prefix(count: nat, index: nat): string {
    if count == 1 then "" else "[" + Text.Decimal(index) + "]"
  }

  /** The lines of every document, each under its own number when there are several. */
  function WalkedDocuments(count: nat, expected: seq<Value>, actual: seq<Value>): seq<Line>
    requires |expected| == |actual|
  {
    if expected == [] then []
    else
      var n := |expected| - 1;
      WalkedDocuments(count, expected[..n], actual[..n]) + Walked(Prefix(count, n), expected[n], actual[n])
  }

  lemma {:induction false} DocumentsFindDifferences(count: nat, expected: seq<Value>, actual: seq<Value>)
    requires |expected| == |actual|
    ensures WalkedDocuments(count, expected, actual) == [] <==> SameItems(expected, actual)
  {
    if expected != [] {
      var n := |expected| - 1;
      DocumentsFindDifferences(count, expected[..n], actual[..n]);
      WalkFindsDifferences(Prefix(count, n), expected[n], actual[n]);
      SameItemsNext(expected, actual, n);
    }
  }

  /** Compare two lists of documents; the count comes first and stops there. */
  method DocumentsDiffer(expected: seq<Value>, actual: seq<Value>) returns (report: seq<Line>)
    ensures report == [] <==> SameItems(expected, actual)
    ensures |report| <= LIMIT + 1
    ensures report == if |expected| != |actual| then [Printed(|actual|, |expected|)]
                      else Trimmed(WalkedDocuments(|expected|, expected, actual))
  {
    hide Same, Walked;
    if |expected| != |actual| {
      return [Printed(|actual|, |expected|)];
    }
    var out: seq<Line> := [];
    for i := 0 to |expected|
      invariant out == WalkedDocuments(|expected|, expected[..i], actual[..i])
    {
      assert expected[..i + 1][..i] == expected[..i] && actual[..i + 1][..i] == actual[..i];
      out := Walk(Prefix(|expected|, i), expected[i], actual[i], out);
    }
    DocumentsFindDifferences(|expected|, expected, actual);
    assert expected[..|expected|] == expected && actual[..|actual|] == actual;
    report := Trimmed(out);
  }

  // ---- which line is reported where

  /** Values that are not both objects and not both lists are the same only if they are equal; lists go item by item. */
  lemma SameOthers(want: Value, got: Value)
    requires !(want.Object? && got.Object?)
    ensures Same(want, got) <==>
      if want.Array? && got.Array?
      then |want.items| == |got.items| && forall i :: 0 <= i < |want.items| ==> Same(want.items[i], got.items[i])
      else want == got
  {
  }

  lemma {:induction false} FieldLines(at: string, want: seq<Entry<Value>>, got: OMap<Value>, line: Line)
    ensures line in WalkedFields(at, want, got) <==>
      exists i :: 0 <= i < |want| && line in WalkedField(at + "/" + want[i].key, want[i].value, Get(got, want[i].key))
  {
    hide WalkedField, Get;
    if want != [] {
      var n := |want| - 1;
      FieldLines(at, want[..n], got, line);
      assert forall i :: 0 <= i < n ==> want[..n][i] == want[i];
    }
  }

  lemma {:induction false} ExtraLines(at: string, want: OMap<Value>, got: seq<Entry<Value>>, line: Line)
    ensures line in Extras(at, want, got) <==>
      exists j :: 0 <= j < |got| && Get(want, got[j].key) == None && line == Unexpected(at + "/" + got[j].key)
  {
    hide Get;
    if got != [] {
      var n := |got| - 1;
      ExtraLines(at, want, got[..n], line);
      assert forall j :: 0 <= j < n ==> got[..n][j] == got[j];
      var last := if Get(want, got[n].key).Some? then [] else [Unexpected(at + "/" + got[n].key)];
      assert Extras(at, want, got) == Extras(at, want, got[..n]) + last;
      hide Extras;
    }
  }

  lemma {:induction false} ItemLines(at: string, want: seq<Value>, got: seq<Value>, line: Line)
    requires |want| == |got|
    ensures line in WalkedItems(at, want, got) <==>
      exists i :: 0 <= i < |want| && line in Walked(at + "/" + Text.Decimal(i), want[i], got[i])
  {
    hide Walked, Text.Decimal;
    if want != [] {
      var n := |want| - 1;
      ItemLines(at, want[..n], got[..n], line);
      assert forall i :: 0 <= i < n ==> want[..n][i] == want[i] && got[..n][i] == got[i];
    }
  }

  /**
   * Two objects report each key the wanted one alone has as missing with its value, each key the other alone has
   * as unexpected, and under each key of both what the two values there report, all under the key's own path.
   */
  lemma ObjectLines(at: string, want: OMap<Value>, got: OMap<Value>, line: Line)
    ensures line in Walked(at, Object(want), Object(got)) <==>
      || (exists i :: 0 <= i < |want| && Get(got, want[i].key) == None
                      && line == Missing(at + "/" + want[i].key, want[i].value))
      || (exists i :: 0 <= i < |want| && Get(got, want[i].key).Some?
                      && line in Walked(at + "/" + want[i].key, want[i].value, Get(got, want[i].key).value))
      || (exists j :: 0 <= j < |got| && Get(want, got[j].key) == None && line == Unexpected(at + "/" + got[j].key))
  {
    FieldLines(at, want, got, line);
    ExtraLines(at, want, got, line);
    assert Walked(at, Object(want), Object(got)) == WalkedFields(at, want, got) + Extras(at, want, got);
    hide Walked, WalkedFields, Extras, Get;
  }

  /** Lists of two lengths report just that; other lists what their items report, each under its own number. */
  lemma ArrayLines(at: string, want: seq<Value>, got: seq<Value>, line: Line)
    ensures |want| != |got| ==>
      Walked(at, Array(want), Array(got)) == [Items(if at == "" then "/" else at, |got|, |want|)]
    ensures |want| == |got| ==>
      (line in Walked(at, Array(want), Array(got)) <==>
         exists i :: 0 <= i < |want| && line in Walked(at + "/" + Text.Decimal(i), want[i], got[i]))
  {
    if |want| == |got| {
      ItemLines(at, want, got, line);
      assert Walked(at, Array(want), Array(got)) == WalkedItems(at, want, got);
    }
  }

  /** Any other two values that differ report both, where they stand. */
  lemma OtherLines(at: string, want: Value, got: Value)
    requires !(want.Object? && got.Object?) && !(want.Array? && got.Array?)
    ensures Walked(at, want, got) ==
      if want == got then [] else [Differs(if at == "" then "/" else at, want, got)]
  {
  }

  /** The keys are gone through in order, the wanted object's before those that only the other has. */
  lemma {:induction false} FieldsInOrder(at: string, a: seq<Entry<Value>>, b: seq<Entry<Value>>, got: OMap<Value>)
    ensures WalkedFields(at, a + b, got) == WalkedFields(at, a, got) + WalkedFields(at, b, got)
  {
    hide WalkedFields;
    if b == [] {
      assert a + b == a;
      NothingWalked(at, got);
    } else {
      var init, last := b[..|b| - 1], b[|b| - 1];
      assert a + b == (a + init) + [last] && b == init + [last];
      FieldsInOrder(at, a, init, got);
      FieldLast(at, a + init, last, got);
      FieldLast(at, init, last, got);
    }
  }

  lemma NothingWalked(at: string, m: OMap<Value>)
    ensures WalkedFields(at, [], m) == [] && Extras(at, m, []) == []
  {
  }

  lemma FieldLast(at: string, init: seq<Entry<Value>>, last: Entry<Value>, got: OMap<Value>)
    ensures WalkedFields(at, init + [last], got)
         == WalkedFields(at, init, got) + WalkedField(at + "/" + last.key, last.value, Get(got, last.key))
  {
    hide WalkedField, Get;
    assert (init + [last])[..|init|] == init;
  }

  lemma {:induction false} ExtrasInOrder(at: string, want: OMap<Value>, a: seq<Entry<Value>>, b: seq<Entry<Value>>)
    ensures Extras(at, want, a + b) == Extras(at, want, a) + Extras(at, want, b)
  {
    hide Extras;
    if b == [] {
      assert a + b == a;
      NothingWalked(at, want);
    } else {
      var init, last := b[..|b| - 1], b[|b| - 1];
      assert a + b == (a + init) + [last] && b == init + [last];
      ExtrasInOrder(at, want, a, init);
      ExtraLast(at, want, a + init, last);
      ExtraLast(at, want, init, last);
    }
  }

  lemma ExtraLast(at: string, want: OMap<Value>, init: seq<Entry<Value>>, last: Entry<Value>)
    ensures Extras(at, want, init + [last]) == Extras(at, want, init) +
      if Get(want, last.key).Some? then [] else [Unexpected(at + "/" + last.key)]
  {
    hide Get;
    assert (init + [last])[..|init|] == init;
  }

  /** Lists, and documents, are gone through from the first on. */
  lemma {:induction false} ItemsInOrder(at: string, want: seq<Value>, got: seq<Value>, k: nat)
    requires k <= |want| == |got|
    ensures WalkedItems(at, want[..k], got[..k]) <= WalkedItems(at, want, got)
  {
    hide Walked, Text.Decimal;
    if k == |want| {
      assert want[..k] == want && got[..k] == got;
    } else {
      var n := |want| - 1;
      assert want[..n][..k] == want[..k] && got[..n][..k] == got[..k];
      ItemsInOrder(at, want[..n], got[..n], k);
    }
  }

  lemma {:induction false} DocumentsInOrder(count: nat, expected: seq<Value>, actual: seq<Value>, k: nat)
    requires k <= |expected| == |actual|
    ensures WalkedDocuments(count, expected[..k], actual[..k]) <= WalkedDocuments(count, expected, actual)
  {
    hide Walked, Prefix;
    if k == |expected| {
      assert expected[..k] == expected && actual[..k] == actual;
    } else {
      var n := |expected| - 1;
      assert expected[..n][..k] == expected[..k] && actual[..n][..k] == actual[..k];
      DocumentsInOrder(count, expected[..n], actual[..n], k);
    }
  }

  /** A long report keeps its first twelve lines and counts the others. */
  lemma TrimmedMeaning(out: seq<Line>)
    ensures |out| <= 12 ==> Trimmed(out) == out
    ensures |out| > 12 ==> |Trimmed(out)| == 13 && Trimmed(out)[12] == More(|out| - 12)
    ensures forall i :: 0 <= i < |out| && i < 12 ==> Trimmed(out)[i] == out[i]
  {
  }

  lemma {:induction false} DocumentLine(count: nat, expected: seq<Value>, actual: seq<Value>, line: Line)
    requires |expected| == |actual|
    ensures line in WalkedDocuments(count, expected, actual) <==>
      exists i :: 0 <= i < |expected| && line in Walked(Prefix(count, i), expected[i], actual[i])
  {
    hide Walked, Prefix;
    if expected != [] {
      var n := |expected| - 1;
      DocumentLine(count, expected[..n], actual[..n], line);
      assert forall i :: 0 <= i < n ==> expected[..n][i] == expected[i] && actual[..n][i] == actual[i];
    }
  }

  /** A lone document's paths start at its root; of several, each one's start with its number in brackets. */
  lemma DocumentLines(expected: seq<Value>, actual: seq<Value>, line: Line)
    requires |expected| == |actual|
    ensures |expected| == 1 ==>
      (line in WalkedDocuments(1, expected, actual) <==> line in Walked("", expected[0], actual[0]))
    ensures |expected| != 1 ==>
      (line in WalkedDocuments(|expected|, expected, actual) <==>
         exists i :: 0 <= i < |expected| && line in Walked("[" + Text.Decimal(i) + "]", expected[i], actual[i]))
  {
    DocumentLine(|expected|, expected, actual, line);
    hide Walked, WalkedDocuments, Text.Decimal;
    assert forall i: nat :: Prefix(|expected|, i) == if |expected| == 1 then "" else "[" + Text.Decimal(i) + "]";
    hide Prefix;
  }
}
