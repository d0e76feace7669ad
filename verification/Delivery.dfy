/** What the fold does not depend on: how commits were delivered, and how a log is cut into pieces. */
module Delivery {
  import opened Wrappers
  import opened OrderedMap
  import opened Json
  import opened Merge
  import Text

  // ---- order and repetition

  ghost predicate AllObjects(history: seq<Content>) {
    forall i, name :: 0 <= i < |history| && Get(history[i], name).Some? ==> Get(history[i], name).value.Object?
  }

  ghost predicate SameCommits(a: seq<Content>, b: seq<Content>) {
    forall c :: c in a <==> c in b
  }

  /** Equal as maps of maps: the same names, and under each the same ids with the same elements. */
  ghost predicate SameElements(x: Content, y: Content) {
    && (forall name :: Get(x, name).Some? <==> Get(y, name).Some?)
    && (forall name, id :: Element(x, name, id) == Element(y, name, id))
  }

  /** No commit carries a newer element for the id than commit `i` does. */
  ghost predicate Newest(history: seq<Content>, name: string, id: string, i: nat) {
    && i < |history|
    && Element(history[i], name, id).Some?
    && forall j :: 0 <= j < |history| && Element(history[j], name, id).Some? ==>
         !Newer(Element(history[j], name, id).value, Element(history[i], name, id).value)
  }

  /** Commits tied for newest on an id agree on its element. */
  ghost predicate TopTiesAgree(history: seq<Content>) {
    forall name, id, i: nat, j: nat :: Newest(history, name, id, i) && Newest(history, name, id, j) ==>
      Element(history[i], name, id) == Element(history[j], name, id)
  }

  lemma NoRestart(history: seq<Content>, name: string)
    requires AllObjects(history)
    ensures Restart(history, name) == 0
  {
    RestartMeaning(history, name);
  }

  lemma WinnerIsNewest(history: seq<Content>, name: string, id: string) returns (w: int)
    requires AllObjects(history)
    ensures w < 0 ==> Element(FoldContents(history), name, id) == None
    ensures w < 0 ==> forall c :: c in history ==> Element(c, name, id) == None
    ensures w >= 0 ==> Newest(history, name, id, w) && Wins(history, name, id, w)
    ensures w >= 0 ==> Element(FoldContents(history), name, id) == Element(history[w], name, id)
  {
    NoRestart(history, name);
    w := FindWinner(history, name, id);
    if w >= 0 {
      forall j | 0 <= j < |history| && Element(history[j], name, id).Some?
        ensures !Newer(Element(history[j], name, id).value, Element(history[w], name, id).value)
      {
        assert Outlasts(Element(history[w], name, id).value, w, Element(history[j], name, id).value, j);
        Text.LessTotal(UpdateTime(Element(history[j], name, id).value),
                       UpdateTime(Element(history[w], name, id).value));
      }
    }
  }

  /** The newest commit of one delivery is a newest commit of any other. */
  lemma NewestElsewhere(a: seq<Content>, b: seq<Content>, name: string, id: string, i: nat) returns (k: nat)
    requires SameCommits(a, b) && Newest(b, name, id, i)
    ensures Newest(a, name, id, k) && a[k] == b[i]
  {
    assert b[i] in a;
    k :| 0 <= k < |a| && a[k] == b[i];
    forall j | 0 <= j < |a| && Element(a[j], name, id).Some?
      ensures !Newer(Element(a[j], name, id).value, Element(a[k], name, id).value)
    {
      assert a[j] in b;
    }
  }

  lemma {:induction false} FoldedNames(history: seq<Content>, name: string)
    ensures Get(FoldContents(history), name).Some? <==> exists c :: c in history && Get(c, name).Some?
  {
    if history != [] {
      var n := |history| - 1;
      assert history == history[..n] + [history[n]];
      FoldedNames(history[..n], name);
      ListStep(history[..n], history[n], name);
      if c :| c in history && Get(c, name).Some? {
        assert c in history[..n] || c == history[n];
      }
    }
  }

  lemma SameDelivery(a: seq<Content>, b: seq<Content>)
    requires AllObjects(a) && SameCommits(a, b) && TopTiesAgree(a)
    ensures SameElements(FoldContents(a), FoldContents(b))
  {
    forall i, name | 0 <= i < |b| && Get(b[i], name).Some? ensures Get(b[i], name).value.Object? {
      assert b[i] in a;
    }
    forall name ensures Get(FoldContents(a), name).Some? <==> Get(FoldContents(b), name).Some? {
      FoldedNames(a, name);
      FoldedNames(b, name);
    }
    forall name, id ensures Element(FoldContents(a), name, id) == Element(FoldContents(b), name, id) {
      var v := WinnerIsNewest(a, name, id);
      var w := WinnerIsNewest(b, name, id);
      if w >= 0 {
        assert b[w] in a;
        var k := NewestElsewhere(a, b, name, id, w);
        assert v >= 0;
      } else if v >= 0 {
        assert a[v] in b;
      }
    }
  }

  /** Delivering one of two disagreeing tied commits once more changes the outcome. */
  lemma TieIsVisible(a: seq<Content>, name: string, id: string, i: nat, j: nat) returns (b: seq<Content>)
    requires AllObjects(a)
    requires Newest(a, name, id, i) && Newest(a, name, id, j)
    requires Element(a[i], name, id) != Element(a[j], name, id)
    ensures SameCommits(a, b) && !SameElements(FoldContents(a), FoldContents(b))
  {
    var w := WinnerIsNewest(a, name, id);
    var k := if Element(a[i], name, id) == Element(a[w], name, id) then j else i;
    b := a + [a[k]];
    NoRestart(a, name);
    ElementStep(a, a[k], name, id);
    assert Element(FoldContents(b), name, id) == Element(a[k], name, id);
  }

  /**
   * Commits whose lists are all objects may arrive in any order and any number of times exactly when
   * no two of them tie for newest on an id with different elements.
   */
  lemma DeliveryDoesNotMatter(a: seq<Content>)
    requires AllObjects(a)
    ensures (forall b | SameCommits(a, b) :: SameElements(FoldContents(a), FoldContents(b))) <==> TopTiesAgree(a)
  {
    if TopTiesAgree(a) {
      forall b | SameCommits(a, b) ensures SameElements(FoldContents(a), FoldContents(b)) {
        SameDelivery(a, b);
      }
    } else {
      var name, id, i: nat, j: nat :|
        Newest(a, name, id, i) && Newest(a, name, id, j) && Element(a[i], name, id) != Element(a[j], name, id);
      var b := TieIsVisible(a, name, id, i, j);
    }
  }

  // ---- cutting a log in two

  /** Replacing a prefix of the log by its own fold is invisible. */
  lemma {:induction false} FoldPrefix(a: seq<Content>, b: seq<Content>)
    ensures FoldContents([FoldContents(a)] + b) == FoldContents(a + b)
  {
    hide MergeContents, MergeLists, OrderedMap.Merge;
    var folded := FoldContents(a);
    if b == [] {
      assert [folded] + b == [folded] && a + b == a;
      FoldOne(folded);
    } else {
      var init, last := b[..|b| - 1], b[|b| - 1];
      assert [folded] + b == ([folded] + init) + [last] && a + b == (a + init) + [last];
      FoldAppend(MergeLists, [folded] + init, last);
      FoldAppend(MergeLists, a + init, last);
      FoldPrefix(a, init);
    }
  }

  /** A list whose last value in a stretch of the log is an object was given nothing but objects there. */
  predicate Settled(b: seq<Content>, name: string) {
    var vs := Written(b, name);
    vs == [] || !vs[|vs| - 1].Object? || forall v :: v in vs ==> v.Object?
  }

  lemma {:induction false} FoldConcatKeys(a: seq<Content>, b: seq<Content>)
    ensures Keys(FoldContents(a + b)) == Keys(MergeContents(FoldContents(a), FoldContents(b)))
  {
    hide MergeLists, Unseen, MergeOne, Get;
    if b == [] {
      assert a + b == a;
    } else {
      var n := |b| - 1;
      var x, y := FoldContents(a), FoldContents(b[..n]);
      assert (a + b)[..|a| + n] == a + b[..n];
      FoldConcatKeys(a, b[..n]);
      MergeKeys(MergeLists, FoldContents(a + b[..n]), b[n]);
      MergeKeys(MergeLists, MergeContents(x, y), b[n]);
      MergeKeysAssociate(MergeLists, x, y, b[n]);
    }
  }

  lemma ChooseAssociates(a: Value, b: Value, c: Value)
    ensures Choose(Choose(a, b), c) == Choose(a, Choose(b, c))
  {
    var x, y, z := UpdateTime(a), UpdateTime(b), UpdateTime(c);
    Text.LessTotal(x, y);
    Text.LessTotal(y, z);
    Text.LessTotal(x, z);
    if Text.Less(y, x) && Text.Less(z, y) { Text.LessTransitive(z, y, x); }
    if Text.Less(x, y) && Text.Less(z, x) { Text.LessTransitive(z, x, y); }
    if Text.Less(z, x) && Text.Less(x, y) { Text.LessTransitive(z, x, y); }
    if Text.Less(y, z) && Text.Less(z, x) { Text.LessTransitive(y, z, x); }
  }

  /** Merging lists associates unless the middle one is the only one that is no object. */
  lemma MergeListsAssociates(a: Value, b: Value, c: Value)
    requires b.Object? || !a.Object? || !c.Object?
    ensures MergeLists(MergeLists(a, b), c) == MergeLists(a, MergeLists(b, c))
  {
    if a.Object? && b.Object? && c.Object? {
      forall key ensures AssociatesAt(Choose, a.fields, b.fields, c.fields, key) {
        var x, y, z := Get(a.fields, key), Get(b.fields, key), Get(c.fields, key);
        if x.Some? && y.Some? && z.Some? { ChooseAssociates(x.value, y.value, z.value); }
      }
      MergeAssociates(Choose, a.fields, b.fields, c.fields);
    }
  }

  lemma CombinedAssociates(x: Option<Value>, y: Option<Value>, z: Option<Value>)
    requires y.Some? && z.Some? ==> y.value.Object? || !z.value.Object?
    ensures Combined(MergeLists, Combined(MergeLists, x, y), z) == Combined(MergeLists, x, Combined(MergeLists, y, z))
  {
    hide MergeLists;
    if x.Some? && y.Some? && z.Some? { MergeListsAssociates(x.value, y.value, z.value); }
  }

  /** What settles a stretch of the log settles it without its last commit, unless that commit restarts the list. */
  lemma SettledInit(init: seq<Content>, last: Content, name: string)
    requires Settled(init + [last], name)
    requires Get(last, name) == None || Get(last, name).value.Object?
    ensures Settled(init, name)
    ensures Get(last, name).Some? && Written(init, name) != [] ==>
        Written(init, name)[|Written(init, name)| - 1].Object?
  {
    hide Get;
    var vs := Written(init, name);
    assert (init + [last])[..|init|] == init;
    if Get(last, name).Some? {
      assert Written(init + [last], name) == vs + [Get(last, name).value];
      assert forall v :: v in vs ==> v in vs + [Get(last, name).value];
    } else {
      assert Written(init + [last], name) == vs;
    }
  }

  lemma {:induction false} FoldConcatGet(a: seq<Content>, b: seq<Content>, name: string)
    requires Settled(b, name)
    ensures Get(FoldContents(a + b), name)
         == Combined(MergeLists, Get(FoldContents(a), name), Get(FoldContents(b), name))
  {
    if b == [] {
      assert a + b == a;
    } else {
      var init, last := b[..|b| - 1], b[|b| - 1];
      assert b == init + [last] && a + b == (a + init) + [last];
      ListStep(init, last, name);
      ListStep(a + init, last, name);
      FoldedIsObject(init, name);
      var z := Get(last, name);
      if z.Some? && !z.value.Object? {
        LastDecides(Get(FoldContents(a + init), name), z.value);
        LastDecides(Get(FoldContents(init), name), z.value);
        LastDecides(Get(FoldContents(a), name), z.value);
      } else {
        SettledInit(init, last, name);
        FoldConcatGet(a, init, name);
        CombinedAssociates(Get(FoldContents(a), name), Get(FoldContents(init), name), z);
      }
    }
  }

  lemma LastDecides(x: Option<Value>, last: Value)
    requires !last.Object?
    ensures Combined(MergeLists, x, Some(last)) == Some(last)
  {
  }

  lemma FoldConcat(a: seq<Content>, b: seq<Content>)
    requires forall name :: Settled(b, name)
    ensures FoldContents(a + b) == MergeContents(FoldContents(a), FoldContents(b))
  {
    var left, right := FoldContents(a + b), MergeContents(FoldContents(a), FoldContents(b));
    FoldConcatKeys(a, b);
    forall name ensures Get(left, name) == Get(right, name) {
      FoldConcatGet(a, b, name);
      MergeGet(MergeLists, FoldContents(a), FoldContents(b), name);
    }
    Same(left, right);
  }

  /** A string that is none of these. */
  function Fresh(ks: seq<string>): (s: string)
    ensures s !in ks
  {
    FreshIsLonger(ks);
    FreshText(ks)
  }

  function FreshText(ks: seq<string>): string {
    if ks == [] then "x" else FreshText(ks[1..]) + ks[0]
  }

  lemma {:induction false} FreshIsLonger(ks: seq<string>)
    ensures FreshText(ks) != ""
    ensures forall k :: k in ks ==> |k| < |FreshText(ks)|
  {
    if ks != [] {
      FreshIsLonger(ks[1..]);
      assert ks == [ks[0]] + ks[1..];
    }
  }

  lemma MergedShows(folded: Content, list: Content, name: string, id: string)
    requires Get(folded, name) == Some(Object(list)) && Get(list, id) == None
    ensures Element(MergeContents(Single(name, Object(Single(id, Null))), folded), name, id) == Some(Null)
  {
    hide OrderedMap.Merge, Get;
    MergeGet(MergeLists, Single(name, Object(Single(id, Null))), folded, name);
    MergeGet(Choose, Single(id, Null), list, id);
  }

  /** A list restarted inside the later part hides what the earlier part had; merging the folds does not. */
  lemma RestartIsVisible(b: seq<Content>, name: string) returns (a: seq<Content>)
    requires !Settled(b, name)
    ensures FoldContents(a + b) != MergeContents(FoldContents(a), FoldContents(b))
  {
    FoldedIsObject(b, name);
    hide FoldContents, MergeContents, MergeLists, Get, Unseen, LiveLists;
    var list := Get(FoldContents(b), name).value.fields;
    var id := Fresh(Keys(list));
    KeyAt(list, id);
    var content := Single(name, Object(Single(id, Null)));
    a := [content];
    FoldOne(content);
    HiddenByRestart(a, b, name, id);
    MergedShows(FoldContents(b), list, name, id);
  }

  lemma {:induction false} HiddenByRestart(a: seq<Content>, b: seq<Content>, name: string, id: string)
    requires exists v :: v in Written(b, name) && !v.Object?
    ensures Element(FoldContents(a + b), name, id) == Element(FoldContents(b), name, id)
  {
    var n := |b| - 1;
    var last := Get(b[n], name);
    assert b == b[..n] + [b[n]] && a + b == (a + b[..n]) + [b[n]];
    ElementStep(b[..n], b[n], name, id);
    ElementStep(a + b[..n], b[n], name, id);
    if last == None || last.value.Object? {
      var v :| v in Written(b, name) && !v.Object?;
      assert v in Written(b[..n], name);
      HiddenByRestart(a, b[..n], name, id);
    }
  }

  /** Null and then an object under one name: such a second half does not merge. */
  lemma NullThenObject(name: string) returns (a: seq<Content>)
    ensures var b := [Single(name, Null), Single(name, Object([]))];
      FoldContents(a + b) != MergeContents(FoldContents(a), FoldContents(b))
  {
    var b := [Single(name, Null), Single(name, Object([]))];
    var first := b[..1];
    assert first[..0] == [] && Written(first[..0], name) == [];
    assert Written(first, name) == [Null];
    assert Written(b, name) == [Null] + [Object([])];
    var vs := Written(b, name);
    assert vs[0] == Null && vs[1] == Object([]) && vs[0] in vs;
    assert !Settled(b, name);
    a := RestartIsVisible(b, name);
  }

  /**
   * Folding two halves of a log and merging the folds is folding the log, whatever the first half was,
   * exactly when the second half settles every list.
   */
  lemma FoldsMerge(b: seq<Content>)
    ensures (forall a :: FoldContents(a + b) == MergeContents(FoldContents(a), FoldContents(b)))
      <==> (forall name :: Settled(b, name))
  {
    if forall name :: Settled(b, name) {
      forall a ensures FoldContents(a + b) == MergeContents(FoldContents(a), FoldContents(b)) {
        FoldConcat(a, b);
      }
    } else {
      var name :| !Settled(b, name);
      var a := RestartIsVisible(b, name);
    }
  }
}
