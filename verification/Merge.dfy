/** Folding a vault's commits into its current state: crates/heyl-vault/src/merge.rs. */
module Merge {
  import opened Wrappers
  import opened OrderedMap
  import opened Json
  import Text
  import Bytes

  type Content = OMap<Value>

  const UPDATE_TIME := "updateTime"

  datatype Format = Snappy | Heymerge

  datatype Document = Document(format: Format, documentType: string, version: nat, content: Content)

  datatype VaultError =
    | Empty
    | LegacyAutomerge
    | UnknownFormat(byte: Bytes.Byte)
    | Decompression
    | Compression
    | NotWritableVersion(version: nat, expected: nat)
    | NotADocument(what: string)

  // ---- what one merge means

  /** An element's `updateTime`, or the empty string when it has none. */
  function UpdateTime(element: Value): string {
    match element.Field(UPDATE_TIME)
    case Some(Str(text)) => text
    case _ => ""
  }

  predicate Newer(a: Value, b: Value) { Text.Less(UpdateTime(b), UpdateTime(a)) }

  /** The element that survives when a later commit repeats an id. */
  function Choose(current: Value, element: Value): Value {
    if Newer(current, element) then current else element
  }

  /** The list that survives when a later commit repeats a name. */
  function MergeLists(acc: Value, next: Value): Value {
    if acc.Object? && next.Object? then Object(Merge(Choose, acc.fields, next.fields)) else next
  }

  function MergeContents(acc: Content, next: Content): Content {
    Merge(MergeLists, acc, next)
  }

  function FoldContents(history: seq<Content>): Content {
    Fold(MergeLists, history)
  }

  function Contents(commits: seq<Document>): (history: seq<Content>)
    ensures |history| == |commits|
    ensures forall i :: 0 <= i < |commits| ==> history[i] == commits[i].content
  {
    seq(|commits|, i requires 0 <= i < |commits| => commits[i].content)
  }

  /** The state a log of commits stands for. */
  function State(commits: seq<Document>): Result<Document, VaultError> {
    if commits == [] then Err(Empty)
    else Ok(commits[|commits| - 1].(content := FoldContents(Contents(commits))))
  }

  // ---- the in-place fold

  /** Take an element in, unless the one already there is newer. */
  method MergeElement(elements: Content, e: Entry<Value>) returns (merged: Content)
    ensures merged == MergeOne(Choose, elements, e)
  {
    var current := Get(elements, e.key);
    if current.Some? && Text.Less(UpdateTime(e.value), UpdateTime(current.value)) {
      PutPresent(elements, e.key, current.value);
      merged := elements;
    } else {
      merged := Put(elements, e.key, e.value);
    }
  }

  /** Merge one list into another, element by element. */
  method MergeList(acc: Value, next: Value) returns (merged: Value)
    ensures merged == MergeLists(acc, next)
  {
    if !(acc.Object? && next.Object?) {
      return next;
    }
    var elements: Content := acc.fields;
    assert OrderedMap.Merge(Choose, acc.fields, next.fields[..0]) == elements;
    hide OrderedMap.Merge, MergeOne, Choose, Get;
    for i := 0 to |next.fields|
      invariant elements == Merge(Choose, acc.fields, next.fields[..i])
    {
      MergeNext(Choose, acc.fields, next.fields, i);
      elements := MergeElement(elements, next.fields[i]);
    }
    assert next.fields[..|next.fields|] == next.fields;
    merged := Object(elements);
  }

  class Accumulator {
    var content: Content

    constructor ()
      ensures content == []
    {
      content := [];
    }

    /** Take a list in: an absent name is taken whole. */
    method MergeName(e: Entry<Value>)
      modifies this
      ensures content == MergeOne(MergeLists, old(content), e)
    {
      match Get(content, e.key)
      case Some(existing) =>
        var merged := MergeList(existing, e.value);
        content := Put(content, e.key, merged);
      case None =>
        content := Put(content, e.key, e.value);
    }

    /** Merge one commit's content, name by name. */
    method MergeContent(next: Content)
      modifies this
      ensures content == MergeContents(old(content), next)
    {
      assert MergeContents(content, next[..0]) == content;
      hide Get, MergeLists, MergeOne, OrderedMap.Merge;
      for i := 0 to |next|
        invariant content == MergeContents(old(content), next[..i])
      {
        MergeNext(MergeLists, old(content), next, i);
        MergeName(next[i]);
      }
      assert next[..|next|] == next;
    }
  }

  method FoldCommits(commits: seq<Document>) returns (r: Result<Document, VaultError>)
    ensures r == State(commits)
    ensures r.Err? <==> commits == []
    ensures r.Err? ==> r.error == Empty
    ensures r.Ok? ==>
      var newest := commits[|commits| - 1];
      && r.value.format == newest.format && r.value.documentType == newest.documentType
      && r.value.version == newest.version && r.value.content == FoldContents(Contents(commits))
  {
    if commits == [] {
      return Err(Empty);
    }
    var newest := commits[|commits| - 1];
    var acc := new Accumulator();
    for i := 0 to |commits|
      invariant acc.content == FoldContents(Contents(commits[..i]))
    {
      assert Contents(commits[..i + 1])[..i] == Contents(commits[..i]);
      acc.MergeContent(commits[i].content);
    }
    assert commits[..|commits|] == commits;
    r := Ok(Document(newest.format, newest.documentType, newest.version, acc.content));
  }

  lemma FoldOne(content: Content)
    ensures FoldContents([content]) == content
  {
    assert [content] == [] + [content];
    FoldAppend(MergeLists, [], content);
    MergeEmpty(MergeLists, content);
  }

  function Single(key: string, value: Value): (c: Content)
    ensures Get(c, key) == Some(value)
  {
    [Entry(key, value)]
  }

  // ---- what the fold means, element by element

  /** The element a commit carries for an id of a list. */
  function Element(content: Content, name: string, id: string): Option<Value> {
    match Get(content, name)
    case Some(list) => list.Field(id)
    case None => None
  }

  /** How many commits stand before the part of the history a list still depends on. */
  function Restart(history: seq<Content>, name: string): (r: nat)
    ensures r <= |history|
  {
    if history == [] then 0
    else match Get(history[|history| - 1], name)
      case Some(list) => if list.Object? then Restart(history[..|history| - 1], name) else |history|
      case None => Restart(history[..|history| - 1], name)
  }

  /** The restart is right after the last commit whose value for the name is not an object. */
  lemma {:induction false} RestartMeaning(history: seq<Content>, name: string)
    ensures var r := Restart(history, name);
      && (r > 0 ==> Get(history[r - 1], name).Some? && !Get(history[r - 1], name).value.Object?)
      && forall j :: r <= j < |history| && Get(history[j], name).Some? ==> Get(history[j], name).value.Object?
  {
    if history != [] {
      var init := history[..|history| - 1];
      RestartMeaning(init, name);
      var r := Restart(init, name);
      assert r > 0 ==> init[r - 1] == history[r - 1];
      assert forall j :: 0 <= j < |init| ==> init[j] == history[j];
    }
  }

  /** Commit `i` carries the newest element for an id; the later commit wins a tie. */
  ghost predicate Wins(history: seq<Content>, name: string, id: string, i: nat) {
    && Restart(history, name) <= i < |history|
    && Element(history[i], name, id).Some?
    && forall j :: Restart(history, name) <= j < |history| && Element(history[j], name, id).Some? ==>
         Outlasts(Element(history[i], name, id).value, i, Element(history[j], name, id).value, j)
  }

  /** The order on (`updateTime`, commit index). */
  predicate Outlasts(a: Value, i: int, b: Value, j: int) {
    Newer(a, b) || (UpdateTime(a) == UpdateTime(b) && j <= i)
  }

  /** What one more commit does to a list. */
  lemma ListStep(init: seq<Content>, last: Content, name: string)
    ensures Get(FoldContents(init + [last]), name)
         == Combined(MergeLists, Get(FoldContents(init), name), Get(last, name))
  {
    assert (init + [last])[..|init|] == init;
    MergeGet(MergeLists, FoldContents(init), last, name);
  }

  /** What one more commit does to an element. */
  lemma ElementStep(init: seq<Content>, last: Content, name: string, id: string)
    ensures Element(FoldContents(init + [last]), name, id) ==
      match Get(last, name)
      case None => Element(FoldContents(init), name, id)
      case Some(list) =>
        if list.Object? then Combined(Choose, Element(FoldContents(init), name, id), Get(list.fields, id)) else None
  {
    ListStep(init, last, name);
    var a, b := Get(FoldContents(init), name), Get(last, name);
    if a.Some? && b.Some? && a.value.Object? && b.value.Object? {
      MergeGet(Choose, a.value.fields, b.value.fields, id);
    }
  }

  lemma OutlastsTransitive(a: Value, i: int, b: Value, j: int, c: Value, k: int)
    requires Outlasts(a, i, b, j) && Outlasts(b, j, c, k)
    ensures Outlasts(a, i, c, k)
  {
    if Newer(a, b) && Newer(b, c) {
      Text.LessTransitive(UpdateTime(c), UpdateTime(b), UpdateTime(a));
    }
  }

  /** Appending a commit that says nothing about an id, or loses, leaves the winner alone. */
  lemma WinnerStays(init: seq<Content>, last: Content, name: string, id: string, w: nat)
    requires Wins(init, name, id, w)
    requires Get(last, name).Some? ==> Get(last, name).value.Object?
    requires Element(last, name, id).Some? ==> Newer(Element(init[w], name, id).value, Element(last, name, id).value)
    ensures Wins(init + [last], name, id, w)
  {
    var history := init + [last];
    assert history[..|init|] == init;
    assert Restart(history, name) == Restart(init, name);
    forall j | Restart(history, name) <= j < |history| && Element(history[j], name, id).Some?
      ensures Outlasts(Element(history[w], name, id).value, w, Element(history[j], name, id).value, j)
    {
      if j < |init| { assert history[j] == init[j]; }
    }
  }

  /** Appending a commit whose element is not older makes that commit the winner. */
  lemma WinnerMoves(init: seq<Content>, last: Content, name: string, id: string, w: int)
    requires Element(last, name, id).Some?
    requires w < 0 ==> forall j :: Restart(init, name) <= j < |init| ==> Element(init[j], name, id) == None
    requires w >= 0 ==> Wins(init, name, id, w)
    requires w >= 0 ==> !Newer(Element(init[w], name, id).value, Element(last, name, id).value)
    ensures Wins(init + [last], name, id, |init|)
  {
    var history, mine := init + [last], Element(last, name, id).value;
    assert history[..|init|] == init;
    forall j | Restart(history, name) <= j < |history| && Element(history[j], name, id).Some?
      ensures Outlasts(mine, |init|, Element(history[j], name, id).value, j)
    {
      if j < |init| {
        assert history[j] == init[j];
        var other := Element(init[w], name, id).value;
        Text.LessTotal(UpdateTime(other), UpdateTime(mine));
        OutlastsTransitive(mine, |init|, other, w, Element(init[j], name, id).value, j);
      }
    }
  }

  /** The commit whose element an id folds to, or -1 when the id is not in the fold. */
  lemma {:induction false} FindWinner(history: seq<Content>, name: string, id: string) returns (w: int)
    ensures w < 0 ==> Element(FoldContents(history), name, id) == None
    ensures w < 0 ==> forall j :: Restart(history, name) <= j < |history| ==> Element(history[j], name, id) == None
    ensures w >= 0 ==> Wins(history, name, id, w)
    ensures w >= 0 ==> Element(FoldContents(history), name, id) == Element(history[w], name, id)
  {
    if history == [] {
      return -1;
    }
    var n := |history| - 1;
    var init, last := history[..n], history[n];
    assert history == init + [last];
    assert forall j :: 0 <= j < n ==> init[j] == history[j];
    var v := FindWinner(init, name, id);
    ElementStep(init, last, name, id);
    if Get(last, name).Some? && !Get(last, name).value.Object? {
      return -1;
    }
    if Element(last, name, id) == None {
      if v >= 0 { WinnerStays(init, last, name, id, v); }
      return v;
    }
    if v >= 0 && Newer(Element(init[v], name, id).value, Element(last, name, id).value) {
      WinnerStays(init, last, name, id, v);
      return v;
    }
    WinnerMoves(init, last, name, id, v);
    return n;
  }

  /** A list folds to an object or to what the last commit naming it gave. */
  lemma {:induction false} FoldedIsObject(history: seq<Content>, name: string)
    ensures var vs, r := Written(history, name), Get(FoldContents(history), name);
      && (r.Some? <==> vs != [])
      && (r.Some? ==> r.value.Object? == vs[|vs| - 1].Object?)
      && (r.Some? && !r.value.Object? ==> r.value == vs[|vs| - 1])
      && (r == None || !r.value.Object? ==> LiveLists(history, name) == [])
  {
    assert Get(FoldContents([]), name) == None by { NothingFolded(name); }
    hide FoldContents, OrderedMap.Merge, Get;
    if history != [] {
      var n := |history| - 1;
      assert history == history[..n] + [history[n]];
      FoldedIsObject(history[..n], name);
      ListStep(history[..n], history[n], name);
    }
  }

  lemma NothingFolded(name: string)
    ensures Get(FoldContents([]), name) == None
  {
  }

  /** The element an id folds to is the one with the greatest (`updateTime`, commit index). */
  lemma FoldElement(history: seq<Content>, name: string, id: string, e: Value)
    ensures Element(FoldContents(history), name, id) == Some(e)
      <==> exists i: nat :: Wins(history, name, id, i) && Element(history[i], name, id) == Some(e)
  {
    var w := FindWinner(history, name, id);
    forall i: nat | Wins(history, name, id, i) ensures w >= 0 && i == w {
      assert w >= 0;
      Text.LessTotal(UpdateTime(Element(history[i], name, id).value), UpdateTime(Element(history[w], name, id).value));
    }
  }

  /**
   * It is the field `updateTime`, as text, that decides: an element that has one is only ever passed over for
   * one whose own is later, or is the same in a commit not before. Nothing else about either plays a part.
   */
  lemma FoldByUpdateTime(history: seq<Content>, name: string, id: string, e: Value, j: nat, t: string)
    requires Element(FoldContents(history), name, id) == Some(e)
    requires Restart(history, name) <= j < |history| && Element(history[j], name, id).Some?
    requires Element(history[j], name, id).value.Field("updateTime") == Some(Str(t)) && t != ""
    ensures exists s, i: nat ::
      && e.Field("updateTime") == Some(Str(s))
      && i < |history| && Element(history[i], name, id) == Some(e)
      && (Text.Less(t, s) || (t == s && j <= i))
  {
    var x := Element(history[j], name, id).value;
    FoldElement(history, name, id, e);
    var i: nat :| Wins(history, name, id, i) && Element(history[i], name, id) == Some(e);
    assert Outlasts(e, i, x, j);
    StampText(x, t);
    var s := UpdateTime(e);
    assert s != "";
    StampText(e, s);
    assert Text.Less(t, s) || (t == s && j <= i);
  }

  lemma StampText(x: Value, t: string)
    requires t != ""
    ensures UpdateTime(x) == t <==> x.Field("updateTime") == Some(Str(t))
  {
  }

  /** Among elements none of which has such a text, the last commit's is the one. */
  lemma FoldUnstamped(history: seq<Content>, name: string, id: string, e: Value, j: nat)
    requires Element(FoldContents(history), name, id) == Some(e)
    requires Restart(history, name) <= j < |history| && Element(history[j], name, id).Some?
    requires forall i :: Restart(history, name) <= i < |history| && Element(history[i], name, id).Some? ==>
      var stamp := Element(history[i], name, id).value.Field("updateTime");
      stamp.Some? && stamp.value.Str? ==> stamp.value.text == ""
    ensures exists i: nat :: j <= i < |history| && Element(history[i], name, id) == Some(e)
  {
    FoldElement(history, name, id, e);
    var i: nat :| Wins(history, name, id, i) && Element(history[i], name, id) == Some(e);
    var x := Element(history[j], name, id).value;
    assert Outlasts(e, i, x, j);
    if UpdateTime(e) != "" { StampText(e, UpdateTime(e)); }
    if UpdateTime(x) != "" { StampText(x, UpdateTime(x)); }
  }

  /** The objects a list was given since its restart. */
  function LiveLists(history: seq<Content>, name: string): seq<Content> {
    if history == [] then []
    else
      var earlier := LiveLists(history[..|history| - 1], name);
      match Get(history[|history| - 1], name)
      case Some(list) => if list.Object? then earlier + [list.fields] else []
      case None => earlier
  }

  /** A list that folds to an object is the fold of the objects since the restart, and nothing else. */
  lemma {:induction false} FoldList(history: seq<Content>, name: string)
    ensures var r := Get(FoldContents(history), name);
      r.Some? && r.value.Object? ==> r.value.fields == Fold(Choose, LiveLists(history, name))
  {
    if history != [] {
      var n := |history| - 1;
      var init, last := history[..n], history[n];
      assert history == init + [last];
      FoldList(init, name);
      FoldedIsObject(init, name);
      ListStep(init, last, name);
      var list := Get(last, name);
      if list.Some? && list.value.Object? {
        assert LiveLists(history, name)[..|LiveLists(init, name)|] == LiveLists(init, name);
        MergeEmpty(Choose, list.value.fields);
      }
    }
  }

  /** What a list name holds after the fold, and in which order. */
  ghost predicate ListMeaning(history: seq<Content>, name: string, folded: Option<Value>) {
    var vs := Written(history, name);
    if vs == [] then folded == None
    else if !vs[|vs| - 1].Object? then folded == Some(vs[|vs| - 1])
    else
      && folded.Some? && folded.value.Object?
      && Keys(folded.value.fields) == FirstAppearances(LiveLists(history, name))
  }

  /**
   * No name and no id is lost. Names stand in order of first appearance. A name last given something
   * that is no object holds just that; any other holds the ids written since its restart, in order of
   * first appearance.
   */
  lemma FoldShape(history: seq<Content>, name: string)
    ensures Keys(FoldContents(history)) == FirstAppearances(history)
    ensures ListMeaning(history, name, Get(FoldContents(history), name))
  {
    FoldKeys(MergeLists, history);
    FoldedIsObject(history, name);
    FoldList(history, name);
    FoldKeys(Choose, LiveLists(history, name));
  }
}
