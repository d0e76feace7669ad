/** Maps that remember insertion order: `serde_json::Map` built with `preserve_order`. */
module OrderedMap {

  import opened Wrappers

  datatype Entry<+V> = Entry(key: string, value: V)

  predicate Distinct<V>(entries: seq<Entry<V>>) {
    forall i, j :: 0 <= i < j < |entries| ==> entries[i].key != entries[j].key
  }

  type OMap<+V> = entries: seq<Entry<V>> | Distinct(entries) witness []

  /** Where a key stands; the length when it does not. */
  function Find<V>(m: seq<Entry<V>>, key: string): (i: nat)
    ensures i <= |m|
    ensures i < |m| ==> m[i].key == key
    ensures forall j :: 0 <= j < i ==> m[j].key != key
  {
    if m == [] then 0 else if m[0].key == key then 0 else 1 + Find(m[1..], key)
  }

  function Get<V>(m: OMap<V>, key: string): Option<V> {
    var i := Find(m, key);
    if i < |m| then Some(m[i].value) else None
  }

  /** Inserting an existing key keeps its place; a new key goes to the end. */
  function Put<V>(m: OMap<V>, key: string, value: V): (r: OMap<V>)
    ensures Get(r, key) == Some(value)
    ensures forall other :: other != key ==> Get(r, other) == Get(m, other)
    ensures Keys(r) == if key in Keys(m) then Keys(m) else Keys(m) + [key]
  {
    var i := Find(m, key);
    var r := if i < |m| then m[i := Entry(key, value)] else m + [Entry(key, value)];
    assert Distinct(r);
    GetAt(r, i);
    assert forall other :: other != key ==> Get(r, other) == Get(m, other) by {
      forall other | other != key ensures Get(r, other) == Get(m, other) {
        GetOther(m, r, i, other);
      }
    }
    KeyAt(m, key);
    r
  }

  /** Maps that agree but for one place hold the same under any key that does not stand there. */
  lemma GetOther<V>(m: OMap<V>, r: OMap<V>, i: nat, other: string)
    requires i < |r| && |m| <= |r| <= |m| + 1 && (|r| == |m| || i == |m|)
    requires forall j :: 0 <= j < |m| && j != i ==> r[j] == m[j]
    requires r[i].key != other && (i < |m| ==> m[i].key != other)
    ensures Get(r, other) == Get(m, other)
  {
    var j := Find(m, other);
    if j < |m| {
      assert r[j] == m[j];
      GetAt(r, j);
    } else {
      var k := Find(r, other);
      assert k < |r| ==> m[k].key == other;
    }
  }

  function Keys<V>(m: seq<Entry<V>>): (ks: seq<string>)
    ensures |ks| == |m|
    ensures forall i :: 0 <= i < |m| ==> ks[i] == m[i].key
  {
    seq(|m|, i requires 0 <= i < |m| => m[i].key)
  }

  lemma GetAt<V>(m: OMap<V>, i: nat)
    requires i < |m|
    ensures Get(m, m[i].key) == Some(m[i].value)
  {
  }

  lemma KeyAt<V>(m: OMap<V>, key: string)
    ensures key in Keys(m) <==> Get(m, key).Some?
    ensures key in Keys(m) <==> Find(m, key) < |m|
  {
    var i := Find(m, key);
    if i < |m| {
      assert Keys(m)[i] == key;
    }
  }

  /** The keys in order and the value under each key are all there is to a map. */
  lemma Same<V>(a: OMap<V>, b: OMap<V>)
    requires Keys(a) == Keys(b)
    requires forall key :: Get(a, key) == Get(b, key)
    ensures a == b
  {
    forall i | 0 <= i < |a| ensures a[i] == b[i] {
      GetAt(a, i);
      GetAt(b, i);
      assert a[i].key == Keys(a)[i] == Keys(b)[i] == b[i].key;
    }
  }

  lemma PutPresent<V>(m: OMap<V>, key: string, value: V)
    requires Get(m, key) == Some(value)
    ensures Put(m, key, value) == m
  {
    KeyAt(m, key);
    Same(Put(m, key, value), m);
  }

  // ---- merging one map into another

  /** What a key holds after a merge. */
  function Combined<V>(f: (V, V) -> V, old_: Option<V>, new_: Option<V>): Option<V> {
    match (old_, new_)
    case (Some(a), Some(b)) => Some(f(a, b))
    case (None, _) => new_
    case (_, None) => old_
  }

  /** Merge `next` into `acc`, key by key in `next`'s order. */
  function Merge<V>(f: (V, V) -> V, acc: OMap<V>, next: OMap<V>): OMap<V> {
    if next == [] then acc
    else MergeOne(f, Merge(f, acc, next[..|next| - 1]), next[|next| - 1])
  }

  function MergeOne<V>(f: (V, V) -> V, acc: OMap<V>, e: Entry<V>): OMap<V> {
    match Get(acc, e.key)
    case Some(current) => Put(acc, e.key, f(current, e.value))
    case None => Put(acc, e.key, e.value)
  }

  lemma MergeNext<V>(f: (V, V) -> V, acc: OMap<V>, next: OMap<V>, i: nat)
    requires i < |next|
    ensures Merge(f, acc, next[..i + 1]) == MergeOne(f, Merge(f, acc, next[..i]), next[i])
  {
    assert next[..i + 1][..i] == next[..i];
  }

  /** The names of `ks` that `seen` does not have, in their order. */
  function Unseen(ks: seq<string>, seen: seq<string>): seq<string> {
    if ks == [] then []
    else Unseen(ks[..|ks| - 1], seen) + if ks[|ks| - 1] in seen then [] else [ks[|ks| - 1]]
  }

  lemma {:induction false} GetInit<V>(m: OMap<V>, key: string)
    requires m != []
    ensures Get(m[..|m| - 1], key) == if key == m[|m| - 1].key then None else Get(m, key)
  {
    var init := m[..|m| - 1];
    var i := Find(init, key);
    if i < |init| {
      GetAt(init, i);
      GetAt(m, i);
    } else if key == m[|m| - 1].key {
      KeyAt(init, key);
    } else {
      KeyAt(m, key);
      KeyAt(init, key);
    }
  }

  /** A merge keeps every key of both sides, and combines where both have one. */
  lemma {:induction false} MergeGet<V>(f: (V, V) -> V, acc: OMap<V>, next: OMap<V>, key: string)
    ensures Get(Merge(f, acc, next), key) == Combined(f, Get(acc, key), Get(next, key))
  {
    if next != [] {
      var init, e := next[..|next| - 1], next[|next| - 1];
      MergeGet(f, acc, init, key);
      GetInit(next, key);
      GetAt(next, |next| - 1);
    }
  }

  /** The accumulator's keys keep their places; what is new follows in `next`'s order. */
  lemma {:induction false} MergeKeys<V>(f: (V, V) -> V, acc: OMap<V>, next: OMap<V>)
    ensures Keys(Merge(f, acc, next)) == Keys(acc) + Unseen(Keys(next), Keys(acc))
  {
    hide Get, Find;
    if next == [] {
      assert Keys(next) == [];
    } else {
      var init, e := next[..|next| - 1], next[|next| - 1];
      MergeKeys(f, acc, init);
      MergeGet(f, acc, init, e.key);
      GetInit(next, e.key);
      assert Keys(next)[..|next| - 1] == Keys(init);
      KeyAt(Merge(f, acc, init), e.key);
      KeyAt(acc, e.key);
    }
  }

  lemma {:induction false} UnseenOfNothing(ks: seq<string>)
    ensures Unseen(ks, []) == ks
  {
    if ks != [] {
      UnseenOfNothing(ks[..|ks| - 1]);
    }
  }

  lemma {:induction false} UnseenMember(ks: seq<string>, seen: seq<string>, key: string)
    ensures key in Unseen(ks, seen) <==> key in ks && key !in seen
  {
    if ks != [] {
      UnseenMember(ks[..|ks| - 1], seen, key);
      assert ks == ks[..|ks| - 1] + [ks[|ks| - 1]];
    }
  }

  lemma {:induction false} UnseenAll(ks: seq<string>, seen: seq<string>)
    requires forall key :: key in ks ==> key in seen
    ensures Unseen(ks, seen) == []
  {
    if ks != [] {
      UnseenAll(ks[..|ks| - 1], seen);
    }
  }

  lemma {:induction false} UnseenConcat(a: seq<string>, b: seq<string>, seen: seq<string>)
    ensures Unseen(a + b, seen) == Unseen(a, seen) + Unseen(b, seen)
  {
    if b == [] {
      assert a + b == a;
    } else {
      assert (a + b)[..|a + b| - 1] == a + b[..|b| - 1];
      UnseenConcat(a, b[..|b| - 1], seen);
    }
  }

  /** Skipping what `a` has, then what `b` has, is skipping what either has. */
  lemma {:induction false} UnseenTwice(ks: seq<string>, a: seq<string>, b: seq<string>)
    ensures Unseen(Unseen(ks, b), a) == Unseen(ks, a + Unseen(b, a))
  {
    if ks != [] {
      var init, last := ks[..|ks| - 1], ks[|ks| - 1];
      UnseenTwice(init, a, b);
      UnseenMember(b, a, last);
      assert last in a + Unseen(b, a) <==> last in a || last in b;
      if last in b {
        assert Unseen(ks, b) == Unseen(init, b);
      } else {
        assert (Unseen(init, b) + [last])[..|Unseen(init, b)|] == Unseen(init, b);
      }
    }
  }

  lemma MergeEmpty<V>(f: (V, V) -> V, next: OMap<V>)
    ensures Merge(f, [], next) == next
  {
    MergeKeys(f, [], next);
    assert Keys<V>([]) == [];
    UnseenOfNothing(Keys(next));
    forall key ensures Get(Merge(f, [], next), key) == Get(next, key) {
      MergeGet(f, [], next, key);
    }
    Same(Merge(f, [], next), next);
  }

  /** Whether `f` associates on what three maps hold under one key. */
  predicate AssociatesAt<V(==)>(f: (V, V) -> V, a: OMap<V>, b: OMap<V>, c: OMap<V>, key: string) {
    match (Get(a, key), Get(b, key), Get(c, key))
    case (Some(x), Some(y), Some(z)) => f(f(x, y), z) == f(x, f(y, z))
    case _ => true
  }

  lemma MergeAssociates<V>(f: (V, V) -> V, a: OMap<V>, b: OMap<V>, c: OMap<V>)
    requires forall key :: AssociatesAt(f, a, b, c, key)
    ensures Merge(f, Merge(f, a, b), c) == Merge(f, a, Merge(f, b, c))
  {
    MergeKeysAssociate(f, a, b, c);
    forall key ensures Get(Merge(f, Merge(f, a, b), c), key) == Get(Merge(f, a, Merge(f, b, c)), key) {
      MergeGetAssociates(f, a, b, c, key);
    }
    Same(Merge(f, Merge(f, a, b), c), Merge(f, a, Merge(f, b, c)));
  }

  lemma MergeKeysAssociate<V>(f: (V, V) -> V, a: OMap<V>, b: OMap<V>, c: OMap<V>)
    ensures Keys(Merge(f, Merge(f, a, b), c)) == Keys(Merge(f, a, Merge(f, b, c)))
  {
    KeysOfThree(f, a, b, c, Merge(f, a, b), Merge(f, b, c));
    UnseenAssociates(Keys(a), Keys(b), Keys(c));
  }

  lemma KeysOfThree<V>(f: (V, V) -> V, a: OMap<V>, b: OMap<V>, c: OMap<V>, ab: OMap<V>, bc: OMap<V>)
    requires ab == Merge(f, a, b) && bc == Merge(f, b, c)
    ensures Keys(Merge(f, ab, c))
         == Keys(a) + Unseen(Keys(b), Keys(a)) + Unseen(Keys(c), Keys(a) + Unseen(Keys(b), Keys(a)))
    ensures Keys(Merge(f, a, bc)) == Keys(a) + Unseen(Keys(b) + Unseen(Keys(c), Keys(b)), Keys(a))
  {
    MergeKeys(f, ab, c);
    MergeKeys(f, a, b);
    MergeKeys(f, a, bc);
    MergeKeys(f, b, c);
  }

  lemma UnseenAssociates(a: seq<string>, b: seq<string>, c: seq<string>)
    ensures a + Unseen(b, a) + Unseen(c, a + Unseen(b, a)) == a + Unseen(b + Unseen(c, b), a)
  {
    UnseenConcat(b, Unseen(c, b), a);
    UnseenTwice(c, a, b);
  }

  lemma MergeGetAssociates<V>(f: (V, V) -> V, a: OMap<V>, b: OMap<V>, c: OMap<V>, key: string)
    requires AssociatesAt(f, a, b, c, key)
    ensures Get(Merge(f, Merge(f, a, b), c), key) == Get(Merge(f, a, Merge(f, b, c)), key)
  {
    MergeGet(f, Merge(f, a, b), c, key);
    MergeGet(f, a, b, key);
    MergeGet(f, a, Merge(f, b, c), key);
    MergeGet(f, b, c, key);
  }

  /** Whether combining what a key holds with itself changes nothing. */
  predicate IdempotentAt<V(==)>(f: (V, V) -> V, m: OMap<V>, key: string) {
    match Get(m, key)
    case Some(v) => f(v, v) == v
    case None => true
  }

  /** Writing one key and merging the whole map back changes that key alone. */
  lemma MergePut<V>(f: (V, V) -> V, m: OMap<V>, key: string, value: V)
    requires forall k :: IdempotentAt(f, m, k)
    ensures Merge(f, m, Put(m, key, value)) == MergeOne(f, m, Entry(key, value))
  {
    var left, right := Merge(f, m, Put(m, key, value)), MergeOne(f, m, Entry(key, value));
    MergePutKeys(f, m, key, value);
    forall k ensures Get(left, k) == Get(right, k) {
      MergeGet(f, m, Put(m, key, value), k);
      assert IdempotentAt(f, m, k);
    }
    Same(left, right);
  }

  lemma MergePutKeys<V>(f: (V, V) -> V, m: OMap<V>, key: string, value: V)
    ensures Keys(Merge(f, m, Put(m, key, value))) == Keys(MergeOne(f, m, Entry(key, value)))
  {
    var ks := Keys(m);
    MergeKeys(f, m, Put(m, key, value));
    KeyAt(m, key);
    UnseenAll(ks, ks);
    if key in ks {
      assert ks + Unseen(ks, ks) == ks;
    } else {
      assert (ks + [key])[..|ks|] == ks;
      assert Unseen(ks + [key], ks) == [key];
    }
  }

  // ---- folding a history of maps

  /** Every map folded into one, oldest first. */
  function Fold<V>(f: (V, V) -> V, history: seq<OMap<V>>): OMap<V> {
    if history == [] then [] else Merge(f, Fold(f, history[..|history| - 1]), history[|history| - 1])
  }

  lemma FoldAppend<V>(f: (V, V) -> V, history: seq<OMap<V>>, last: OMap<V>)
    ensures Fold(f, history + [last]) == Merge(f, Fold(f, history), last)
  {
    assert (history + [last])[..|history|] == history;
  }

  /** What a key was given over a history, oldest first. */
  function Written<V>(history: seq<OMap<V>>, key: string): seq<V> {
    if history == [] then []
    else
      var earlier := Written(history[..|history| - 1], key);
      match Get(history[|history| - 1], key)
      case Some(v) => earlier + [v]
      case None => earlier
  }

  function Reduce<V>(f: (V, V) -> V, vs: seq<V>): V
    requires vs != []
  {
    if |vs| == 1 then vs[0] else f(Reduce(f, vs[..|vs| - 1]), vs[|vs| - 1])
  }

  /** The names of a history in the order each first appears. */
  function FirstAppearances<V>(history: seq<OMap<V>>): seq<string> {
    if history == [] then []
    else
      var earlier := FirstAppearances(history[..|history| - 1]);
      earlier + Unseen(Keys(history[|history| - 1]), earlier)
  }

  /** A key of the fold holds what was written to it, reduced; a key never written is not there. */
  lemma {:induction false} FoldGet<V>(f: (V, V) -> V, history: seq<OMap<V>>, key: string)
    ensures var vs := Written(history, key);
      Get(Fold(f, history), key) == if vs == [] then None else Some(Reduce(f, vs))
  {
    if history != [] {
      var init, last := history[..|history| - 1], history[|history| - 1];
      FoldGet(f, init, key);
      MergeGet(f, Fold(f, init), last, key);
      if Get(last, key).Some? {
        var vs := Written(history, key);
        assert vs[..|vs| - 1] == Written(init, key);
      }
    }
  }

  lemma {:induction false} FoldKeys<V>(f: (V, V) -> V, history: seq<OMap<V>>)
    ensures Keys(Fold(f, history)) == FirstAppearances(history)
  {
    if history != [] {
      FoldKeys(f, history[..|history| - 1]);
      MergeKeys(f, Fold(f, history[..|history| - 1]), history[|history| - 1]);
    }
  }

  lemma {:induction false} WrittenConcat<V>(a: seq<OMap<V>>, b: seq<OMap<V>>, key: string)
    ensures Written(a + b, key) == Written(a, key) + Written(b, key)
  {
    if b == [] {
      assert a + b == a;
    } else {
      assert (a + b)[..|a + b| - 1] == a + b[..|b| - 1];
      WrittenConcat(a, b[..|b| - 1], key);
    }
  }

  /** Something was written to a key exactly when some map of the history holds it. */
  lemma {:induction false} WrittenMember<V>(history: seq<OMap<V>>, key: string, v: V)
    ensures v in Written(history, key) <==> exists i :: 0 <= i < |history| && Get(history[i], key) == Some(v)
  {
    hide Get;
    if history != [] {
      var init, last := history[..|history| - 1], history[|history| - 1];
      WrittenMember(init, key, v);
      if i :| 0 <= i < |history| && Get(history[i], key) == Some(v) {
        if i < |init| { assert init[i] == history[i]; }
      }
      if v in Written(init, key) {
        var i :| 0 <= i < |init| && Get(init[i], key) == Some(v);
        assert history[i] == init[i];
      }
    }
  }

  // ---- the order of a fold's keys

  /** One key stands somewhere in the history with another not standing anywhere before it. */
  ghost predicate AppearsBefore<V>(history: seq<OMap<V>>, x: string, y: string) {
    exists m, p :: AppearsAt(history, x, y, m, p)
  }

  predicate AppearsAt<V>(history: seq<OMap<V>>, x: string, y: string, m: nat, p: nat) {
    && m < |history| && p < |history[m]|
    && Keys(history[m])[p] == x && y !in Keys(history[m])[..p]
    && forall k :: 0 <= k < m ==> y !in Keys(history[k])
  }

  lemma {:induction false} UnseenPair(ks: seq<string>, seen: seq<string>, i: nat, j: nat) returns (p: nat, q: nat)
    requires i < j < |Unseen(ks, seen)|
    ensures p < q < |ks| && ks[p] == Unseen(ks, seen)[i] && ks[q] == Unseen(ks, seen)[j]
  {
    var init, n := Unseen(ks[..|ks| - 1], seen), |ks| - 1;
    if j < |init| {
      p, q := UnseenPair(ks[..n], seen, i, j);
    } else {
      UnseenMember(ks[..n], seen, init[i]);
      p :| 0 <= p < n && ks[..n][p] == init[i];
      q := n;
    }
  }

  lemma {:induction false} FirstAppearancesMember<V>(history: seq<OMap<V>>, key: string)
    ensures key in FirstAppearances(history) <==> exists m :: 0 <= m < |history| && key in Keys(history[m])
  {
    hide Unseen, Get;
    if history != [] {
      var n := |history| - 1;
      FirstAppearancesMember(history[..n], key);
      UnseenMember(Keys(history[n]), FirstAppearances(history[..n]), key);
      if m :| 0 <= m < |history| && key in Keys(history[m]) {
        if m < n { assert history[..n][m] == history[m]; }
      }
      if key in FirstAppearances(history[..n]) {
        var m :| 0 <= m < n && key in Keys(history[..n][m]);
        assert history[m] == history[..n][m];
      }
    }
  }

  lemma {:induction false} FirstAppearancesInOrder<V>(history: seq<OMap<V>>, i: nat, j: nat)
    requires i < j < |FirstAppearances(history)|
    ensures AppearsBefore(history, FirstAppearances(history)[i], FirstAppearances(history)[j])
  {
    hide Unseen, Get;
    var n := |history| - 1;
    var init, ks, last := history[..n], FirstAppearances(history), Keys(history[n]);
    var earlier := FirstAppearances(init);
    var x, y := ks[i], ks[j];
    if j < |earlier| {
      FirstAppearancesInOrder(init, i, j);
      var m, p :| AppearsAt(init, x, y, m, p);
      assert AppearsAt(history, x, y, m, p);
    } else {
      NotBefore(init, last, earlier, y);
      if i < |earlier| {
        FirstAppearancesMember(init, x);
        var m :| 0 <= m < |init| && x in Keys(init[m]);
        var p :| 0 <= p < |init[m]| && Keys(init[m])[p] == x;
        assert AppearsAt(history, x, y, m, p);
      } else {
        var p, q := UnseenPair(last, earlier, i - |earlier|, j - |earlier|);
        assert AppearsAt(history, x, y, n, p);
      }
    }
  }

  lemma NotBefore<V>(init: seq<OMap<V>>, last: seq<string>, earlier: seq<string>, y: string)
    requires earlier == FirstAppearances(init) && y in Unseen(last, earlier)
    ensures forall k :: 0 <= k < |init| ==> y !in Keys(init[k])
  {
    UnseenMember(last, earlier, y);
    FirstAppearancesMember(init, y);
  }

  /** Of two keys of a fold, the earlier one stands in the history with the later one nowhere before it. */
  lemma FoldKeysInOrder<V>(f: (V, V) -> V, history: seq<OMap<V>>, i: nat, j: nat)
    requires i < j < |Fold(f, history)|
    ensures AppearsBefore(history, Fold(f, history)[i].key, Fold(f, history)[j].key)
  {
    FoldKeys(f, history);
    assert Keys(Fold(f, history))[i] == Fold(f, history)[i].key && Keys(Fold(f, history))[j] == Fold(f, history)[j].key;
    FirstAppearancesInOrder(history, i, j);
  }
}
