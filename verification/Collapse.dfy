/** Keeping only the ends of each run of polls: `collapse`, tools/heyl-fixtures/src/record.rs:383-422. */
module Collapse {
  import opened Wrappers
  import opened Corpus

  predicate EndsWith(s: string, suffix: string) { |suffix| <= |s| && s[|s| - |suffix|..] == suffix }

  predicate Declared(methods: seq<string>, method_: string) {
    exists i :: 0 <= i < |methods| && EndsWith(method_, methods[i])
  }

  /** A call survives unless it is declared and both its neighbours are calls of its own method. */
  predicate Kept<Q, R>(calls: seq<Record<Q, R>>, methods: seq<string>, i: nat)
    requires i < |calls|
  {
    || !Declared(methods, calls[i].method_)
    || i == 0 || calls[i - 1].method_ != calls[i].method_
    || i == |calls| - 1 || calls[i + 1].method_ != calls[i].method_
  }

  /** The survivors among the first `n` calls, in their order. */
  function Survivors<Q, R>(calls: seq<Record<Q, R>>, methods: seq<string>, n: nat): seq<Record<Q, R>>
    requires n <= |calls|
  {
    if n == 0 then [] else Survivors(calls, methods, n - 1) + Survivor(calls, methods, n - 1)
  }

  function Survivor<Q, R>(calls: seq<Record<Q, R>>, methods: seq<string>, i: nat): seq<Record<Q, R>>
    requires i < |calls|
  {
    if Kept(calls, methods, i) then [calls[i]] else []
  }

  function Collapsed<Q, R>(calls: seq<Record<Q, R>>, methods: seq<string>): seq<Record<Q, R>> {
    Survivors(calls, methods, |calls|)
  }

  // ---- the loop

  /** Calls `start` to `end` are one declared run, with nothing of its method right before it. */
  predicate InRun<Q, R>(calls: seq<Record<Q, R>>, methods: seq<string>, start: nat, end: nat) {
    && start <= end <= |calls|
    && (forall i :: start <= i < end ==> calls[i].method_ == calls[start].method_)
    && (start < end ==> Declared(methods, calls[start].method_))
    && (0 < start < end ==> calls[start - 1].method_ != calls[start].method_)
  }

  predicate RunEnds<Q, R>(calls: seq<Record<Q, R>>, start: nat, end: nat)
    requires start <= end <= |calls|
  {
    start < end < |calls| ==> calls[end].method_ != calls[start].method_
  }

  function Ends<T>(run: seq<T>): seq<T> {
    if |run| <= 2 then run else [run[0], run[|run| - 1]]
  }

  lemma {:induction false} RunInside<Q, R>(calls: seq<Record<Q, R>>, methods: seq<string>, start: nat, end: nat, n: nat)
    requires InRun(calls, methods, start, end) && start < n < end
    ensures Survivors(calls, methods, n) == Survivors(calls, methods, start) + [calls[start]]
  {
    if n - 1 > start {
      RunInside(calls, methods, start, end, n - 1);
      assert calls[n].method_ == calls[n - 1].method_ == calls[n - 2].method_;
      assert Survivor(calls, methods, n - 1) == [];
    } else {
      assert Survivor(calls, methods, start) == [calls[start]];
    }
  }

  /** A whole run leaves its ends. */
  lemma RunLeavesEnds<Q, R>(calls: seq<Record<Q, R>>, methods: seq<string>, start: nat, end: nat)
    requires InRun(calls, methods, start, end) && RunEnds(calls, start, end)
    ensures Survivors(calls, methods, end) == Survivors(calls, methods, start) + Ends(calls[start..end])
  {
    var run, before := calls[start..end], Survivors(calls, methods, start);
    if start < end {
      EndsKept(calls, methods, start, end);
      if start + 1 < end {
        RunInside(calls, methods, start, end, end - 1);
        EndsOfMany(run);
        assert before + [calls[start]] + [calls[end - 1]] == before + [run[0], run[|run| - 1]];
      } else {
        assert run == [calls[start]];
      }
    }
  }

  lemma EndsKept<Q, R>(calls: seq<Record<Q, R>>, methods: seq<string>, start: nat, end: nat)
    requires InRun(calls, methods, start, end) && RunEnds(calls, start, end) && start < end
    ensures Kept(calls, methods, start) && Kept(calls, methods, end - 1)
  {
  }

  lemma EndsOfMany<T>(run: seq<T>)
    requires |run| >= 2
    ensures Ends(run) == [run[0], run[|run| - 1]]
  {
  }

  method Flush<T>(run: seq<T>, kept: seq<T>) returns (more: seq<T>)
    ensures more == kept + Ends(run)
  {
    if |run| <= 2 {
      more := kept + run;
    } else {
      more := kept + [run[0]];
      more := more + [run[|run| - 1]];
    }
  }

  /** Where the loop stands before call `i`: a run not yet flushed, and what earlier runs left. */
  predicate Standing<Q(==), R(==)>(calls: seq<Record<Q, R>>, methods: seq<string>, i: nat, start: nat,
                                   run: seq<Record<Q, R>>, kept: seq<Record<Q, R>>) {
    && InRun(calls, methods, start, i)
    && run == calls[start..i]
    && (start == i > 0 ==> !Declared(methods, calls[i - 1].method_))
    && kept == Survivors(calls, methods, start)
  }

  /** A call of another method than the run's ends it. */
  lemma RunFlushed<Q, R>(calls: seq<Record<Q, R>>, methods: seq<string>, i: nat, start: nat,
                         run: seq<Record<Q, R>>, kept: seq<Record<Q, R>>)
    requires i < |calls| && Standing(calls, methods, i, start, run, kept)
    requires run == [] || run[|run| - 1].method_ != calls[i].method_
    ensures kept + Ends(run) == Survivors(calls, methods, i)
    ensures Declared(methods, calls[i].method_) ==> InRun(calls, methods, i, i + 1)
  {
    RunLeavesEnds(calls, methods, start, i);
  }

  /** A call of the run's own method is one more of it. */
  lemma RunGrows<Q, R>(calls: seq<Record<Q, R>>, methods: seq<string>, i: nat, start: nat,
                       run: seq<Record<Q, R>>, kept: seq<Record<Q, R>>)
    requires i < |calls| && Standing(calls, methods, i, start, run, kept)
    requires run != [] && run[|run| - 1].method_ == calls[i].method_
    ensures Declared(methods, calls[i].method_) && InRun(calls, methods, start, i + 1)
    ensures run + [calls[i]] == calls[start..i + 1]
  {
  }

  /** One turn of the loop. */
  method Turn<Q(==), R(==)>(calls: seq<Record<Q, R>>, methods: seq<string>, i: nat, ghost start: nat,
                            run: seq<Record<Q, R>>, kept: seq<Record<Q, R>>)
    returns (run': seq<Record<Q, R>>, kept': seq<Record<Q, R>>, ghost start': nat)
    requires i < |calls| && Standing(calls, methods, i, start, run, kept)
    ensures Standing(calls, methods, i + 1, start', run', kept')
  {
    var call := calls[i];
    run', kept', start' := run, kept, start;
    if run == [] || run[|run| - 1].method_ != call.method_ {
      RunFlushed(calls, methods, i, start, run, kept);
      kept' := Flush(run, kept);
      run', start' := [], i;
    } else {
      RunGrows(calls, methods, i, start, run, kept);
    }
    hide Declared, Ends;
    if Declared(methods, call.method_) {
      run' := run' + [call];
    } else {
      kept' := Flush(run', kept');
      kept' := kept' + [call];
      run', start' := [], i + 1;
    }
  }

  method CollapseCalls<Q(==), R(==)>(calls: seq<Record<Q, R>>, methods: seq<string>)
    returns (out: seq<Record<Q, R>>, dropped: nat)
    ensures out == Collapsed(calls, methods)
    ensures dropped + |out| == |calls|
  {
    if methods == [] {
      NothingDeclared(calls, methods, |calls|);
      return calls, 0;
    }
    var kept: seq<Record<Q, R>>, run: seq<Record<Q, R>> := [], [];
    ghost var start := 0;
    for i := 0 to |calls|
      invariant Standing(calls, methods, i, start, run, kept)
    {
      run, kept, start := Turn(calls, methods, i, start, run, kept);
    }
    RunLeavesEnds(calls, methods, start, |calls|);
    out := Flush(run, kept);
    CollapsedShorter(calls, methods, |calls|);
    dropped := |calls| - |out|;
  }

  lemma {:induction false} CollapsedShorter<Q, R>(calls: seq<Record<Q, R>>, methods: seq<string>, n: nat)
    requires n <= |calls|
    ensures |Survivors(calls, methods, n)| <= n
  {
    if n > 0 { CollapsedShorter(calls, methods, n - 1); }
  }

  lemma {:induction false} NothingDeclared<Q, R>(calls: seq<Record<Q, R>>, methods: seq<string>, n: nat)
    requires methods == [] && n <= |calls|
    ensures Survivors(calls, methods, n) == calls[..n]
  {
    if n > 0 {
      NothingDeclared(calls, methods, n - 1);
    }
  }

  // ---- collapsing twice

  /** The places of the survivors among the first `n` calls, in order. */
  function Places<Q, R>(calls: seq<Record<Q, R>>, methods: seq<string>, n: nat): (ps: seq<nat>)
    requires n <= |calls|
    ensures forall i :: 0 <= i < n ==> (i in ps <==> Kept(calls, methods, i))
    ensures forall k :: 0 <= k < |ps| ==> ps[k] < n
    ensures forall j, k :: 0 <= j < k < |ps| ==> ps[j] < ps[k]
  {
    if n == 0 then [] else Places(calls, methods, n - 1) + if Kept(calls, methods, n - 1) then [n - 1] else []
  }

  /** The calls at some places. */
  predicate At<T(==)>(calls: seq<T>, out: seq<T>, ps: seq<nat>) {
    |out| == |ps| && forall k :: 0 <= k < |ps| ==> ps[k] < |calls| && out[k] == calls[ps[k]]
  }

  lemma OneMoreAt<T>(calls: seq<T>, out: seq<T>, ps: seq<nat>, n: nat)
    requires At(calls, out, ps) && n < |calls|
    ensures At(calls, out + [calls[n]], ps + [n])
  {
  }

  lemma {:induction false} SurvivorsAt<Q, R>(calls: seq<Record<Q, R>>, methods: seq<string>, n: nat)
    requires n <= |calls|
    ensures At(calls, Survivors(calls, methods, n), Places(calls, methods, n))
  {
    if n > 0 {
      SurvivorsAt(calls, methods, n - 1);
      OneMoreAt(calls, Survivors(calls, methods, n - 1), Places(calls, methods, n - 1), n - 1);
      hide At, Kept;
    }
  }

  /** Between two neighbouring survivors of one method lies nothing but that method. */
  lemma {:induction false} GapIsRun<Q, R>(calls: seq<Record<Q, R>>, methods: seq<string>, from: nat, upto: nat)
    requires from < upto < |calls|
    requires forall i :: from < i < upto ==> !Kept(calls, methods, i)
    requires calls[from].method_ == calls[upto].method_
    ensures forall i :: from <= i <= upto ==> calls[i].method_ == calls[from].method_
    decreases upto - from
  {
    if from + 1 < upto {
      assert !Kept(calls, methods, from + 1);
      GapIsRun(calls, methods, from + 1, upto);
    }
  }

  lemma GapIsDropped<Q, R>(calls: seq<Record<Q, R>>, methods: seq<string>, k: nat)
    requires var ps := Places(calls, methods, |calls|); k + 1 < |ps|
    ensures var ps := Places(calls, methods, |calls|);
      forall i :: ps[k] < i < ps[k + 1] ==> !Kept(calls, methods, i)
  {
    var ps := Places(calls, methods, |calls|);
    assert forall j :: 0 <= j < |ps| ==> ps[j] <= ps[k] || ps[k + 1] <= ps[j];
  }

  /** A survivor between two survivors of its own method is not a declared call. */
  lemma NeighboursDiffer<Q, R>(calls: seq<Record<Q, R>>, methods: seq<string>, k: nat)
    requires var out := Collapsed(calls, methods);
      0 < k < |out| - 1 && out[k - 1].method_ == out[k].method_ == out[k + 1].method_
    ensures !Declared(methods, Collapsed(calls, methods)[k].method_)
  {
    var ps := Places(calls, methods, |calls|);
    SurvivorsAt(calls, methods, |calls|);
    GapIsDropped(calls, methods, k - 1);
    GapIsDropped(calls, methods, k);
    GapIsRun(calls, methods, ps[k - 1], ps[k]);
    GapIsRun(calls, methods, ps[k], ps[k + 1]);
    assert ps[k] in ps;
    assert Kept(calls, methods, ps[k]);
  }

  lemma SurvivorStays<Q, R>(calls: seq<Record<Q, R>>, methods: seq<string>, k: nat)
    requires k < |Collapsed(calls, methods)|
    ensures Kept(Collapsed(calls, methods), methods, k)
  {
    var out := Collapsed(calls, methods);
    if 0 < k < |out| - 1 && out[k - 1].method_ == out[k].method_ == out[k + 1].method_ {
      NeighboursDiffer(calls, methods, k);
    }
  }

  lemma {:induction false} AllKept<Q, R>(calls: seq<Record<Q, R>>, methods: seq<string>, n: nat)
    requires n <= |calls| && forall i :: 0 <= i < |calls| ==> Kept(calls, methods, i)
    ensures Survivors(calls, methods, n) == calls[..n]
  {
    if n > 0 {
      AllKept(calls, methods, n - 1);
    }
  }

  /** Collapsing what is collapsed changes nothing. */
  lemma CollapseTwice<Q, R>(calls: seq<Record<Q, R>>, methods: seq<string>)
    ensures Collapsed(Collapsed(calls, methods), methods) == Collapsed(calls, methods)
  {
    var out := Collapsed(calls, methods);
    forall k | 0 <= k < |out| ensures Kept(out, methods, k) {
      SurvivorStays(calls, methods, k);
    }
    AllKept(out, methods, |out|);
    assert out[..|out|] == out;
  }

  // ---- which calls survive

  lemma EndsWithMeaning(s: string, suffix: string)
    ensures EndsWith(s, suffix) <==> exists front :: s == front + suffix
  {
    if EndsWith(s, suffix) { assert s == s[..|s| - |suffix|] + suffix; }
  }

  lemma DeclaredMeaning(methods: seq<string>, method_: string)
    ensures Declared(methods, method_) <==> exists m, front :: m in methods && method_ == front + m
  {
    if Declared(methods, method_) {
      var i :| 0 <= i < |methods| && EndsWith(method_, methods[i]);
      EndsWithMeaning(method_, methods[i]);
      assert methods[i] in methods;
    }
    if m, front :| m in methods && method_ == front + m {
      var i :| 0 <= i < |methods| && methods[i] == m;
      EndsWithMeaning(method_, methods[i]);
      assert Declared(methods, method_);
    }
  }

  /**
   * The survivors are the calls at an increasing list of places: a place is missing exactly when its method ends
   * in a declared one and both neighbours are calls of that very method.
   */
  lemma CollapseMeaning<Q, R>(calls: seq<Record<Q, R>>, methods: seq<string>) returns (places: seq<nat>)
    ensures |places| == |Collapsed(calls, methods)|
    ensures forall k :: 0 <= k < |places| ==> places[k] < |calls| && Collapsed(calls, methods)[k] == calls[places[k]]
    ensures forall j, k :: 0 <= j < k < |places| ==> places[j] < places[k]
    ensures forall i :: 0 <= i < |calls| ==>
      (i !in places <==>
         && (exists m, front :: m in methods && calls[i].method_ == front + m)
         && 0 < i < |calls| - 1
         && calls[i - 1].method_ == calls[i].method_ && calls[i + 1].method_ == calls[i].method_)
  {
    places := Places(calls, methods, |calls|);
    SurvivorsAt(calls, methods, |calls|);
    forall i | 0 <= i < |calls|
      ensures i !in places <==>
        && (exists m, front :: m in methods && calls[i].method_ == front + m)
        && 0 < i < |calls| - 1
        && calls[i - 1].method_ == calls[i].method_ && calls[i + 1].method_ == calls[i].method_
    {
      assert i in places <==> Kept(calls, methods, i);
      DroppedMeaning(calls, methods, i);
    }
    hide *;
  }

  lemma DroppedMeaning<Q, R>(calls: seq<Record<Q, R>>, methods: seq<string>, i: nat)
    requires i < |calls|
    ensures !Kept(calls, methods, i) <==>
      && (exists m, front :: m in methods && calls[i].method_ == front + m)
      && 0 < i < |calls| - 1
      && calls[i - 1].method_ == calls[i].method_ && calls[i + 1].method_ == calls[i].method_
  {
    DeclaredMeaning(methods, calls[i].method_);
    hide Declared;
  }
}
