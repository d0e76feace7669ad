/** Recording and replaying at the API boundary: crates/heyl-grpc/src/corpus.rs. */
module Corpus {
  import opened Wrappers

  /** One recorded call. Requests are compared as the JSON library compares values. */
  datatype Record<Q, R> = Record(method_: string, request: Option<Q>, reply: R)

  datatype Call<Q> = Call(method_: string, request: Q)

  // ---- recording

  /** Every record carries its request, as `keep` writes it. */
  predicate Recorded<Q, R>(records: seq<Record<Q, R>>) { forall i :: 0 <= i < |records| ==> records[i].request.Some? }

  function KeysOf<Q, R>(records: seq<Record<Q, R>>): (ks: seq<Call<Q>>)
    requires Recorded(records)
    ensures |ks| == |records|
  {
    seq(|records|, i requires 0 <= i < |records| => Call(records[i].method_, records[i].request.value))
  }

  /** The recording of some calls and what each was answered. */
  function RecordingOf<Q, R>(calls: seq<Call<Q>>, replies: seq<R>): (records: seq<Record<Q, R>>)
    requires |calls| == |replies|
    ensures Recorded(records) && KeysOf(records) == calls
    ensures forall i :: 0 <= i < |calls| ==> records[i].reply == replies[i]
  {
    seq(|calls|, i requires 0 <= i < |calls| => Record(calls[i].method_, Some(calls[i].request), replies[i]))
  }

  class RecordingApi<Q, R> {
    var records: seq<Record<Q, R>>
    ghost var calls: seq<Call<Q>>
    ghost var replies: seq<R>

    ghost predicate Valid()
      reads this
    {
      |calls| == |replies| && records == RecordingOf(calls, replies)
    }

    constructor ()
      ensures Valid() && calls == [] && replies == []
    {
      records, calls, replies := [], [], [];
    }

    /**
     * Keep one exchange, given its request and reply as far as they could be rendered: what has been kept is
     * the recording of the calls so far. One that could not be rendered is an error and keeps nothing.
     */
    method Keep(method_: string, request: Option<Q>, reply: Option<R>) returns (ok: bool)
      requires Valid()
      modifies this
      ensures Valid() && Recorded(records) && KeysOf(records) == calls
      ensures ok <==> request.Some? && reply.Some?
      ensures calls == old(calls) + if ok then [Call(method_, request.value)] else []
      ensures replies == old(replies) + if ok then [reply.value] else []
    {
      if request == None || reply == None {
        return false;
      }
      records := records + [Record(method_, request, reply.value)];
      calls, replies := calls + [Call(method_, request.value)], replies + [reply.value];
      ok := true;
    }
  }

  // ---- matching

  predicate Candidate<Q, R>(r: Record<Q, R>, used: bool, method_: string) { !used && r.method_ == method_ }

  predicate Exact<Q(==), R>(r: Record<Q, R>, used: bool, method_: string, request: Option<Q>) {
    Candidate(r, used, method_) && request.Some? && r.request == request
  }

  /** The first unused record of this method with this very request; the length when there is none. */
  function FirstExact<Q(==), R>(records: seq<Record<Q, R>>, consumed: seq<bool>, method_: string,
                        request: Option<Q>): (n: nat)
    requires |records| == |consumed|
    ensures n <= |records|
    ensures n < |records| ==> Exact(records[n], consumed[n], method_, request)
    ensures forall i :: 0 <= i < n ==> !Exact(records[i], consumed[i], method_, request)
  {
    if records == [] || Exact(records[0], consumed[0], method_, request) then 0
    else 1 + FirstExact(records[1..], consumed[1..], method_, request)
  }

  function FirstAny<Q, R>(records: seq<Record<Q, R>>, consumed: seq<bool>, method_: string): (n: nat)
    requires |records| == |consumed|
    ensures n <= |records|
    ensures n < |records| ==> Candidate(records[n], consumed[n], method_)
    ensures forall i :: 0 <= i < n ==> !Candidate(records[i], consumed[i], method_)
  {
    if records == [] || Candidate(records[0], consumed[0], method_) then 0
    else 1 + FirstAny(records[1..], consumed[1..], method_)
  }

  /** Exact request match first, then call order. */
  function Taken<Q(==), R>(records: seq<Record<Q, R>>, consumed: seq<bool>, method_: string,
                   request: Option<Q>): (n: Option<nat>)
    requires |records| == |consumed|
    ensures n.Some? ==> n.value < |records| && Candidate(records[n.value], consumed[n.value], method_)
  {
    var exact, any := FirstExact(records, consumed, method_, request), FirstAny(records, consumed, method_);
    if exact < |records| then Some(exact) else if any < |records| then Some(any) else None
  }

  /**
   * There is an answer exactly while an unused record has the method. It is the first unused record of the method
   * with this very request, and the first unused one of the method at all when none has it.
   */
  lemma TakenMeaning<Q, R>(records: seq<Record<Q, R>>, consumed: seq<bool>, method_: string, request: Option<Q>)
    requires |records| == |consumed|
    ensures var n := Taken(records, consumed, method_, request);
      && (n == None <==> forall i :: 0 <= i < |records| ==> consumed[i] || records[i].method_ != method_)
      && (n.Some? ==>
            && n.value < |records| && !consumed[n.value] && records[n.value].method_ == method_
            && if exists i :: 0 <= i < |records| && !consumed[i] && records[i].method_ == method_
                              && request.Some? && records[i].request == request
               then records[n.value].request == request
                    && forall i :: 0 <= i < n.value && !consumed[i] && records[i].method_ == method_ ==>
                         records[i].request != request
               else forall i :: 0 <= i < n.value ==> consumed[i] || records[i].method_ != method_)
  {
    var exact, any := FirstExact(records, consumed, method_, request), FirstAny(records, consumed, method_);
    assert forall i :: 0 <= i < |records| ==>
      (Candidate(records[i], consumed[i], method_) <==> !consumed[i] && records[i].method_ == method_);
    assert exact < |records| ==> Exact(records[exact], consumed[exact], method_, request);
    if i :| 0 <= i < |records| && !consumed[i] && records[i].method_ == method_
            && request.Some? && records[i].request == request {
      assert Exact(records[i], consumed[i], method_, request);
    }
    forall i | 0 <= i < exact && !consumed[i] && records[i].method_ == method_ && request.Some?
      ensures records[i].request != request
    {
      assert !Exact(records[i], consumed[i], method_, request);
    }
  }

  class RecordedApi<Q(==), R> {
    const records: seq<Record<Q, R>>
    const consumed: array<bool>

    ghost predicate Valid() { consumed.Length == |records| }

    constructor (records: seq<Record<Q, R>>)
      ensures Valid() && fresh(consumed) && this.records == records
      ensures consumed[..] == seq(|records|, _ => false)
    {
      this.records := records;
      this.consumed := new bool[|records|](_ => false);
    }

    /** Find the record answering this call, and use it up. */
    method Take(method_: string, request: Option<Q>) returns (chosen: Option<nat>)
      requires Valid()
      modifies consumed
      ensures chosen == Taken(records, old(consumed[..]), method_, request)
      ensures chosen == None <==>
        forall i :: 0 <= i < |records| ==> old(consumed[..])[i] || records[i].method_ != method_
      ensures chosen.Some? ==>
        var k := chosen.value;
        && k < |records| && !old(consumed[..])[k] && records[k].method_ == method_
        && (forall i :: 0 <= i < k && !old(consumed[..])[i] && records[i].method_ == method_ ==>
              request.Some? && records[k].request == request && records[i].request != request)
        && (forall i | k < i < |records| && !old(consumed[..])[i] && records[i].method_ == method_ ::
              request.Some? && records[i].request == request ==> records[k].request == request)
      ensures consumed[..] == if chosen.Some? then old(consumed[..])[chosen.value := true] else old(consumed[..])
    {
      chosen := None;
      var i := 0;
      while i < |records| && !Exact(records[i], consumed[i], method_, request)
        invariant i <= |records|
        invariant forall j :: 0 <= j < i ==> !Exact(records[j], consumed[j], method_, request)
      {
        i := i + 1;
      }
      if i == |records| {
        i := 0;
        while i < |records| && !Candidate(records[i], consumed[i], method_)
          invariant i <= |records|
          invariant forall j :: 0 <= j < i ==> !Candidate(records[j], consumed[j], method_)
        {
          i := i + 1;
        }
      }
      if i < |records| {
        chosen := Some(i);
        consumed[i] := true;
      }
    }

    /** Which records were never used. */
    method Unused() returns (methods: seq<string>)
      requires Valid()
      ensures methods == UnusedMethods(records, consumed[..])
    {
      methods := [];
      for i := 0 to |records|
        invariant methods == UnusedMethods(records[..i], consumed[..i])
      {
        assert records[..i + 1][..i] == records[..i] && consumed[..i + 1][..i] == consumed[..i];
        if !consumed[i] {
          methods := methods + [records[i].method_];
        }
      }
      assert records[..|records|] == records && consumed[..|records|] == consumed[..];
    }
  }

  function UnusedMethods<Q, R>(records: seq<Record<Q, R>>, consumed: seq<bool>): seq<string>
    requires |records| == |consumed|
  {
    if records == [] then []
    else
      var n := |records| - 1;
      UnusedMethods(records[..n], consumed[..n]) + if consumed[n] then [] else [records[n].method_]
  }

  /** The unused records of two recordings are those of the first and then those of the second. */
  lemma {:induction false} UnusedInOrder<Q, R>(a: seq<Record<Q, R>>, x: seq<bool>, b: seq<Record<Q, R>>, y: seq<bool>)
    requires |a| == |x| && |b| == |y|
    ensures UnusedMethods(a + b, x + y) == UnusedMethods(a, x) + UnusedMethods(b, y)
  {
    hide UnusedMethods;
    if b == [] {
      assert a + b == a && x + y == x;
      NoneUnused<Q, R>();
    } else {
      var n := |b| - 1;
      assert a + b == (a + b[..n]) + [b[n]] && b == b[..n] + [b[n]];
      assert x + y == (x + y[..n]) + [y[n]] && y == y[..n] + [y[n]];
      UnusedInOrder(a, x, b[..n], y[..n]);
      UnusedLast(a + b[..n], x + y[..n], b[n], y[n]);
      UnusedLast(b[..n], y[..n], b[n], y[n]);
    }
  }

  lemma NoneUnused<Q, R>()
    ensures UnusedMethods<Q, R>([], []) == []
  {
  }

  lemma UnusedLast<Q, R>(init: seq<Record<Q, R>>, used: seq<bool>, r: Record<Q, R>, u: bool)
    requires |init| == |used|
    ensures UnusedMethods(init + [r], used + [u]) == UnusedMethods(init, used) + if u then [] else [r.method_]
  {
    assert (init + [r])[..|init|] == init && (used + [u])[..|used|] == used;
  }

  lemma UnusedOne<Q, R>(r: Record<Q, R>, used: bool)
    ensures UnusedMethods([r], [used]) == if used then [] else [r.method_]
  {
    assert [r][..0] == [] && [used][..0] == [];
  }

  lemma {:induction false} UnusedNothing<Q, R>(records: seq<Record<Q, R>>, consumed: seq<bool>)
    requires |records| == |consumed|
    ensures UnusedMethods(records, consumed) == [] <==> forall i :: 0 <= i < |consumed| ==> consumed[i]
  {
    if records != [] {
      var n := |records| - 1;
      UnusedNothing(records[..n], consumed[..n]);
      assert forall i :: 0 <= i < n ==> consumed[..n][i] == consumed[i];
    }
  }

  // ---- replaying a run of calls

  /** The flags after answering these calls in order. */
  function ConsumedBy<Q(==), R>(records: seq<Record<Q, R>>, calls: seq<Call<Q>>): (consumed: seq<bool>)
    ensures |consumed| == |records|
  {
    if calls == [] then seq(|records|, _ => false)
    else
      var before := ConsumedBy(records, calls[..|calls| - 1]);
      match AnswerTo(records, before, calls[|calls| - 1])
      case Some(i) => before[i := true]
      case None => before
  }

  function AnswerTo<Q(==), R>(records: seq<Record<Q, R>>, consumed: seq<bool>, call: Call<Q>): (n: Option<nat>)
    requires |records| == |consumed|
    ensures n.Some? ==> n.value < |records|
  {
    Taken(records, consumed, call.method_, Some(call.request))
  }

  /** The record that answers call `j` of a run. */
  function Answer<Q(==), R>(records: seq<Record<Q, R>>, calls: seq<Call<Q>>, j: nat): (n: Option<nat>)
    requires j < |calls|
    ensures n.Some? ==> n.value < |records|
  {
    AnswerTo(records, ConsumedBy(records, calls[..j]), calls[j])
  }

  ghost function Count<T>(s: seq<T>, x: T): nat {
    if s == [] then 0 else Count(s[..|s| - 1], x) + if s[|s| - 1] == x then 1 else 0
  }

  lemma CountNext<T>(s: seq<T>, i: nat, x: T)
    requires i < |s|
    ensures Count(s[..i + 1], x) == Count(s[..i], x) + if s[i] == x then 1 else 0
  {
    assert s[..i + 1][..i] == s[..i];
  }

  lemma {:induction false} CountGrows<T>(s: seq<T>, i: nat, j: nat, x: T)
    requires i <= j <= |s|
    ensures Count(s[..i], x) <= Count(s[..j], x)
    decreases j
  {
    if i < j {
      CountGrows(s, i, j - 1, x);
      CountNext(s, j - 1, x);
    }
  }

  /** An occurrence before another has a smaller rank. */
  lemma RanksDiffer<T>(s: seq<T>, i: nat, j: nat)
    requires i < j < |s| && s[i] == s[j]
    ensures Count(s[..i], s[i]) < Count(s[..j], s[j])
  {
    CountNext(s, i, s[i]);
    CountGrows(s, i + 1, j, s[i]);
  }

  /** The occurrence of a given rank. */
  lemma {:induction false} Occurrence<T>(s: seq<T>, x: T, n: nat) returns (i: nat)
    requires n < Count(s, x)
    ensures i < |s| && s[i] == x && Count(s[..i], x) == n
  {
    var m := |s| - 1;
    if s[m] == x && Count(s[..m], x) == n {
      return m;
    }
    i := Occurrence(s[..m], x, n);
    assert s[..m][..i] == s[..i];
  }

  /** One is the other in some order. */
  ghost predicate SameCalls<T(!new)>(a: seq<T>, b: seq<T>) { forall x :: Count(a, x) == Count(b, x) }

  /** After a run, the used records of each key are its first ones, as many as there were such calls. */
  ghost predicate UsedInOrder<K>(ks: seq<K>, consumed: seq<bool>, calls: seq<K>) {
    && |ks| == |consumed|
    && forall i :: 0 <= i < |ks| ==> (consumed[i] <==> Count(ks[..i], ks[i]) < Count(calls, ks[i]))
  }

  lemma CountWhole<T>(s: seq<T>, j: nat)
    requires j < |s|
    ensures Count(s[..j], s[j]) < Count(s, s[j])
  {
    CountNext(s, j, s[j]);
    CountGrows(s, j + 1, |s|, s[j]);
    assert s[..|s|] == s;
  }

  lemma FirstExactIs<Q, R>(records: seq<Record<Q, R>>, consumed: seq<bool>, method_: string, request: Option<Q>, i: nat)
    requires |records| == |consumed| && i < |records|
    requires Exact(records[i], consumed[i], method_, request)
    requires forall m :: 0 <= m < i ==> !Exact(records[m], consumed[m], method_, request)
    ensures Taken(records, consumed, method_, request) == Some(i)
  {
    var f := FirstExact(records, consumed, method_, request);
    assert f == i;
  }

  /** The exact match found is the first unused record of the call's key. */
  lemma ExactIs<Q, R>(records: seq<Record<Q, R>>, consumed: seq<bool>, calls: seq<Call<Q>>, c: Call<Q>, i: nat)
    requires Recorded(records) && UsedInOrder(KeysOf(records), consumed, calls)
    requires i < |records| && KeysOf(records)[i] == c && Count(KeysOf(records)[..i], c) == Count(calls, c)
    ensures AnswerTo(records, consumed, c) == Some(i)
  {
    var ks := KeysOf(records);
    forall m | 0 <= m < i ensures !Exact(records[m], consumed[m], c.method_, Some(c.request)) {
      if ks[m] == c { RanksDiffer(ks, m, i); }
    }
    FirstExactIs(records, consumed, c.method_, Some(c.request), i);
  }

  lemma UsedOneMore<K>(ks: seq<K>, consumed: seq<bool>, calls: seq<K>, c: K, i: nat)
    requires UsedInOrder(ks, consumed, calls)
    requires i < |ks| && ks[i] == c && Count(ks[..i], c) == Count(calls, c)
    ensures UsedInOrder(ks, consumed[i := true], calls + [c])
  {
    assert (calls + [c])[..|calls|] == calls;
    forall m | 0 <= m < |ks| ensures consumed[i := true][m] <==> Count(ks[..m], ks[m]) < Count(calls + [c], ks[m]) {
      assert Count(calls + [c], ks[m]) == Count(calls, ks[m]) + if ks[m] == c then 1 else 0;
      if ks[m] == c && m < i { RanksDiffer(ks, m, i); }
      if ks[m] == c && i < m { RanksDiffer(ks, i, m); }
    }
  }

  lemma AnswerStep<Q(!new), R>(records: seq<Record<Q, R>>, calls: seq<Call<Q>>, j: nat) returns (i: nat)
    requires Recorded(records) && SameCalls(calls, KeysOf(records)) && j < |calls|
    requires UsedInOrder(KeysOf(records), ConsumedBy(records, calls[..j]), calls[..j])
    ensures i < |records| && Answer(records, calls, j) == Some(i) && KeysOf(records)[i] == calls[j]
    ensures Count(KeysOf(records)[..i], calls[j]) == Count(calls[..j], calls[j])
    ensures UsedInOrder(KeysOf(records), ConsumedBy(records, calls[..j + 1]), calls[..j + 1])
  {
    var ks, c := KeysOf(records), calls[j];
    CountWhole(calls, j);
    i := Occurrence(ks, c, Count(calls[..j], c));
    ExactIs(records, ConsumedBy(records, calls[..j]), calls[..j], c, i);
    UsedOneMore(ks, ConsumedBy(records, calls[..j]), calls[..j], c, i);
    assert calls[..j + 1] == calls[..j] + [c] && calls[..j + 1][..j] == calls[..j];
  }

  lemma {:induction false} UsedThroughout<Q(!new), R>(records: seq<Record<Q, R>>, calls: seq<Call<Q>>, j: nat)
    requires Recorded(records) && SameCalls(calls, KeysOf(records)) && j <= |calls|
    ensures UsedInOrder(KeysOf(records), ConsumedBy(records, calls[..j]), calls[..j])
  {
    if j > 0 {
      UsedThroughout(records, calls, j - 1);
      var i := AnswerStep(records, calls, j - 1);
    }
  }

  /**
   * Calls that are the recorded ones in any order are each answered by a record of their own request, the
   * same request in recorded order: the n-th call with a request gets the n-th record of it.
   */
  lemma ReplayAnswers<Q(!new), R>(records: seq<Record<Q, R>>, calls: seq<Call<Q>>, j: nat)
    requires Recorded(records) && SameCalls(calls, KeysOf(records)) && j < |calls|
    ensures var n := Answer(records, calls, j);
      && n.Some?
      && KeysOf(records)[n.value] == calls[j]
      && Count(KeysOf(records)[..n.value], calls[j]) == Count(calls[..j], calls[j])
  {
    UsedThroughout(records, calls, j);
    var i := AnswerStep(records, calls, j);
  }

  // ---- records that hold no request

  function MethodsOf<Q, R>(records: seq<Record<Q, R>>): (ms: seq<string>)
    ensures |ms| == |records|
  {
    seq(|records|, i requires 0 <= i < |records| => records[i].method_)
  }

  function MethodsCalled<Q>(calls: seq<Call<Q>>): (ms: seq<string>)
    ensures |ms| == |calls|
  {
    seq(|calls|, i requires 0 <= i < |calls| => calls[i].method_)
  }

  /** The answer to one more call, while the records used of each method are its first ones. */
  lemma FallbackStep<Q, R>(records: seq<Record<Q, R>>, consumed: seq<bool>, called: seq<string>, c: Call<Q>)
    requires forall i :: 0 <= i < |records| ==> records[i].request == None
    requires UsedInOrder(MethodsOf(records), consumed, called)
    ensures var ms, n := MethodsOf(records), AnswerTo(records, consumed, c);
      if Count(called, c.method_) < Count(ms, c.method_) then
        && n.Some? && ms[n.value] == c.method_ && Count(ms[..n.value], c.method_) == Count(called, c.method_)
        && UsedInOrder(ms, consumed[n.value := true], called + [c.method_])
      else n == None && UsedInOrder(ms, consumed, called + [c.method_])
  {
    var ms, n := MethodsOf(records), AnswerTo(records, consumed, c);
    TakenMeaning(records, consumed, c.method_, Some(c.request));
    if Count(called, c.method_) < Count(ms, c.method_) {
      var i := Occurrence(ms, c.method_, Count(called, c.method_));
      assert !consumed[i] && records[i].method_ == c.method_;
      assert ms[n.value] == c.method_;
      if n.value < i { RanksDiffer(ms, n.value, i); }
      assert n.value == i;
      UsedOneMore(ms, consumed, called, c.method_, i);
    } else {
      assert (called + [c.method_])[..|called|] == called;
      forall i | 0 <= i < |ms|
        ensures consumed[i] || ms[i] != c.method_
        ensures consumed[i] <==> Count(ms[..i], ms[i]) < Count(called + [c.method_], ms[i])
      {
        CountWhole(ms, i);
      }
    }
  }

  /**
   * Records without requests are used up in their order: the n-th call of a method gets the n-th record of that
   * method, and no answer when there are not so many.
   */
  lemma {:induction false} FallbackInOrder<Q, R>(records: seq<Record<Q, R>>, calls: seq<Call<Q>>, j: nat)
    requires (forall i :: 0 <= i < |records| ==> records[i].request == None) && j < |calls|
    ensures var ms, cs, n := MethodsOf(records), MethodsCalled(calls), Answer(records, calls, j);
      && (n.Some? <==> Count(cs[..j], cs[j]) < Count(ms, cs[j]))
      && (n.Some? ==> ms[n.value] == cs[j] && Count(ms[..n.value], cs[j]) == Count(cs[..j], cs[j]))
  {
    FallbackUsed(records, calls, j);
    FallbackStep(records, ConsumedBy(records, calls[..j]), MethodsCalled(calls)[..j], calls[j]);
  }

  lemma MethodCalled<Q>(calls: seq<Call<Q>>, i: nat)
    requires i < |calls|
    ensures MethodsCalled(calls)[i] == calls[i].method_
  {
  }

  lemma NothingCalled<Q, R>(records: seq<Record<Q, R>>, calls: seq<Call<Q>>)
    ensures UsedInOrder(MethodsOf(records), ConsumedBy(records, calls[..0]), MethodsCalled(calls)[..0])
  {
    assert MethodsCalled(calls)[..0] == [] && Count<string>([], "") == 0;
  }

  lemma {:induction false} FallbackUsed<Q, R>(records: seq<Record<Q, R>>, calls: seq<Call<Q>>, j: nat)
    requires (forall i :: 0 <= i < |records| ==> records[i].request == None) && j <= |calls|
    ensures UsedInOrder(MethodsOf(records), ConsumedBy(records, calls[..j]), MethodsCalled(calls)[..j])
  {
    hide UsedInOrder, MethodsOf, MethodsCalled, AnswerTo;
    if j == 0 {
      NothingCalled(records, calls);
    } else {
      var cs := MethodsCalled(calls);
      assert cs[j - 1] == calls[j - 1].method_ by { MethodCalled(calls, j - 1); }
      FallbackUsed(records, calls, j - 1);
      FallbackStep(records, ConsumedBy(records, calls[..j - 1]), cs[..j - 1], calls[j - 1]);
      assert calls[..j][..j - 1] == calls[..j - 1] && cs[..j] == cs[..j - 1] + [calls[j - 1].method_];
    }
  }

  lemma {:induction false} ConsumedStays<Q, R>(records: seq<Record<Q, R>>, calls: seq<Call<Q>>, j: nat, k: nat, i: nat)
    requires j <= k <= |calls| && i < |records| && ConsumedBy(records, calls[..j])[i]
    ensures ConsumedBy(records, calls[..k])[i]
    decreases k
  {
    hide AnswerTo;
    if j < k {
      ConsumedStays(records, calls, j, k - 1, i);
      assert calls[..k][..k - 1] == calls[..k - 1];
    }
  }

  /** No record answers two calls, whatever the calls are. */
  lemma NoRecordTwice<Q, R>(records: seq<Record<Q, R>>, calls: seq<Call<Q>>, j: nat, k: nat)
    requires j < k < |calls| && Answer(records, calls, j).Some?
    ensures Answer(records, calls, j) != Answer(records, calls, k)
  {
    var i := Answer(records, calls, j).value;
    assert calls[..j + 1][..j] == calls[..j];
    ConsumedStays(records, calls, j + 1, k, i);
  }

  /** After all of them no record is left unused. */
  lemma NothingUnused<Q(!new), R>(records: seq<Record<Q, R>>, calls: seq<Call<Q>>)
    requires Recorded(records) && SameCalls(calls, KeysOf(records))
    ensures UnusedMethods(records, ConsumedBy(records, calls)) == []
  {
    var ks, consumed := KeysOf(records), ConsumedBy(records, calls);
    UsedThroughout(records, calls, |calls|);
    assert calls[..|calls|] == calls;
    forall i | 0 <= i < |consumed| ensures consumed[i] {
      CountWhole(ks, i);
    }
    UnusedNothing(records, consumed);
  }

  /** The recorded order itself is answered record by record. */
  lemma ReplayInOrder<Q(!new), R>(records: seq<Record<Q, R>>, j: nat)
    requires Recorded(records) && j < |records|
    ensures Answer(records, KeysOf(records), j) == Some(j)
  {
    var ks := KeysOf(records);
    ReplayAnswers(records, ks, j);
    var i := Answer(records, ks, j).value;
    if i < j { RanksDiffer(ks, i, j); }
    if j < i { RanksDiffer(ks, j, i); }
  }

  /** Replaying in the recorded order gives every call the reply it was recorded with. */
  lemma ReplayUndoesRecording<Q(!new), R>(calls: seq<Call<Q>>, replies: seq<R>, j: nat)
    requires |calls| == |replies| && j < |calls|
    ensures var tape := RecordingOf(calls, replies);
      Answer(tape, calls, j).Some? && tape[Answer(tape, calls, j).value].reply == replies[j]
  {
    ReplayInOrder(RecordingOf(calls, replies), j);
  }
}
