/** Why comparing `updateTime` as a string is comparing instants: merge.rs:99-119 over time.rs:95-111. */
module StampedFold {
  import opened Wrappers
  import opened OrderedMap
  import opened Json
  import opened Merge
  import Time

  /** Every element a log carries for an id was stamped by `Display` at a known instant. */
  ghost predicate StampedAt(history: seq<Content>, name: string, id: string, at: seq<int>) {
    && |at| == |history|
    && forall i :: 0 <= i < |history| && Element(history[i], name, id).Some? ==>
         && Time.InCalendar(at[i]) && Time.Faithful(at[i])
         && Element(history[i], name, id).value.Field("updateTime") == Some(Str(Time.Display(at[i])))
  }

  /** Commit `i` was made last: by instant to the millisecond, then by place in the log. */
  ghost predicate MadeLast(history: seq<Content>, name: string, id: string, at: seq<int>, i: nat)
    requires |at| == |history|
  {
    && Restart(history, name) <= i < |history|
    && Element(history[i], name, id).Some?
    && forall j :: Restart(history, name) <= j < |history| && Element(history[j], name, id).Some? ==>
         var a, b := Time.TruncateToMillis(at[i]), Time.TruncateToMillis(at[j]);
         b < a || (b == a && j <= i)
  }

  lemma OutlastsByInstant(x: Value, i: nat, s: int, y: Value, j: nat, t: int)
    requires Time.InCalendar(s) && Time.Faithful(s) && x.Field("updateTime") == Some(Str(Time.Display(s)))
    requires Time.InCalendar(t) && Time.Faithful(t) && y.Field("updateTime") == Some(Str(Time.Display(t)))
    ensures Outlasts(x, i, y, j) <==>
      var a, b := Time.TruncateToMillis(s), Time.TruncateToMillis(t); b < a || (b == a && j <= i)
  {
    Time.DisplayOrder(t, s);
    hide Time.Display, Time.TruncateToMillis, Time.InCalendar, Time.Faithful;
  }

  /** Folding by string picks the winner that folding by instant would. */
  lemma WinnerByInstant(history: seq<Content>, name: string, id: string, at: seq<int>, i: nat)
    requires StampedAt(history, name, id, at)
    ensures Wins(history, name, id, i) <==> MadeLast(history, name, id, at, i)
  {
    hide Time.Display, Time.TruncateToMillis, Time.InCalendar, Time.Faithful, Outlasts, UpdateTime, Element, Restart;
    if Restart(history, name) <= i < |history| && Element(history[i], name, id).Some? {
      forall j | Restart(history, name) <= j < |history| && Element(history[j], name, id).Some?
        ensures Outlasts(Element(history[i], name, id).value, i, Element(history[j], name, id).value, j)
          <==> var a, b := Time.TruncateToMillis(at[i]), Time.TruncateToMillis(at[j]);
               b < a || (b == a && j <= i)
      {
        OutlastsByInstant(Element(history[i], name, id).value, i, at[i], Element(history[j], name, id).value, j, at[j]);
      }
    }
  }
}
