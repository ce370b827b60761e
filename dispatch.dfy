/**
 * Batch application of a change log (InterpreterService): five passes over the
 * log in a fixed order of change kinds, each matching change handed to the UML
 * interpreter and then to the change-log file interpreter, and finally both
 * interpreters finalised. The interpreters are abstract: the service records
 * the calls it makes, and the calls that throw are given as a set.
 */
module Dispatch {
  import opened Changes

  datatype Interpreter = Uml | File

  datatype Call = Interpret(who: Interpreter, change: nat) | Finalize(who: Interpreter)

  /** The kinds of the passes, in the order they run. */
  const PassOrder: seq<ChangeKind> := [MessageRemove, LifelineAdd, MessageAdd, MessageModify, LifelineRemove]

  function Rank(kind: ChangeKind): (r: nat)
    ensures r < |PassOrder| && PassOrder[r] == kind
  {
    match kind
    case MessageRemove => 0
    case LifelineAdd => 1
    case MessageAdd => 2
    case MessageModify => 3
    case LifelineRemove => 4
  }

  /** `Rank` numbers the passes: the pass at position `q` has rank `q`. */
  lemma RankOfPass(q: nat)
    requires q < |PassOrder|
    ensures Rank(PassOrder[q]) == q
  {
    if q == 0 {
    } else if q == 1 {
    } else if q == 2 {
    } else if q == 3 {
    } else {
    }
  }

  // ---------------------------------------------------------------------------
  // Which changes a pass visits, and in which order.

  /** Positions in [lo, hi) of the changes of `kind`, first to last. */
  function Asc(log: seq<Change>, kind: ChangeKind, lo: nat, hi: nat): seq<nat>
    requires lo <= hi <= |log|
    decreases hi - lo
  {
    if lo == hi then []
    else Asc(log, kind, lo, hi - 1) + (if log[hi - 1].kind == kind then [hi - 1] else [])
  }

  /** Positions in [lo, hi) of the changes of `kind`, last to first. */
  function Desc(log: seq<Change>, kind: ChangeKind, lo: nat, hi: nat): seq<nat>
    requires lo <= hi <= |log|
    decreases hi - lo
  {
    if lo == hi then []
    else Desc(log, kind, lo + 1, hi) + (if log[lo].kind == kind then [lo] else [])
  }

  /** The positions one pass visits. */
  function Pass(log: seq<Change>, kind: ChangeKind, isReversed: bool): seq<nat> {
    if isReversed then Desc(log, kind, 0, |log|) else Asc(log, kind, 0, |log|)
  }

  /** The pass of rank `q`: only removals are visited last to first. */
  function PassAt(log: seq<Change>, q: nat): seq<nat>
    requires q < |PassOrder|
  {
    Pass(log, PassOrder[q], PassOrder[q] == MessageRemove)
  }

  /** The positions visited by the passes of rank `q` and later, in order. */
  function ScheduleFrom(log: seq<Change>, q: nat): seq<nat>
    requires q <= |PassOrder|
    decreases |PassOrder| - q
  {
    if q == |PassOrder| then [] else PassAt(log, q) + ScheduleFrom(log, q + 1)
  }

  /** The positions the whole batch visits. */
  function Schedule(log: seq<Change>): seq<nat> {
    ScheduleFrom(log, 0)
  }

  /** Each visited change goes to the UML interpreter and then to the file interpreter. */
  function CallsFor(positions: seq<nat>): (calls: seq<Call>)
    ensures |calls| == 2 * |positions|
  {
    if |positions| == 0 then []
    else [Interpret(Uml, positions[0]), Interpret(File, positions[0])] + CallsFor(positions[1..])
  }

  /** The calls for the `m`-th visited change are at `2 m` (UML) and `2 m + 1` (file). */
  lemma {:induction false} CallsForPairs(positions: seq<nat>)
    ensures forall m :: 0 <= m < |positions| ==>
      CallsFor(positions)[2 * m] == Interpret(Uml, positions[m])
      && CallsFor(positions)[2 * m + 1] == Interpret(File, positions[m])
  {
    if |positions| > 0 {
      CallsForPairs(positions[1..]);
      var c := CallsFor(positions);
      forall m | 0 <= m < |positions|
        ensures c[2 * m] == Interpret(Uml, positions[m]) && c[2 * m + 1] == Interpret(File, positions[m])
      {
        if m > 0 {
          assert c[2 * m] == CallsFor(positions[1..])[2 * (m - 1)];
          assert c[2 * m + 1] == CallsFor(positions[1..])[2 * (m - 1) + 1];
        }
      }
    }
  }

  const Finalizations: seq<Call> := [Finalize(Uml), Finalize(File)]

  /** The calls of the passes of rank `q` and later, then the finalisations. */
  function PlannedFrom(log: seq<Change>, q: nat): seq<Call>
    requires q <= |PassOrder|
    decreases |PassOrder| - q
  {
    if q == |PassOrder| then Finalizations else CallsFor(PassAt(log, q)) + PlannedFrom(log, q + 1)
  }

  /** Every call the batch would make if none threw. */
  function Planned(log: seq<Change>): seq<Call> {
    PlannedFrom(log, 0)
  }

  /** No call of `calls` throws. */
  predicate NoneFail(calls: seq<Call>, fails: set<Call>) {
    |calls| == 0 || (calls[0] !in fails && NoneFail(calls[1..], fails))
  }

  lemma {:induction false} NoneFailMeans(calls: seq<Call>, fails: set<Call>)
    ensures NoneFail(calls, fails) <==> forall k :: 0 <= k < |calls| ==> calls[k] !in fails
  {
    if |calls| > 0 {
      NoneFailMeans(calls[1..], fails);
      assert forall k :: 1 <= k < |calls| ==> calls[k] == calls[1..][k - 1];
    }
  }

  /** The calls made when each call in `fails` throws: up to and including the first that does. */
  function Run(calls: seq<Call>, fails: set<Call>): seq<Call> {
    if |calls| == 0 then []
    else if calls[0] in fails then [calls[0]]
    else [calls[0]] + Run(calls[1..], fails)
  }

  /**
   * Running makes every call when none throws, and otherwise exactly the
   * calls up to and including the first that throws.
   */
  lemma {:induction false} RunStopsAtFirstFailure(calls: seq<Call>, fails: set<Call>)
    ensures NoneFail(calls, fails) ==> Run(calls, fails) == calls
    ensures !NoneFail(calls, fails) ==>
      exists k :: 0 <= k < |calls| && calls[k] in fails && NoneFail(calls[..k], fails) && Run(calls, fails) == calls[..k + 1]
  {
    if |calls| > 0 {
      var rest := calls[1..];
      if calls[0] in fails {
        assert calls[..1] == [calls[0]];
        assert NoneFail(calls[..0], fails);
      } else {
        RunStopsAtFirstFailure(rest, fails);
        assert calls == [calls[0]] + rest;
        if !NoneFail(calls, fails) {
          var k :| 0 <= k < |rest| && rest[k] in fails && NoneFail(rest[..k], fails) && Run(rest, fails) == rest[..k + 1];
          assert calls[..k + 2] == [calls[0]] + rest[..k + 1];
          assert calls[..k + 1] == [calls[0]] + rest[..k];
          NoneFailAppend([calls[0]], rest[..k], fails);
          assert calls[k + 1] in fails && NoneFail(calls[..k + 1], fails) && Run(calls, fails) == calls[..k + 2];
        }
      }
    }
  }

  // ---------------------------------------------------------------------------
  // Lemmas about the order.

  lemma {:induction false} CallsForAppend(a: seq<nat>, b: seq<nat>)
    ensures CallsFor(a + b) == CallsFor(a) + CallsFor(b)
  {
    if |a| == 0 {
      assert a + b == b;
    } else {
      assert (a + b)[0] == a[0];
      assert (a + b)[1..] == a[1..] + b;
      CallsForAppend(a[1..], b);
    }
  }

  lemma SeqAssoc<T>(a: seq<T>, b: seq<T>, c: seq<T>)
    ensures (a + b) + c == a + (b + c)
  {
  }

  lemma {:induction false} RunAppend(a: seq<Call>, b: seq<Call>, fails: set<Call>)
    ensures Run(a + b, fails) == Run(a, fails) + (if NoneFail(a, fails) then Run(b, fails) else [])
  {
    if |a| == 0 {
      assert a + b == b;
    } else {
      assert (a + b)[0] == a[0];
      assert (a + b)[1..] == a[1..] + b;
      if a[0] in fails {
        assert !NoneFail(a, fails);
      } else {
        RunAppend(a[1..], b, fails);
        var tail := if NoneFail(a, fails) then Run(b, fails) else [];
        SeqAssoc([a[0]], Run(a[1..], fails), tail);
      }
    }
  }

  lemma {:induction false} NoneFailAppend(a: seq<Call>, b: seq<Call>, fails: set<Call>)
    ensures NoneFail(a + b, fails) <==> NoneFail(a, fails) && NoneFail(b, fails)
  {
    if |a| == 0 {
      assert a + b == b;
    } else {
      assert (a + b)[0] == a[0];
      assert (a + b)[1..] == a[1..] + b;
      NoneFailAppend(a[1..], b, fails);
    }
  }

  lemma {:induction false} AscSplit(log: seq<Change>, kind: ChangeKind, lo: nat, mid: nat, hi: nat)
    requires lo <= mid <= hi <= |log|
    ensures Asc(log, kind, lo, hi) == Asc(log, kind, lo, mid) + Asc(log, kind, mid, hi)
    decreases hi - mid
  {
    if mid < hi {
      AscSplit(log, kind, lo, mid, hi - 1);
    }
  }

  lemma {:induction false} DescSplit(log: seq<Change>, kind: ChangeKind, lo: nat, mid: nat, hi: nat)
    requires lo <= mid <= hi <= |log|
    ensures Desc(log, kind, lo, hi) == Desc(log, kind, mid, hi) + Desc(log, kind, lo, mid)
    decreases mid - lo
  {
    if lo < mid {
      DescSplit(log, kind, lo + 1, mid, hi);
    }
  }

  lemma {:induction false} AscInRange(log: seq<Change>, kind: ChangeKind, lo: nat, hi: nat)
    requires lo <= hi <= |log|
    ensures forall m :: 0 <= m < |Asc(log, kind, lo, hi)| ==>
              lo <= Asc(log, kind, lo, hi)[m] < hi && log[Asc(log, kind, lo, hi)[m]].kind == kind
    decreases hi - lo
  {
    if lo < hi {
      AscInRange(log, kind, lo, hi - 1);
    }
  }

  lemma {:induction false} AscIncreasing(log: seq<Change>, kind: ChangeKind, lo: nat, hi: nat)
    requires lo <= hi <= |log|
    ensures forall m, n :: 0 <= m < n < |Asc(log, kind, lo, hi)| ==> Asc(log, kind, lo, hi)[m] < Asc(log, kind, lo, hi)[n]
    decreases hi - lo
  {
    if lo < hi {
      AscIncreasing(log, kind, lo, hi - 1);
      AscInRange(log, kind, lo, hi - 1);
    }
  }

  lemma {:induction false} AscComplete(log: seq<Change>, kind: ChangeKind, lo: nat, hi: nat)
    requires lo <= hi <= |log|
    ensures forall j :: lo <= j < hi && log[j].kind == kind ==> j in Asc(log, kind, lo, hi)
    decreases hi - lo
  {
    if lo < hi {
      AscComplete(log, kind, lo, hi - 1);
    }
  }

  lemma {:induction false} DescInRange(log: seq<Change>, kind: ChangeKind, lo: nat, hi: nat)
    requires lo <= hi <= |log|
    ensures forall m :: 0 <= m < |Desc(log, kind, lo, hi)| ==>
              lo <= Desc(log, kind, lo, hi)[m] < hi && log[Desc(log, kind, lo, hi)[m]].kind == kind
    decreases hi - lo
  {
    if lo < hi {
      DescInRange(log, kind, lo + 1, hi);
    }
  }

  lemma {:induction false} DescDecreasing(log: seq<Change>, kind: ChangeKind, lo: nat, hi: nat)
    requires lo <= hi <= |log|
    ensures forall m, n :: 0 <= m < n < |Desc(log, kind, lo, hi)| ==> Desc(log, kind, lo, hi)[m] > Desc(log, kind, lo, hi)[n]
    decreases hi - lo
  {
    if lo < hi {
      DescDecreasing(log, kind, lo + 1, hi);
      DescInRange(log, kind, lo + 1, hi);
    }
  }

  lemma {:induction false} DescComplete(log: seq<Change>, kind: ChangeKind, lo: nat, hi: nat)
    requires lo <= hi <= |log|
    ensures forall j :: lo <= j < hi && log[j].kind == kind ==> j in Desc(log, kind, lo, hi)
    decreases hi - lo
  {
    if lo < hi {
      DescComplete(log, kind, lo + 1, hi);
    }
  }

  /** One pass, either direction: its kind only, every change of that kind, no repeats. */
  lemma PassVisits(log: seq<Change>, kind: ChangeKind, isReversed: bool)
    ensures (forall m :: 0 <= m < |Pass(log, kind, isReversed)| ==> Pass(log, kind, isReversed)[m] < |log| && log[Pass(log, kind, isReversed)[m]].kind == kind)
    ensures (forall m, n :: 0 <= m < n < |Pass(log, kind, isReversed)| ==> (if isReversed then Pass(log, kind, isReversed)[m] > Pass(log, kind, isReversed)[n] else Pass(log, kind, isReversed)[m] < Pass(log, kind, isReversed)[n]))
    ensures (forall j :: 0 <= j < |log| && log[j].kind == kind ==> j in Pass(log, kind, isReversed))
  {
    if isReversed {
      DescInRange(log, kind, 0, |log|);
      DescDecreasing(log, kind, 0, |log|);
      DescComplete(log, kind, 0, |log|);
    } else {
      AscInRange(log, kind, 0, |log|);
      AscIncreasing(log, kind, 0, |log|);
      AscComplete(log, kind, 0, |log|);
    }
  }

  /** A strictly ordered sequence holds each of its elements once. */
  lemma {:induction false} OrderedOnce(s: seq<nat>, j: nat, descending: bool)
    requires forall m, n :: 0 <= m < n < |s| ==> (if descending then s[m] > s[n] else s[m] < s[n])
    requires j in s
    ensures multiset(s)[j] == 1
  {
    assert s == [s[0]] + s[1..];
    assert multiset(s) == multiset([s[0]]) + multiset(s[1..]);
    if s[0] == j {
      assert j !in s[1..] by {
        forall n | 0 <= n < |s[1..]|
          ensures s[1..][n] != j
        {
          assert s[1..][n] == s[n + 1];
        }
      }
    } else {
      assert j in s[1..];
      forall m, n | 0 <= m < n < |s[1..]|
        ensures if descending then s[1..][m] > s[1..][n] else s[1..][m] < s[1..][n]
      {
        assert s[1..][m] == s[m + 1] && s[1..][n] == s[n + 1];
      }
      OrderedOnce(s[1..], j, descending);
    }
  }

  /** The change at `a` is visited before the one at `b`. */
  predicate VisitedBefore(log: seq<Change>, a: nat, b: nat) {
    && a < |log| && b < |log|
    && var ka, kb := log[a].kind, log[b].kind;
       Rank(ka) < Rank(kb) || (ka == kb && (if ka == MessageRemove then a > b else a < b))
  }

  lemma {:induction false} ScheduleFromInRange(log: seq<Change>, q: nat)
    requires q <= |PassOrder|
    ensures forall m :: 0 <= m < |ScheduleFrom(log, q)| ==>
              ScheduleFrom(log, q)[m] < |log| && Rank(log[ScheduleFrom(log, q)[m]].kind) >= q
    decreases |PassOrder| - q
  {
    if q < |PassOrder| {
      ScheduleFromInRange(log, q + 1);
      PassVisits(log, PassOrder[q], PassOrder[q] == MessageRemove);
      RankOfPass(q);
    }
  }

  lemma {:induction false} ScheduleFromOrdered(log: seq<Change>, q: nat)
    requires q <= |PassOrder|
    ensures forall m, n :: 0 <= m < n < |ScheduleFrom(log, q)| ==>
              VisitedBefore(log, ScheduleFrom(log, q)[m], ScheduleFrom(log, q)[n])
    decreases |PassOrder| - q
  {
    if q < |PassOrder| {
      var kind := PassOrder[q];
      var p := PassAt(log, q);
      var rest := ScheduleFrom(log, q + 1);
      ScheduleFromOrdered(log, q + 1);
      ScheduleFromInRange(log, q + 1);
      PassVisits(log, kind, kind == MessageRemove);
      RankOfPass(q);
      var s := ScheduleFrom(log, q);
      assert s == p + rest;
      forall m, n | 0 <= m < n < |s|
        ensures VisitedBefore(log, s[m], s[n])
      {
        if n < |p| {
          assert s[m] == p[m] && s[n] == p[n];
        } else if m < |p| {
          assert s[m] == p[m] && s[n] == rest[n - |p|];
        } else {
          assert s[m] == rest[m - |p|] && s[n] == rest[n - |p|];
        }
      }
    }
  }

  /** A pass visits each change of its kind once and no other change. */
  lemma PassCount(log: seq<Change>, kind: ChangeKind, isReversed: bool, j: nat)
    requires j < |log|
    ensures multiset(Pass(log, kind, isReversed))[j] == if log[j].kind == kind then 1 else 0
  {
    var p := Pass(log, kind, isReversed);
    PassVisits(log, kind, isReversed);
    if log[j].kind == kind {
      OrderedOnce(p, j, isReversed);
    } else {
      assert j !in p;
    }
  }

  lemma {:induction false} ScheduleFromCount(log: seq<Change>, q: nat, j: nat)
    requires q <= |PassOrder| && j < |log|
    ensures multiset(ScheduleFrom(log, q))[j] == if Rank(log[j].kind) >= q then 1 else 0
    decreases |PassOrder| - q
  {
    if q < |PassOrder| {
      var kind := PassOrder[q];
      var p := PassAt(log, q);
      ScheduleFromCount(log, q + 1, j);
      PassCount(log, kind, kind == MessageRemove, j);
      RankOfPass(q);
      assert PassOrder[Rank(log[j].kind)] == log[j].kind;
      assert multiset(ScheduleFrom(log, q)) == multiset(p) + multiset(ScheduleFrom(log, q + 1));
    }
  }

  /**
   * The batch visits every change exactly once; a change of an earlier pass
   * kind comes before one of a later kind; removals are visited last to first
   * and the changes of every other kind first to last.
   */
  lemma ScheduleOrder(log: seq<Change>)
    ensures (forall j :: 0 <= j < |log| ==> multiset(Schedule(log))[j] == 1)
    ensures (forall m :: 0 <= m < |Schedule(log)| ==> Schedule(log)[m] < |log|)
    ensures (forall m, n :: 0 <= m < n < |Schedule(log)| ==> VisitedBefore(log, Schedule(log)[m], Schedule(log)[n]))
  {
    ScheduleFromInRange(log, 0);
    ScheduleFromOrdered(log, 0);
    forall j | 0 <= j < |log|
      ensures multiset(Schedule(log))[j] == 1
    {
      ScheduleFromCount(log, 0, j);
    }
  }

  lemma {:induction false} PlannedFromSchedule(log: seq<Change>, q: nat)
    requires q <= |PassOrder|
    ensures PlannedFrom(log, q) == CallsFor(ScheduleFrom(log, q)) + Finalizations
    decreases |PassOrder| - q
  {
    if q < |PassOrder| {
      PlannedFromSchedule(log, q + 1);
      CallsForAppend(PassAt(log, q), ScheduleFrom(log, q + 1));
    }
  }

  /** The UML interpreter gets each visited change immediately before the file interpreter. */
  lemma UmlBeforeFile(log: seq<Change>)
    ensures var p := Planned(log);
            var s := Schedule(log);
            && |p| == 2 * |s| + 2
            && (forall m :: 0 <= m < |s| ==> p[2 * m] == Interpret(Uml, s[m]) && p[2 * m + 1] == Interpret(File, s[m]))
            && p[|p| - 2] == Finalize(Uml) && p[|p| - 1] == Finalize(File)
  {
    PlannedFromSchedule(log, 0);
    CallsForPairs(Schedule(log));
  }

  /**
   * The UML interpreter is finalised exactly when no change was refused, and
   * the file interpreter exactly when, in addition, the UML finalisation did
   * not throw.
   */
  lemma FinalizationOnlyAfterSuccess(log: seq<Change>, fails: set<Call>)
    ensures Finalize(Uml) in Run(Planned(log), fails) <==> NoneFail(CallsFor(Schedule(log)), fails)
    ensures Finalize(File) in Run(Planned(log), fails) <==>
              NoneFail(CallsFor(Schedule(log)), fails) && Finalize(Uml) !in fails
  {
    PlannedFromSchedule(log, 0);
    var changes := CallsFor(Schedule(log));
    RunAppend(changes, Finalizations, fails);
    RunMakesOnlyGivenCalls(changes, fails);
    CallsForOnlyInterprets(Schedule(log));
    assert Finalizations[1..] == [Finalize(File)];
    if Finalize(Uml) in fails {
      assert Run(Finalizations, fails) == [Finalize(Uml)];
    } else {
      assert Run([Finalize(File)], fails) == [Finalize(File)];
      assert Run(Finalizations, fails) == Finalizations;
    }
  }

  lemma {:induction false} RunMakesOnlyGivenCalls(calls: seq<Call>, fails: set<Call>)
    ensures forall c :: c in Run(calls, fails) ==> c in calls
  {
    if |calls| > 0 {
      RunMakesOnlyGivenCalls(calls[1..], fails);
    }
  }

  lemma {:induction false} CallsForOnlyInterprets(positions: seq<nat>)
    ensures forall c :: c in CallsFor(positions) ==> c.Interpret?
  {
    if |positions| > 0 {
      CallsForOnlyInterprets(positions[1..]);
    }
  }

  /** Removals at positions 1, 2 and 3 of a log are interpreted as 3, 2, 1, before the other change. */
  lemma RemovalsRunBackwards()
    ensures Schedule([Change(MessageAdd, 0), Change(MessageRemove, 1), Change(MessageRemove, 2), Change(MessageRemove, 3)])
            == [3, 2, 1, 0]
  {
    var log := [Change(MessageAdd, 0), Change(MessageRemove, 1), Change(MessageRemove, 2), Change(MessageRemove, 3)];
    assert Desc(log, MessageRemove, 0, 4) == [3, 2, 1];
    assert Asc(log, MessageAdd, 0, 4) == [0];
    assert Asc(log, LifelineAdd, 0, 4) == [];
    assert Asc(log, MessageModify, 0, 4) == [];
    assert Asc(log, LifelineRemove, 0, 4) == [];
  }

  /** When the change at `k` is the first of a pass to fail, the calls made are those of the run of the pass. */
  lemma RunPrefix(log: seq<Change>, kind: ChangeKind, isReversed: bool, k: nat, fails: set<Call>)
    requires k < |log| && log[k].kind == kind
    requires isReversed ==> NoneFail(CallsFor(Desc(log, kind, k + 1, |log|)), fails)
    requires !isReversed ==> NoneFail(CallsFor(Asc(log, kind, 0, k)), fails)
    requires !NoneFail(CallsFor([k]), fails)
    ensures Run(CallsFor(Pass(log, kind, isReversed)), fails)
            == CallsFor(if isReversed then Desc(log, kind, k + 1, |log|) else Asc(log, kind, 0, k)) + Run(CallsFor([k]), fails)
    ensures !NoneFail(CallsFor(Pass(log, kind, isReversed)), fails)
  {
    var done := if isReversed then Desc(log, kind, k + 1, |log|) else Asc(log, kind, 0, k);
    var rest := if isReversed then Desc(log, kind, 0, k) else Asc(log, kind, k + 1, |log|);
    if isReversed {
      DescSplit(log, kind, 0, k, |log|);
      assert Desc(log, kind, k, |log|) == done + [k];
    } else {
      AscSplit(log, kind, 0, k + 1, |log|);
      assert Asc(log, kind, 0, k + 1) == done + [k];
    }
    assert Pass(log, kind, isReversed) == (done + [k]) + rest;
    SeqAssoc(done, [k], rest);
    var cd, ck, cr := CallsFor(done), CallsFor([k]), CallsFor(rest);
    CallsForAppend(done, [k] + rest);
    CallsForAppend([k], rest);
    assert CallsFor(Pass(log, kind, isReversed)) == cd + (ck + cr);
    RunAppend(cd, ck + cr, fails);
    RunAppend(ck, cr, fails);
    RunStopsAtFirstFailure(cd, fails);
    assert Run(ck + cr, fails) == Run(ck, fails) + [];
    assert Run(ck, fails) + [] == Run(ck, fails);
    NoneFailAppend(cd, ck + cr, fails);
    NoneFailAppend(ck, cr, fails);
  }

  /** Recording the calls for change `k` after those for the changes `done`. */
  lemma OneMore(done: seq<nat>, k: nat, fails: set<Call>, base: seq<Call>, now: seq<Call>, after: seq<Call>)
    requires NoneFail(CallsFor(done), fails) && now == base + CallsFor(done)
    requires after == now + Run(CallsFor([k]), fails)
    ensures after == base + (CallsFor(done) + Run(CallsFor([k]), fails))
    ensures NoneFail(CallsFor([k]), fails) ==>
              NoneFail(CallsFor(done + [k]), fails) && after == base + CallsFor(done + [k])
  {
    CallsForAppend(done, [k]);
    NoneFailAppend(CallsFor(done), CallsFor([k]), fails);
    RunStopsAtFirstFailure(CallsFor([k]), fails);
    SeqAssoc(base, CallsFor(done), Run(CallsFor([k]), fails));
  }

  /**
   * A removal pass reaches the matching change at `k`, having recorded
   * `now`: either the pass goes on, or it ends here with the run of the pass.
   */
  lemma VisitedBackwards(log: seq<Change>, kind: ChangeKind, k: nat, fails: set<Call>,
                         base: seq<Call>, now: seq<Call>, after: seq<Call>)
    requires k < |log| && log[k].kind == kind
    requires NoneFail(CallsFor(Desc(log, kind, k + 1, |log|)), fails)
    requires now == base + CallsFor(Desc(log, kind, k + 1, |log|))
    requires after == now + Run(CallsFor([k]), fails)
    ensures NoneFail(CallsFor([k]), fails) ==>
              NoneFail(CallsFor(Desc(log, kind, k, |log|)), fails) && after == base + CallsFor(Desc(log, kind, k, |log|))
    ensures !NoneFail(CallsFor([k]), fails) ==>
              after == base + Run(CallsFor(Pass(log, kind, true)), fails) && !NoneFail(CallsFor(Pass(log, kind, true)), fails)
  {
    var done := Desc(log, kind, k + 1, |log|);
    assert Desc(log, kind, k, |log|) == done + [k];
    OneMore(done, k, fails, base, now, after);
    if !NoneFail(CallsFor([k]), fails) {
      RunPrefix(log, kind, true, k, fails);
    }
  }

  /**
   * A pass of any other kind reaches the matching change at `k`, having
   * recorded `now`: either the pass goes on, or it ends here with the run of the pass.
   */
  lemma VisitedForwards(log: seq<Change>, kind: ChangeKind, k: nat, fails: set<Call>,
                        base: seq<Call>, now: seq<Call>, after: seq<Call>)
    requires k < |log| && log[k].kind == kind
    requires NoneFail(CallsFor(Asc(log, kind, 0, k)), fails)
    requires now == base + CallsFor(Asc(log, kind, 0, k))
    requires after == now + Run(CallsFor([k]), fails)
    ensures NoneFail(CallsFor([k]), fails) ==>
              NoneFail(CallsFor(Asc(log, kind, 0, k + 1)), fails) && after == base + CallsFor(Asc(log, kind, 0, k + 1))
    ensures !NoneFail(CallsFor([k]), fails) ==>
              after == base + Run(CallsFor(Pass(log, kind, false)), fails) && !NoneFail(CallsFor(Pass(log, kind, false)), fails)
  {
    var done := Asc(log, kind, 0, k);
    assert Asc(log, kind, 0, k + 1) == done + [k];
    OneMore(done, k, fails, base, now, after);
    if !NoneFail(CallsFor([k]), fails) {
      RunPrefix(log, kind, false, k, fails);
    }
  }

  /** The calls of the passes of rank below `q`. */
  ghost function Done(log: seq<Change>, q: nat): seq<Call>
    requires q <= |PassOrder|
  {
    if q == 0 then [] else Done(log, q - 1) + CallsFor(PassAt(log, q - 1))
  }

  /** No call of the passes of rank below `q` throws. */
  ghost predicate Passed(log: seq<Change>, fails: set<Call>, q: nat)
    requires q <= |PassOrder|
  {
    q == 0 || (Passed(log, fails, q - 1) && NoneFail(CallsFor(PassAt(log, q - 1)), fails))
  }

  /** Once the passes below `q` have all succeeded, the run goes on with the rest of the plan. */
  lemma {:induction false} PassedRun(log: seq<Change>, fails: set<Call>, q: nat)
    requires q <= |PassOrder| && Passed(log, fails, q)
    ensures Run(Planned(log), fails) == Done(log, q) + Run(PlannedFrom(log, q), fails)
    ensures NoneFail(Planned(log), fails) == NoneFail(PlannedFrom(log, q), fails)
  {
    if q == 0 {
      assert Done(log, 0) + Run(Planned(log), fails) == Run(Planned(log), fails);
    } else {
      PassedRun(log, fails, q - 1);
      var c := CallsFor(PassAt(log, q - 1));
      var rest := PlannedFrom(log, q);
      assert PlannedFrom(log, q - 1) == c + rest;
      RunAppend(c, rest, fails);
      NoneFailAppend(c, rest, fails);
      RunStopsAtFirstFailure(c, fails);
      assert Run(c + rest, fails) == c + Run(rest, fails);
      assert Done(log, q) == Done(log, q - 1) + c;
      SeqAssoc(Done(log, q - 1), c, Run(rest, fails));
    }
  }

  /** A pass (of rank `q`, kind `kind`) in which no call throws: the batch moves on to the next pass. */
  lemma PassSucceeded(log: seq<Change>, fails: set<Call>, q: nat, kind: ChangeKind, isReversed: bool,
                      start: seq<Call>, now: seq<Call>, after: seq<Call>)
    requires q < |PassOrder| && kind == PassOrder[q] && isReversed == (kind == MessageRemove)
    requires Passed(log, fails, q) && now == start + Done(log, q)
    requires after == now + Run(CallsFor(Pass(log, kind, isReversed)), fails)
    requires NoneFail(CallsFor(Pass(log, kind, isReversed)), fails)
    ensures Passed(log, fails, q + 1) && after == start + Done(log, q + 1)
  {
    var c := CallsFor(PassAt(log, q));
    RunStopsAtFirstFailure(c, fails);
    assert after == (start + Done(log, q)) + c;
    assert Done(log, q + 1) == Done(log, q) + c;
    SeqAssoc(start, Done(log, q), c);
  }


  /** A pass in which a call throws: the batch ends there, unsuccessfully. */
  lemma PassFailed(log: seq<Change>, fails: set<Call>, q: nat, kind: ChangeKind, isReversed: bool,
                   start: seq<Call>, now: seq<Call>, after: seq<Call>)
    requires q < |PassOrder| && kind == PassOrder[q] && isReversed == (kind == MessageRemove)
    requires Passed(log, fails, q) && now == start + Done(log, q)
    requires after == now + Run(CallsFor(Pass(log, kind, isReversed)), fails)
    requires !NoneFail(CallsFor(Pass(log, kind, isReversed)), fails)
    ensures after == start + Run(Planned(log), fails) && !NoneFail(Planned(log), fails)
  {
    PassedRun(log, fails, q);
    var c := CallsFor(PassAt(log, q));
    var rest := PlannedFrom(log, q + 1);
    assert PlannedFrom(log, q) == c + rest;
    RunAppend(c, rest, fails);
    assert Run(c + rest, fails) == Run(c, fails) + [];
    assert Run(c, fails) + [] == Run(c, fails);
    NoneFailAppend(c, rest, fails);
    SeqAssoc(start, Done(log, q), Run(c, fails));
  }

  /** After the five passes only the two finalisations remain. */
  lemma AllPassed(log: seq<Change>, fails: set<Call>, start: seq<Call>, now: seq<Call>)
    requires Passed(log, fails, |PassOrder|) && now == start + Done(log, |PassOrder|)
    ensures Finalize(Uml) in fails ==> start + Run(Planned(log), fails) == now + [Finalize(Uml)]
    ensures Finalize(Uml) !in fails ==> start + Run(Planned(log), fails) == now + [Finalize(Uml)] + [Finalize(File)]
    ensures NoneFail(Planned(log), fails) == (Finalize(Uml) !in fails && Finalize(File) !in fails)
  {
    PassedRun(log, fails, |PassOrder|);
    assert PlannedFrom(log, |PassOrder|) == Finalizations;
    assert Finalizations[1..] == [Finalize(File)];
    assert Run([Finalize(File)], fails) == [Finalize(File)];
    assert [Finalize(File)][1..] == [];
    assert NoneFail([Finalize(File)], fails) == (Finalize(File) !in fails);
    assert now + [Finalize(Uml)] + [Finalize(File)] == now + Finalizations;
  }

  // ---------------------------------------------------------------------------
  // The service.

  class InterpreterService {
    /** Every call made on the two interpreters, in order. */
    var calls: seq<Call>

    constructor ()
      ensures calls == []
    {
      calls := [];
    }

    /** Hands one change to the UML interpreter and then to the file interpreter. */
    method InterpretOne(j: nat, fails: set<Call>) returns (ok: bool)
      modifies this
      ensures calls == old(calls) + Run(CallsFor([j]), fails)
      ensures ok == NoneFail(CallsFor([j]), fails)
    {
      var both := [Interpret(Uml, j), Interpret(File, j)];
      assert CallsFor([j]) == both;
      assert both[1..] == [Interpret(File, j)];
      calls := calls + [Interpret(Uml, j)];
      if Interpret(Uml, j) in fails {
        return false;
      }
      calls := calls + [Interpret(File, j)];
      ok := Interpret(File, j) !in fails;
      assert Run([Interpret(File, j)], fails) == [Interpret(File, j)];
      assert [Interpret(File, j)][1..] == [];
      assert NoneFail([Interpret(File, j)], fails) == ok;
    }

    /** One pass: the changes of `kind`, last to first when `isReversed`, else first to last. */
    method InterpretChangeBasedOnType(kind: ChangeKind, log: seq<Change>, isReversed: bool, fails: set<Call>)
      returns (ok: bool)
      modifies this
      ensures calls == old(calls) + Run(CallsFor(Pass(log, kind, isReversed)), fails)
      ensures ok == NoneFail(CallsFor(Pass(log, kind, isReversed)), fails)
    {
      ghost var base := calls;
      if isReversed {
        var k := |log|;
        while k > 0
          invariant 0 <= k <= |log|
          invariant NoneFail(CallsFor(Desc(log, kind, k, |log|)), fails)
          invariant calls == base + CallsFor(Desc(log, kind, k, |log|))
        {
          k := k - 1;
          if log[k].kind == kind {
            ghost var before := calls;
            ok := InterpretOne(k, fails);
            VisitedBackwards(log, kind, k, fails, base, before, calls);
            if !ok {
              return;
            }
          } else {
            assert Desc(log, kind, k, |log|) == Desc(log, kind, k + 1, |log|);
          }
        }
        RunStopsAtFirstFailure(CallsFor(Pass(log, kind, true)), fails);
        ok := true;
      } else {
        for k := 0 to |log|
          invariant NoneFail(CallsFor(Asc(log, kind, 0, k)), fails)
          invariant calls == base + CallsFor(Asc(log, kind, 0, k))
        {
          if log[k].kind == kind {
            ghost var before := calls;
            ok := InterpretOne(k, fails);
            VisitedForwards(log, kind, k, fails, base, before, calls);
            if !ok {
              return;
            }
          } else {
            assert Asc(log, kind, 0, k + 1) == Asc(log, kind, 0, k);
          }
        }
        RunStopsAtFirstFailure(CallsFor(Pass(log, kind, false)), fails);
        ok := true;
      }
    }

    /** All five passes, then the finalisations; stops at the first call that throws. */
    method InterpretChanges(log: seq<Change>, fails: set<Call>) returns (ok: bool)
      modifies this
      ensures calls == old(calls) + Run(Planned(log), fails)
      ensures ok == NoneFail(Planned(log), fails)
    {
      ghost var start := calls;
      ghost var now0 := calls;
      ok := InterpretChangeBasedOnType(MessageRemove, log, true, fails);
      if !ok {
        PassFailed(log, fails, 0, MessageRemove, true, start, now0, calls);
        return;
      }
      PassSucceeded(log, fails, 0, MessageRemove, true, start, now0, calls);
      ghost var now1 := calls;
      ok := InterpretChangeBasedOnType(LifelineAdd, log, false, fails);
      if !ok {
        PassFailed(log, fails, 1, LifelineAdd, false, start, now1, calls);
        return;
      }
      PassSucceeded(log, fails, 1, LifelineAdd, false, start, now1, calls);
      ghost var now2 := calls;
      ok := InterpretChangeBasedOnType(MessageAdd, log, false, fails);
      if !ok {
        PassFailed(log, fails, 2, MessageAdd, false, start, now2, calls);
        return;
      }
      PassSucceeded(log, fails, 2, MessageAdd, false, start, now2, calls);
      ghost var now3 := calls;
      ok := InterpretChangeBasedOnType(MessageModify, log, false, fails);
      if !ok {
        PassFailed(log, fails, 3, MessageModify, false, start, now3, calls);
        return;
      }
      PassSucceeded(log, fails, 3, MessageModify, false, start, now3, calls);
      ghost var now4 := calls;
      ok := InterpretChangeBasedOnType(LifelineRemove, log, false, fails);
      if !ok {
        PassFailed(log, fails, 4, LifelineRemove, false, start, now4, calls);
        return;
      }
      PassSucceeded(log, fails, 4, LifelineRemove, false, start, now4, calls);
      AllPassed(log, fails, start, calls);
      calls := calls + [Finalize(Uml)];
      if Finalize(Uml) in fails {
        return false;
      }
      calls := calls + [Finalize(File)];
      ok := Finalize(File) !in fails;
    }
  }
}
