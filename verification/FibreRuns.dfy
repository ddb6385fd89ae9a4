/** Whole runs of the scheduler (rtsrc/ObjFibre.cpp): fibres are made, called, tried, yield and
    end in any order, and each end is matched with the call that it answers. */
module FibreRuns {
  import opened Basics
  import opened Fibres

  /** Fibres are named by the order in which they are made. */
  datatype Action =
    | Make(arity: nat)
    | Call(fibre: nat, argument: int, isTry: bool)
    | Yield(argument: int)
    | End(result: int, error: Option<int>)

  /** An action, what the fibre that runs next gets, and the calls that were open before and after. */
  datatype Entry = Entry(act: Action, out: Option<Outcome>, before: seq<bool>, after: seq<bool>)

  /** The call was carried out: it is open now. */
  ghost predicate Opens(e: Entry) { e.act.Call? && e.after == [e.act.isTry] + e.before }

  /** The innermost open call has been answered. */
  ghost predicate Answers(e: Entry) { (e.act.Yield? || e.act.End?) && e.before != [] && e.after == e.before[1..] }

  ghost predicate EntryOk(e: Entry) {
    && (Opens(e) || Answers(e) || e.after == e.before)
    && (e.act.End? && e.before != [] ==> Answers(e)) && (e.act.Yield? ==> Answers(e))
    && (e.act.Call? && !Opens(e) ==> e.out == Some(Refused) || e.out == None)
    && (e.act.Call? && Opens(e) ==> e.out == Some(Started(e.act.argument)) || e.out == Some(Received(e.act.argument)))
    && (e.act.End? && Answers(e) ==>
          (e.act.error == None ==> e.out == Some(Received(e.act.result))) &&
          forall m :: e.act.error == Some(m) ==> e.out == Some(if e.before[0] then Received(m) else Raised(m)))
    && (e.act.Yield? && Answers(e) ==> e.out == Some(Received(e.act.argument)))
  }

  ghost predicate LogOk(log: seq<Entry>) {
    (forall k :: 0 <= k < |log| ==> EntryOk(log[k])) && forall j, k :: 0 <= j < k < |log| && k == j + 1 ==> log[k].before == log[j].after
  }

  /** Entry k answers the call of entry j: since that call there have always been at least as many open ones. */
  ghost predicate Matches(log: seq<Entry>, j: nat, k: nat) {
    && j < k < |log| && Opens(log[j]) && Answers(log[k]) && |log[k].before| == |log[j].after|
    && forall x :: j < x <= k ==> |log[x].before| >= |log[j].after|
  }

  /** The calls below an open one stay as they are. */
  lemma {:induction false} OpenStays(log: seq<Entry>, j: nat, k: nat)
    requires LogOk(log) && j < k < |log| && forall x :: j < x <= k ==> |log[x].before| >= |log[j].after|
    ensures var d := |log[k].before| - |log[j].after|; log[k].before[d..] == log[j].after
    decreases k
  {
    var i := k - 1;
    assert log[k].before == log[i].after;
    if i > j {
      OpenStays(log, j, i);
      assert EntryOk(log[i]);
    }
  }

  /** A fibre that ends gives its result to the fibre that has called it; if it has failed, its error is the value of
      the matching try, and is raised by the matching call. */
  lemma MatchingEnd(log: seq<Entry>, j: nat, k: nat)
    requires LogOk(log) && Matches(log, j, k) && log[k].act.End?
    ensures log[k].act.error == None ==> log[k].out == Some(Received(log[k].act.result))
    ensures forall m :: log[k].act.error == Some(m) ==> log[k].out == Some(if log[j].act.isTry then Received(m) else Raised(m))
  {
    OpenStays(log, j, k);
    assert log[k].before[0..] == log[k].before;
    assert EntryOk(log[k]) && Opens(log[j]);
  }

  /** One action; exited if a fibre without a caller has yielded. Actions that name no fibre, and an
      end of the main fibre, do nothing. */
  method Do(s: Scheduler, fibres: seq<Fibre>, a: Action) returns (made: seq<Fibre>, out: Option<Outcome>, exited: bool)
    requires s.Valid() && forall f :: f in fibres ==> f in s.all
    modifies s, s.all
    ensures exited ==> a.Yield? && old(s.tries) == []
    ensures !exited ==> s.Valid() && fresh(s.all - old(s.all)) && (forall f :: f in made ==> f in s.all)
    ensures !exited ==> EntryOk(Entry(a, out, old(s.tries), s.tries))
  {
    hide Scheduler.Valid, EntryOk;
    made, out, exited := fibres, None, false;
    if a.Make? {
      made := DoMake(s, fibres, a);
    } else if a.Call? {
      out := DoCall(s, fibres, a);
    } else if a.Yield? {
      out, exited := DoYield(s, a);
    } else {
      out := DoEnd(s, a);
    }
  }

  method DoMake(s: Scheduler, fibres: seq<Fibre>, a: Action) returns (made: seq<Fibre>)
    requires s.Valid() && a.Make? && forall f :: f in fibres ==> f in s.all
    modifies s
    ensures s.Valid() && fresh(s.all - old(s.all)) && (forall f :: f in made ==> f in s.all) && EntryOk(Entry(a, None, old(s.tries), s.tries))
  {
    hide Scheduler.Valid;
    var f := s.New(a.arity);
    made := if f == null then fibres else fibres + [f];
  }

  method DoCall(s: Scheduler, fibres: seq<Fibre>, a: Action) returns (out: Option<Outcome>)
    requires s.Valid() && a.Call? && forall f :: f in fibres ==> f in s.all
    modifies s, s.all
    ensures s.Valid() && s.all == old(s.all) && EntryOk(Entry(a, out, old(s.tries), s.tries))
  {
    hide Scheduler.Valid;
    out := None;
    if a.fibre < |fibres| {
      var o := s.Call(fibres[a.fibre], a.argument, a.isTry, 1, 1, 1);
      out := Some(o);
    }
  }

  method DoYield(s: Scheduler, a: Action) returns (out: Option<Outcome>, exited: bool)
    requires s.Valid() && a.Yield?
    modifies s, s.all
    ensures s.all == old(s.all) && (exited <==> old(s.tries) == [])
    ensures !exited ==> s.Valid() && EntryOk(Entry(a, out, old(s.tries), s.tries))
  {
    OpenCalls(s);
    hide Scheduler.Valid;
    var o := s.Yield(a.argument, 1, 1);
    out, exited := Some(o), o == Exited;
  }

  method DoEnd(s: Scheduler, a: Action) returns (out: Option<Outcome>)
    requires s.Valid() && a.End?
    modifies s, s.all
    ensures s.Valid() && s.all == old(s.all) && EntryOk(Entry(a, out, old(s.tries), s.tries))
  {
    OpenCalls(s);
    hide Scheduler.Valid;
    out := None;
    if s.currentFibre != null && s.currentFibre != s.main {
      var o := s.End(a.result, a.error, 1, 1);
      out := Some(o);
    }
  }

  /** Some call is open exactly if the current fibre is not the main one. */
  lemma OpenCalls(s: Scheduler)
    requires s.Valid()
    ensures |s.tries| == |s.chain| - 1
    ensures s.tries != [] <==> s.currentFibre != null && s.currentFibre != s.main
  {
  }

  /** Runs any actions, until the program ends because a fibre without a caller has yielded. */
  method Run(actions: seq<Action>) returns (outs: seq<Option<Outcome>>, exited: bool, ghost log: seq<Entry>)
    ensures LogOk(log) && |log| == |outs| <= |actions|
    ensures forall k :: 0 <= k < |outs| ==> log[k].act == actions[k] && log[k].out == outs[k]
    ensures outs != [] ==> log[0].before == []
    ensures exited <==> |outs| < |actions|
    ensures exited ==> actions[|outs|].Yield? && (outs == [] || log[|outs| - 1].after == [])
  {
    var s := new Scheduler();
    var fibres: seq<Fibre> := [];
    log, outs, exited := [], [], false;
    hide Scheduler.Valid, EntryOk;
    while |outs| < |actions|
      invariant s.Valid() && fresh(s) && fresh(s.all) && forall f :: f in fibres ==> f in s.all
      invariant LogOk(log) && |log| == |outs| <= |actions| && !exited
      invariant forall k :: 0 <= k < |outs| ==> log[k].act == actions[k] && log[k].out == outs[k]
      invariant if outs == [] then s.tries == [] else log[0].before == [] && log[|outs| - 1].after == s.tries
    {
      ghost var before := s.tries;
      var out;
      fibres, out, exited := Do(s, fibres, actions[|outs|]);
      if exited {
        return;
      }
      log := log + [Entry(actions[|outs|], out, before, s.tries)];
      outs := outs + [out];
    }
  }
}
