/** Fibres (rtsrc/ObjFibre.cpp). A switch from one stack to another is one step here: what
    the old fibre does before it and what the resumed one does right after it. Addresses
    are numbers and null is 0. */
module Fibres {
  import opened Basics
  import opened Finite

  datatype State = NotStarted | Running | Suspended | Waiting | Finished | Failed

  /** What the fibre that runs after a step has got: it has been started with an argument, its
      call of Fiber.yield or fiber.call has returned a value, or an error has been raised in
      it. Refused: the step has raised an error without switching. Exited: the program has ended. */
  datatype Outcome = Started(argument: int) | Received(value: int) | Raised(message: int) | Refused | Exited

  const NullValue := 0

  class Fibre {
    var state: State
    var parent: Fibre?
    var resumeAddress: nat
    var suspendedContext: nat
    var stack: nat
    var hasFn: bool
    var exception: Option<int>
    /** On the stack of a waiting fibre: whether it has used try, and on which fibre. */
    var trying: bool
    var callee: Fibre?

    constructor (hasFunction: bool)
      ensures state == NotStarted && parent == null && resumeAddress == 0 && suspendedContext == 0 && stack == 0
      ensures hasFn == hasFunction && exception == None && callee == null
    {
      state := NotStarted;
      parent, callee := null, null;
      resumeAddress, suspendedContext, stack := 0, 0, 0;
      hasFn := hasFunction;
      exception := None;
      trying := false;
    }

    predicate IsSuspended()
      reads this
    {
      state == Suspended || state == Waiting
    }

    /** What belongs to each state. The main fibre has no stack of its own. */
    ghost predicate Ok(main: bool)
      reads this
    {
      && (IsSuspended() ==> resumeAddress != 0 && suspendedContext != 0)
      && (state == Running ==> resumeAddress == 0 && suspendedContext == 0)
      && (state == NotStarted ==> resumeAddress == 0 && suspendedContext == 0 && stack == 0)
      && (!main && (state == Running || IsSuspended()) ==> stack != 0)
      && (state == Finished || state == Failed ==> stack == 0 && !hasFn)
      && (exception.Some? <==> state == Failed)
    }
  }

  class Scheduler {
    const main: Fibre
    var currentFibre: Fibre?
    /** All fibres, and the stack of fibres: each one has been called by the next. */
    ghost var all: set<Fibre>
    ghost var chain: seq<Fibre>
    /** For each fibre on the stack but the last: whether it has been called with try. */
    ghost var tries: seq<bool>

    ghost predicate Chained()
      reads this, all
    {
      && main in all && chain != [] && chain[|chain| - 1] == main && main.parent == null && Distinct(chain)
      && (forall i :: 0 <= i < |chain| ==> chain[i] in all)
      && (forall i, j :: 0 <= i < j < |chain| && j == i + 1 ==> chain[i].parent == chain[j] && chain[j].callee == chain[i])
      && |tries| == |chain| - 1
      && (forall i, j :: 0 <= i < j < |chain| && j == i + 1 ==> chain[j].trying == tries[i])
    }

    /** Exactly the current fibre is running, and exactly those that wait for it are waiting. */
    ghost predicate Valid()
      reads this, all
    {
      && Chained()
      && (if currentFibre == null then chain == [main] && all == {main} else currentFibre == chain[0])
      && (forall f :: f in all ==> (f.state == Running <==> f == chain[0]))
      && (forall f :: f in all ==> (f.state == Waiting <==> f in chain[1..]))
      && (forall f :: f in all ==> f.Ok(f == main))
    }

    constructor ()
      ensures Valid() && fresh(all) && all == {main} && chain == [main] && tries == []
    {
      var m := new Fibre(false);
      main := m;
      currentFibre := null;
      all := {m};
      chain := [m];
      tries := [];
      new;
      m.state := Running;
    }

    /** The current fibre; it is the main one when fibres are used for the first time. */
    method Current() returns (f: Fibre)
      requires Valid()
      modifies this`currentFibre
      ensures Valid() && currentFibre == f && f == chain[0]
    {
      if currentFibre == null {
        currentFibre := main;
      }
      f := currentFibre;
    }

    /** Makes a fibre; None where the function takes too many parameters. */
    method New(arity: nat) returns (f: Fibre?)
      requires Valid()
      modifies this
      ensures Valid() && chain == old(chain) && tries == old(tries) && (f == null <==> arity > 1)
      ensures f != null ==> fresh(f) && all == old(all) + {f} && f.state == NotStarted
      ensures f == null ==> all == old(all)
    {
      if arity > 1 {
        return null;
      }
      hide Distinct, Chained;
      var c := Current();
      f := new Fibre(true);
      all := all + {f};
    }

    /** Switches to the suspended fibre f. Then, on the stack of f, the fibre that was left
        gets its address, and if it has ended its function and its stack go. */
    method ResumeSuspended(f: Fibre, terminate: bool, sp: nat, context: nat)
      requires currentFibre != null && f != currentFibre && f.IsSuspended() && sp != 0 && context != 0
      requires terminate ==> currentFibre.state != Running
      modifies this`currentFibre, f, currentFibre
      ensures currentFibre == f && f.state == Running && f.resumeAddress == 0 && f.suspendedContext == 0
      ensures f.parent == old(f.parent) && f.callee == old(f.callee) && f.stack == old(f.stack) && f.hasFn == old(f.hasFn) && f.exception == old(f.exception) && f.trying == old(f.trying)
      ensures var o := old(currentFibre);
        && o.resumeAddress == sp && o.suspendedContext == context
        && o.state == old(o.state) && o.parent == old(o.parent) && o.callee == old(o.callee) && o.exception == old(o.exception)
        && o.trying == old(o.trying)
        && (if terminate then o.stack == 0 && !o.hasFn else o.stack == old(o.stack) && o.hasFn == old(o.hasFn))
    {
      assert f.IsSuspended();
      var oldFibre := currentFibre;
      f.state := Running;
      currentFibre.suspendedContext := context;
      f.resumeAddress := 0;
      f.suspendedContext := 0;
      currentFibre := f;
      oldFibre.resumeAddress := sp;
      if terminate {
        oldFibre.hasFn := false;
        assert oldFibre.state != Running;
        oldFibre.stack := 0;
      }
    }

    /** Switches to a new stack for fibre f. */
    method StartAndSwitchTo(f: Fibre, sp: nat, context: nat, newStack: nat)
      requires currentFibre != null && f != currentFibre && f.state == NotStarted && sp != 0 && context != 0 && newStack != 0
      modifies this`currentFibre, f, currentFibre
      ensures currentFibre == f && f.state == Running && f.stack == (if old(f.stack) == 0 then newStack else old(f.stack))
      ensures f.parent == old(f.parent) && f.callee == old(f.callee) && f.resumeAddress == old(f.resumeAddress) && f.suspendedContext == old(f.suspendedContext) && f.exception == old(f.exception)
      ensures var o := old(currentFibre);
        && o.resumeAddress == sp && o.suspendedContext == context && o.state == old(o.state) && o.parent == old(o.parent)
        && o.callee == old(o.callee) && o.exception == old(o.exception) && o.trying == old(o.trying) && o.stack == old(o.stack) && o.hasFn == old(o.hasFn)
    {
      if f.stack == 0 {
        f.stack := newStack;
      }
      var oldFibre := currentFibre;
      f.state := Running;
      currentFibre.suspendedContext := context;
      currentFibre := f;
      oldFibre.resumeAddress := sp;
    }

    /** Only the current fibre and f have changed. */
    twostate predicate OnlyThese(f: Fibre)
      reads this, all
    {
      && all == old(all) && old(currentFibre) != null
      && forall g :: g in all && g != f && g != old(currentFibre) ==> unchanged(g)
    }

    twostate lemma Pushed(f: Fibre)
      requires old(Valid()) && f in old(all) && f !in old(chain) && OnlyThese(f)
      requires chain == [f] + old(chain) && currentFibre == f && |tries| > 0 && tries[1..] == old(tries)
      requires f.state == Running && f.Ok(false) && f.parent == old(currentFibre)
      requires var o := old(currentFibre);
        && o.state == Waiting && o.callee == f && o.parent == old(o.parent) && o.Ok(o == main) && o.trying == tries[0]
      ensures Valid()
    {
      assert chain[1..] == old(chain);
      forall i, j | 0 <= i < j < |chain| && j == i + 1
        ensures chain[i].parent == chain[j] && chain[j].callee == chain[i] && chain[j].trying == tries[i]
      {
        if i > 0 {
          assert tries[i] == old(tries)[i - 1];
          assert chain[i] == old(chain)[i - 1] && chain[j] == old(chain)[j - 1];
        }
      }
    }

    twostate lemma Popped(f: Fibre)
      requires old(Valid()) && |old(chain)| > 1 && f == old(chain)[1] && OnlyThese(f)
      requires chain == old(chain)[1..] && tries == old(tries)[1..] && currentFibre == f
      requires f.state == Running && f.Ok(f == main) && f.parent == old(f.parent) && f.callee == old(f.callee) && f.trying == old(f.trying)
      requires var o := old(currentFibre);
        o.state != Running && o.state != Waiting && o.parent == old(o.parent) && o.Ok(o == main)
      ensures Valid()
    {
      assert old(chain) == [old(currentFibre)] + chain;
      forall i, j | 0 <= i < j < |chain| && j == i + 1
        ensures chain[i].parent == chain[j] && chain[j].callee == chain[i] && chain[j].trying == tries[i]
      {
        assert tries[i] == old(tries)[i + 1];
        assert chain[i] == old(chain)[i + 1] && chain[j] == old(chain)[j + 1];
        assert chain[i] != old(currentFibre) && chain[j] != old(currentFibre);
      }
    }

    /** A fibre that is not running or waiting is not on the stack of fibres. */
    lemma OffStack(f: Fibre)
      requires Valid() && f in all && f.state != Running && f.state != Waiting
      ensures f !in chain && f != main && currentFibre != null && currentFibre in all && currentFibre != f
    {
      assert chain == [chain[0]] + chain[1..];
    }

    lemma MainOnStack()
      requires Valid()
      ensures main.state == Running || main.state == Waiting
    {
      assert chain == [chain[0]] + chain[1..] && main in chain;
    }

    /** Calls (or tries) fibre f. It runs next, on top of the stack of fibres; refused if it is the main fibre,
        or on the stack already, or has ended. */
    method Call(f: Fibre, argument: int, isTry: bool, sp: nat, context: nat, newStack: nat) returns (o: Outcome)
      requires Valid() && f in all && sp != 0 && context != 0 && newStack != 0
      modifies this, all
      ensures Valid() && all == old(all)
      ensures if old(f.state) == NotStarted then o == Started(argument) && chain == [f] + old(chain)
              else if old(f.state) == Suspended then o == Received(argument) && chain == [f] + old(chain)
              else o == Refused && chain == old(chain) && unchanged(all)
      ensures tries == if o == Refused then old(tries) else [isTry] + old(tries)
    {
      hide Chained, Distinct;
      if f == main {
        MainOnStack();
        return Refused;
      }
      if f.state == NotStarted || f.state == Suspended {
        OffStack(f);
        var from := currentFibre;
        f.parent := from;
        from.state := Waiting;
        from.callee, from.trying := f, isTry;
        if f.state == NotStarted {
          StartAndSwitchTo(f, sp, context, newStack);
          o := Started(argument);
        } else {
          ResumeSuspended(f, false, sp, context);
          o := Received(argument);
        }
        chain := [f] + chain;
        tries := [isTry] + tries;
        Pushed(f);
        return;
      }
      return Refused;
    }

    /** The fibre that the current one returns to is waiting for it: the check in
        ResumeSuspended cannot fail. */
    lemma ParentWaits()
      requires Valid() && currentFibre != null
      ensures currentFibre in all && currentFibre == chain[0] && (currentFibre.parent == null <==> |chain| == 1)
      ensures |chain| > 1 ==> var p := chain[1];
        && currentFibre.parent == p && p in all && p != currentFibre && p.state == Waiting && p.callee == currentFibre && p.IsSuspended()
        && |tries| == |chain| - 1 && p.trying == tries[0]
    {
      if |chain| > 1 {
        var i, j := 0, 1;
        assert chain[i].parent == chain[j] && chain[j].callee == chain[i];
        assert chain[1..][0] == chain[1];
      }
    }

    /** The end of call and try: an error of the fibre that was called is raised again by call, and is the value of try. */
    method Deliver(value: int) returns (o: Outcome)
      requires currentFibre != null && currentFibre.callee != null
      ensures currentFibre.callee.exception == None ==> o == Received(value)
      ensures forall m :: currentFibre.callee.exception == Some(m) ==> o == if currentFibre.trying then Received(m) else Raised(m)
    {
      match currentFibre.callee.exception
      case None => o := Received(value);
      case Some(message) => o := if currentFibre.trying then Received(message) else Raised(message);
    }

    /** The current fibre yields a value to the one that has called it. */
    method Yield(argument: int, sp: nat, context: nat) returns (o: Outcome)
      requires Valid() && sp != 0 && context != 0
      modifies this, all
      ensures all == old(all)
      ensures o == Exited <==> |old(chain)| == 1
      ensures o != Exited ==>
        Valid() && chain == old(chain)[1..] && tries == old(tries)[1..] && o == Received(argument) && old(chain)[0].state == Suspended
    {
      hide Distinct;
      var oldFibre := Current();
      ParentWaits();
      hide Chained;
      oldFibre.state := Suspended;
      if oldFibre.parent == null {
        return Exited;
      }
      var p := oldFibre.parent;
      ResumeSuspended(p, false, sp, context);
      chain, tries := chain[1..], tries[1..];
      Popped(p);
      o := Deliver(argument);
    }

    /** The function of the current fibre has returned a result or has raised an error (the
        end of RunOnNewStack). */
    method End(result: int, error: Option<int>, sp: nat, context: nat) returns (o: Outcome)
      requires Valid() && currentFibre != null && currentFibre != main && sp != 0 && context != 0
      modifies this, all
      ensures all == old(all) && o != Exited
      ensures Valid() && chain == old(chain)[1..] && |old(tries)| > 0 && tries == old(tries)[1..]
      ensures old(currentFibre).state == if error == None then Finished else Failed
      ensures error == None ==> o == Received(result)
      ensures forall m :: error == Some(m) && old(tries)[0] ==> o == Received(m)
      ensures forall m :: error == Some(m) && !old(tries)[0] ==> o == Raised(m)
    {
      hide Distinct;
      ParentWaits();
      MainLast();
      hide Chained;
      var newFibre := currentFibre;
      var value := result;
      match error {
        case None =>
          newFibre.state := Finished;
        case Some(message) =>
          newFibre.exception := Some(message);
          newFibre.state := Failed;
          value := NullValue;
      }
      var next := newFibre.parent;
      assert next != null;
      ResumeSuspended(next, true, sp, context);
      chain, tries := chain[1..], tries[1..];
      Popped(next);
      o := Deliver(value);
    }

    lemma MainLast()
      requires Valid() && currentFibre != null && currentFibre != main
      ensures |chain| > 1
    {
    }

    /** Fibres that are not on the stack of fibres are new, suspended or at an end, and those on it are
        the current one and, in order, the ones that have called each other. */
    lemma WhoIsWhere(f: Fibre)
      requires Valid() && f in all
      ensures f in chain <==> f.state == Running || f.state == Waiting
      ensures f.IsSuspended() ==> f.resumeAddress != 0 && f.suspendedContext != 0 && (f != main ==> f.stack != 0)
      ensures f.state == Finished || f.state == Failed ==> f.stack == 0
      ensures currentFibre != null && f.state == Running ==> f == currentFibre
    {
      assert chain == [chain[0]] + chain[1..];
    }
  }
}
