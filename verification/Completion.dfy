/**
 The non-blocking task protocol of FatPkg/EnhancedFatDxe/Misc.c: FatQueueTask submits the subtasks
 of a task one after the other, and FatOnAccessComplete, run by the firmware at any moment in
 between or later, retires one submitted subtask.
 */
module Completion {

  /**
   A FAT_TASK and what it has done so far. `subtasks` is the subtask list, `submitted` counts the
   submissions; `token` says that FileIoToken is not NULL; every signal records whether its status is an
   error; `refused` and `failed` say that a submission, or a completed subtask, had an error.
   */
  datatype Task = Task(total: nat, submitted: nat, subtasks: seq<nat>, token: bool, signals: seq<bool>,
                       frees: nat, refused: bool, failed: bool)

  datatype Event = Submit | Refuse | Complete(id: nat, error: bool)

  function Ids(n: nat): (r: seq<nat>)
    ensures |r| == n && forall i :: 0 <= i < n ==> r[i] == i
  {
    seq(n, i => i)
  }

  function Remove(s: seq<nat>, x: nat): (r: seq<nat>)
    ensures forall y :: y in r <==> y in s && y != x
    ensures |r| <= |s|
  {
    if s == [] then [] else (if s[0] == x then [] else [s[0]]) + Remove(s[1..], x)
  }

  /** The subtasks before `n`: what is left when those from `n` on are destroyed. */
  function Below(s: seq<nat>, n: nat): (r: seq<nat>)
    ensures forall y :: y in r <==> y in s && y < n
  {
    if s == [] then [] else (if s[0] < n then [s[0]] else []) + Below(s[1..], n)
  }

  /** FatQueueTask up to its loop: a task without subtasks is signalled and freed at once. */
  function Start(total: nat): Task {
    if total == 0 then Task(0, 0, [], false, [false], 1, false, false)
    else Task(total, 0, Ids(total), true, [], 0, false, false)
  }

  /** A subtask can be submitted until one is refused; it can complete once it has been submitted. */
  predicate Enabled(t: Task, e: Event) {
    match e
    case Submit => !t.refused && t.submitted < t.total
    case Refuse => !t.refused && t.submitted < t.total
    case Complete(id, _) => id in t.subtasks && id < t.submitted
  }

  /** What each event does to the task. */
  function Step(t: Task, e: Event): Task {
    match e
    case Submit => t.(submitted := t.submitted + 1)
    case Refuse =>
      var left := Below(t.subtasks, t.submitted);
      var u := t.(subtasks := left, refused := true);
      if left == [] then u.(frees := u.frees + 1) else u.(token := false)
    case Complete(id, error) =>
      var left := Remove(t.subtasks, id);
      var u := t.(subtasks := left, failed := t.failed || error);
      var v := if u.token && (left == [] || error) then u.(signals := u.signals + [error], token := false) else u;
      if left == [] then v.(frees := v.frees + 1) else v
  }

  /** What holds between any two events. */
  ghost predicate Inv(t: Task) {
    && t.submitted <= t.total
    && (forall id :: id in t.subtasks ==> id < t.total && (t.refused ==> id < t.submitted))
    && (!t.refused ==> forall id :: t.submitted <= id < t.total ==> id in t.subtasks)
    && t.frees == (if t.subtasks == [] then 1 else 0)
    && |t.signals| <= 1 && (t.token ==> t.signals == [] && !t.failed) && (t.refused ==> !t.token || t.subtasks == [])
    && (!t.refused ==> if t.token then t.subtasks != [] else t.signals == [t.failed] && (!t.failed ==> t.subtasks == []))
  }

  lemma {:induction false} StartInv(total: nat)
    ensures Inv(Start(total))
  {
    forall id: nat | id < total ensures id in Ids(total) { assert Ids(total)[id] == id; }
  }

  lemma {:induction false} StepInv(t: Task, e: Event)
    requires Inv(t) && Enabled(t, e)
    ensures Inv(Step(t, e)) && Step(t, e).total == t.total
  {
    match e
    case Submit => assert t.submitted in t.subtasks;
    case Refuse => assert t.submitted in t.subtasks;
    case Complete(id, error) => assert t.subtasks != [];
  }

  /** A run of events, each enabled when it happens. */
  predicate IsRun(t: Task, events: seq<Event>)
    decreases |events|
  {
    events == [] || (Enabled(t, events[0]) && IsRun(Step(t, events[0]), events[1..]))
  }

  function Run(t: Task, events: seq<Event>): Task
    decreases |events|
  {
    if events == [] then t else Run(Step(t, events[0]), events[1..])
  }

  lemma {:induction false} RunInv(t: Task, events: seq<Event>)
    requires Inv(t) && IsRun(t, events)
    ensures Inv(Run(t, events)) && Run(t, events).total == t.total
    decreases |events|
  {
    if events != [] {
      StepInv(t, events[0]);
      RunInv(Step(t, events[0]), events[1..]);
    }
  }

  lemma {:induction false} RunAppend(t: Task, events: seq<Event>, e: Event)
    requires IsRun(t, events) && Enabled(Run(t, events), e)
    ensures IsRun(t, events + [e]) && Run(t, events + [e]) == Step(Run(t, events), e)
    decreases |events|
  {
    if events == [] {
      assert (events + [e])[1..] == [];
    } else {
      assert (events + [e])[1..] == events[1..] + [e];
      RunAppend(Step(t, events[0]), events[1..], e);
    }
  }

  predicate SomeFailed(events: seq<Event>) {
    exists i :: 0 <= i < |events| && events[i].Complete? && events[i].error
  }

  predicate SomeRefused(events: seq<Event>) {
    exists i :: 0 <= i < |events| && events[i].Refuse?
  }

  /** The history fields say what happened in the run. */
  lemma {:induction false} RunHistory(t: Task, events: seq<Event>)
    requires IsRun(t, events)
    ensures Run(t, events).failed == (t.failed || SomeFailed(events))
    ensures Run(t, events).refused == (t.refused || SomeRefused(events))
    decreases |events|
  {
    if events != [] {
      var rest := events[1..];
      RunHistory(Step(t, events[0]), rest);
      assert events == [events[0]] + rest;
      assert forall i :: 0 <= i < |rest| ==> events[i + 1] == rest[i];
      assert SomeFailed(events) <==> (events[0].Complete? && events[0].error) || SomeFailed(rest) by { LaterEvent(events); }
      assert SomeRefused(events) <==> events[0].Refuse? || SomeRefused(rest) by { LaterEvent(events); }
    }
  }

  lemma {:induction false} LaterEvent(events: seq<Event>)
    requires events != []
    ensures SomeFailed(events) <==> (events[0].Complete? && events[0].error) || SomeFailed(events[1..])
    ensures SomeRefused(events) <==> events[0].Refuse? || SomeRefused(events[1..])
  {
    var rest := events[1..];
    if i :| 0 <= i < |rest| && rest[i].Complete? && rest[i].error { assert events[i + 1] == rest[i]; }
    if i :| 0 <= i < |rest| && rest[i].Refuse? { assert events[i + 1] == rest[i]; }
    if i :| 0 < i < |events| && events[i].Complete? && events[i].error { assert rest[i - 1] == events[i]; }
    if i :| 0 < i < |events| && events[i].Refuse? { assert rest[i - 1] == events[i]; }
  }

  /**
   The protocol: whatever the order of submissions and completions, the task is freed exactly once, when its
   subtask list empties, and signalled at most once; without a refused submission it is signalled exactly
   once by the time the list is empty, with an error exactly when some subtask failed.
   */
  lemma {:induction false} Protocol(total: nat, events: seq<Event>)
    requires IsRun(Start(total), events)
    ensures var t := Run(Start(total), events);
            && t.frees == (if t.subtasks == [] then 1 else 0)
            && |t.signals| <= 1
            && (!SomeRefused(events) && t.subtasks == [] ==> t.signals == [SomeFailed(events)])
            && (!SomeRefused(events) && t.subtasks != [] ==> t.signals == if SomeFailed(events) then [true] else [])
  {
    StartInv(total);
    RunInv(Start(total), events);
    RunHistory(Start(total), events);
  }

  // ----- after a refusal

  lemma {:induction false} RunSplit(t: Task, events: seq<Event>, k: nat)
    requires IsRun(t, events) && k <= |events|
    ensures IsRun(t, events[..k]) && IsRun(Run(t, events[..k]), events[k..]) && Run(t, events) == Run(Run(t, events[..k]), events[k..])
    decreases k
  {
    if k == 0 {
      assert events[..0] == [] && events[0..] == events;
    } else {
      RunSplit(Step(t, events[0]), events[1..], k - 1);
      assert events[1..][..k - 1] == events[..k][1..] && events[1..][k - 1..] == events[k..] && events[..k][0] == events[0];
    }
  }

  /** A task that has been refused adds no signal, whatever completes. */
  lemma {:induction false} RefusedIsSilent(t: Task, events: seq<Event>)
    requires Inv(t) && t.refused && IsRun(t, events)
    ensures Run(t, events).signals == t.signals && Run(t, events).refused
    decreases |events|
  {
    if events != [] {
      StepInv(t, events[0]);
      RefusedIsSilent(Step(t, events[0]), events[1..]);
    }
  }

  /**
   With a refused submission the task is signalled at most before the refusal, and then with the error of a
   subtask; no event afterwards adds a signal.
   */
  lemma {:induction false} SilentAfterRefusal(total: nat, events: seq<Event>, k: nat)
    requires IsRun(Start(total), events) && k < |events| && events[k].Refuse?
    ensures Run(Start(total), events).signals == Run(Start(total), events[..k]).signals
    ensures Run(Start(total), events).signals == if SomeFailed(events[..k]) then [true] else []
  {
    var t0, before := Start(total), events[..k];
    RunSplit(t0, events, k);
    StartInv(total);
    RunInv(t0, before);
    RunHistory(t0, before);
    var t, rest := Run(t0, before), events[k..];
    assert rest[0] == events[k] && Enabled(t, rest[0]);
    assert t.submitted in t.subtasks;
    StepInv(t, rest[0]);
    RefusedIsSilent(Step(t, rest[0]), rest[1..]);
  }

  function Submissions(events: seq<Event>): nat {
    if events == [] then 0 else Submissions(events[..|events| - 1]) + if events[|events| - 1].Submit? then 1 else 0
  }

  /**
   The subtasks left are those that have not completed; once a submission is refused, only those accepted
   before. So the task is freed when the last of these completes, and no subtask in flight outlives it.
   */
  lemma {:induction false} RunRemaining(total: nat, events: seq<Event>, id: nat)
    requires IsRun(Start(total), events)
    ensures var t := Run(Start(total), events);
            && t.submitted == Submissions(events) && (t.refused <==> SomeRefused(events))
            && (id in t.subtasks <==> id < total && !Completed(events, id) && (SomeRefused(events) ==> id < Submissions(events)))
  {
    RunHistory(Start(total), events);
    if events == [] {
      if id < total { assert Ids(total)[id] == id; }
    } else {
      var n := |events| - 1;
      var before, e := events[..n], events[n];
      RunSplit(Start(total), events, n);
      assert events[n..] == [e] && [e][1..] == [];
      var t, t' := Run(Start(total), before), Run(Start(total), events);
      assert Enabled(t, e) && t' == Step(t, e);
      assert events == before + [e];
      RefusedAppend(before, e);
      CompletedAppend(before, e, id);
      hide IsRun, Run, SomeRefused, Completed;
      RunRemaining(total, before, id);
    }
  }

  lemma {:induction false} CompletedAppend(events: seq<Event>, e: Event, id: nat)
    ensures Completed(events + [e], id) <==> Completed(events, id) || (e.Complete? && e.id == id)
  {
    var more := events + [e];
    assert forall i :: 0 <= i < |events| ==> more[i] == events[i];
    if e.Complete? && e.id == id { assert more[|events|] == e; }
  }

  predicate Completed(events: seq<Event>, id: nat) {
    exists i :: 0 <= i < |events| && events[i].Complete? && events[i].id == id
  }

  /** After `events` the task has been signalled with nothing or with an error, and whatever happens then adds no signal. */
  ghost predicate Silent(total: nat, events: seq<Event>) {
    var signals := Run(Start(total), events).signals;
    && (signals == [] || signals == [true])
    && forall more {:trigger Run(Start(total), events + more)} :: IsRun(Start(total), events + more) ==> Run(Start(total), events + more).signals == signals
  }

  lemma {:induction false} RefusedAppend(events: seq<Event>, e: Event)
    ensures SomeRefused(events + [e]) <==> SomeRefused(events) || e.Refuse?
  {
    var more := events + [e];
    assert forall i :: 0 <= i < |events| ==> more[i] == events[i];
    if e.Refuse? { assert more[|events|] == e; }
  }

  /** One of the completions is that of subtask `id`. */
  predicate Brings(arrivals: seq<(nat, bool)>, id: nat) {
    exists i :: 0 <= i < |arrivals| && arrivals[i].0 == id
  }

  predicate AllAccepted(outcomes: seq<bool>, n: nat) {
    n <= |outcomes| && forall k :: 0 <= k < n ==> outcomes[k]
  }

  /** A subtask completes before the loop of FatQueueTask has moved on from it. */
  predicate Overtaken(outcomes: seq<bool>, arrivals: seq<seq<(nat, bool)>>) {
    exists k: nat :: k < |arrivals| && AllAccepted(outcomes, k + 1) && Brings(arrivals[k], k)
  }

  lemma {:induction false} StoppedBefore(outcomes: seq<bool>, arrivals: seq<seq<(nat, bool)>>, link: nat)
    requires link < |outcomes| && !outcomes[link] && forall k: nat :: k < link && k < |arrivals| ==> !Brings(arrivals[k], k)
    ensures !Overtaken(outcomes, arrivals) && !AllAccepted(outcomes, |outcomes|)
  {
    hide Brings;
  }

  /** One subtask whose completion arrives as soon as it is submitted: the task is freed under the loop. */
  lemma {:induction false} OvertakenExample()
    ensures Overtaken([true], [[(0, false)]])
    ensures var events := [Submit, Complete(0, false)]; IsRun(Start(1), events) && Run(Start(1), events).frees == 1
  {
    var arrivals: seq<seq<(nat, bool)>> := [[(0, false)]];
    assert arrivals[0][0].0 == 0;
    assert Brings(arrivals[0], 0) && AllAccepted([true], 1);
    var events := [Submit, Complete(0, false)];
    assert Ids(1) == [0] && Remove([0], 0) == [];
    assert events[1..] == [Complete(0, false)] && events[1..][1..] == [];
    assert IsRun(Step(Start(1), Submit), [Complete(0, false)]);
  }

  lemma {:induction false} LinkIsListed(t: Task)
    requires Inv(t) && !t.refused
    ensures t.submitted < t.total ==> t.submitted in t.subtasks
    ensures t.subtasks == [] <==> t.frees == 1
  {
  }

  // ----- the code

  /** FAT_TASK as the driver keeps it; `id` stands for the address of a subtask. */
  class FatTask {
    var subtasks: seq<nat>
    var fileIoToken: bool               // FileIoToken != NULL
    var signals: seq<bool>              // SignalEvent calls on the token
    var frees: nat                      // FreePool calls on the task
    var queued: bool                    // in IFile->Tasks
    var submitted: nat                  // how many subtasks the firmware has accepted
    ghost var total: nat
    ghost var refused: bool
    ghost var failed: bool

    ghost function View(): Task
      reads this
    {
      Task(total, submitted, subtasks, fileIoToken, signals, frees, refused, failed)
    }

    /** A task is in the list FatWaitNonblockingTask waits on exactly until it is freed. */
    ghost predicate Valid()
      reads this
    {
      Inv(View()) && (queued <==> subtasks != [])
    }

    constructor (count: nat)
      ensures View() == Task(count, 0, Ids(count), true, [], 0, false, false) && !queued
    {
      subtasks, fileIoToken, signals, frees, queued := Ids(count), true, [], 0, false;
      total, submitted, refused, failed := count, 0, false, false;
    }

    /** FatOnAccessComplete. */
    method OnAccessComplete(id: nat, error: bool)
      requires Valid() && Enabled(View(), Complete(id, error))
      modifies this
      ensures Valid() && View() == Step(old(View()), Complete(id, error))
    {
      StepInv(View(), Complete(id, error));
      assert subtasks != [];
      subtasks := Remove(subtasks, id);
      failed := failed || error;
      if fileIoToken {
        if subtasks == [] || error {
          signals := signals + [error];
          fileIoToken := false;
        }
      }
      if subtasks == [] {
        queued := false;
        frees := frees + 1;
      }
    }

    /** The error branch of FatQueueTask: submission number `submitted` was refused. */
    method AbandonRest(link: nat)
      requires Valid() && Enabled(View(), Refuse) && link == submitted
      modifies this
      ensures Valid() && View() == Step(old(View()), Refuse)
    {
      StepInv(View(), Refuse);
      subtasks := Below(subtasks, link);
      refused := true;
      if subtasks == [] {
        queued := false;
        frees := frees + 1;
      } else {
        fileIoToken := false;
      }
    }

    /** Completions that arrive at one moment; those of subtasks not in flight do not happen. */
    method Interrupts(arrivals: seq<(nat, bool)>, ghost start: Task, ghost before: seq<Event>) returns (ghost events: seq<Event>)
      requires Valid() && IsRun(start, before) && View() == Run(start, before) && !SomeRefused(before) && !refused
      requires 0 < submitted && submitted - 1 in subtasks
      modifies this
      ensures Valid() && IsRun(start, events) && View() == Run(start, events) && !SomeRefused(events)
      ensures submitted == old(submitted) && total == old(total) && !refused
      ensures submitted - 1 in subtasks <==> !Brings(arrivals, submitted - 1)
    {
      hide Inv, IsRun, Run, SomeRefused;
      events := before;
      for i := 0 to |arrivals|
        invariant Valid() && IsRun(start, events) && View() == Run(start, events) && !SomeRefused(events)
        invariant submitted == old(submitted) && total == old(total) && !refused
        invariant submitted - 1 in subtasks <==> forall j :: 0 <= j < i ==> arrivals[j].0 != submitted - 1
      {
        var (id, error) := arrivals[i];
        if InFlight(id) {
          RunAppend(start, events, Complete(id, error));
          RefusedAppend(events, Complete(id, error));
          events := events + [Complete(id, error)];
          OnAccessComplete(id, error);
        }
      }
    }

    /** The firmware still holds the request of this subtask. */
    predicate InFlight(id: nat)
      reads this
    {
      id in subtasks && id < submitted
    }

    /**
     FatQueueTask: `outcomes` are the results of the submissions, `arrivals` the completions the firmware
     delivers after each of them. `stale` says that the loop is about to go on from a subtask that has been
     freed, and with the last one the task; that is so exactly if one was overtaken. The model ends there, and
     everything up to that point is a run of the protocol.
     */
    method QueueTask(outcomes: seq<bool>, arrivals: seq<seq<(nat, bool)>>) returns (ok: bool, stale: bool, ghost events: seq<Event>)
      requires |outcomes| == |arrivals| == |subtasks| == total
      requires View() == Task(total, 0, Ids(total), true, [], 0, false, false)
      modifies this
      ensures stale <==> Overtaken(outcomes, arrivals)
      ensures ok <==> !stale && AllAccepted(outcomes, |outcomes|)
      ensures Valid() && IsRun(Start(total), events) && View() == Run(Start(total), events) && total == old(total)
      ensures !stale ==> (ok <==> !SomeRefused(events))
      ensures !ok && !stale ==> Silent(total, events)
      ensures ok ==> submitted == total
    {
      hide Inv, SomeRefused, IsRun, Run, Brings, Silent;
      events, stale := [], false;
      NothingYet(Start(total));
      StartInv(total);
      if subtasks == [] {
        signals := signals + [false];
        fileIoToken := false;
        frees := frees + 1;
        queued := false;
        assert View() == Start(total);
        return true, false, [];
      }
      queued := true;
      var link := 0;
      while link < |outcomes|
        invariant link <= |outcomes| && submitted == link && total == old(total) == |outcomes| && !refused && !stale
        invariant Valid() && IsRun(Start(total), events) && View() == Run(Start(total), events) && !SomeRefused(events)
        invariant AllAccepted(outcomes, link) && forall k: nat :: k < link ==> !Brings(arrivals[k], k)
      {
        LinkIsListed(View());
        if !outcomes[link] {
          RunAppend(Start(total), events, Refuse);
          RefusedAppend(events, Refuse);
          events := events + [Refuse];
          AbandonRest(link);
          StoppedBefore(outcomes, arrivals, link);
          SilentFromNowOn(total, events);
          return false, false, events;
        }
        RunAppend(Start(total), events, Submit);
        RefusedAppend(events, Submit);
        events := events + [Submit];
        StepInv(View(), Submit);
        submitted := submitted + 1;
        events := Interrupts(arrivals[link], Start(total), events);
        if link !in subtasks {
          assert AllAccepted(outcomes, link + 1);
          return false, true, events;
        }
        link := link + 1;
      }
      ok := true;
    }
  }

  lemma {:induction false} SilentFromNowOn(total: nat, events: seq<Event>)
    requires IsRun(Start(total), events) && events != [] && events[|events| - 1].Refuse?
    ensures Silent(total, events)
  {
    var k := |events| - 1;
    SilentAfterRefusal(total, events, k);
    forall more {:trigger Run(Start(total), events + more)} | IsRun(Start(total), events + more)
      ensures Run(Start(total), events + more).signals == Run(Start(total), events).signals
    {
      assert (events + more)[..k] == events[..k] && (events + more)[k] == events[k];
      SilentAfterRefusal(total, events + more, k);
    }
  }

  lemma {:induction false} NothingYet(t: Task)
    ensures !SomeRefused([]) && IsRun(t, []) && Run(t, []) == t
  {
  }
}
