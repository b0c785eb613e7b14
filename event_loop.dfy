// The EventLoop of kvdroid/base.py: a polling loop that watches the
// Android activity and dispatches on_resume, on_destroy and on_pause to the
// running app. The activity's answers are inputs to each poll, and the
// app's dispatches are recorded in an event log.

module Base {

  /** The lifecycle events the loop dispatches to the app. */
  datatype Event = OnResume | OnDestroy | OnPause

  /** What one poll reads from the activity: isResumed(), its `resume`
      attribute, isDestroyed(), its `destroyed` attribute and
      hasWindowFocus(). */
  datatype Observation = Observation(isResumed: bool, resumeAttr: bool, isDestroyed: bool,
                                     destroyedAttr: bool, hasWindowFocus: bool)

  /** The three flags poll consults and updates. */
  datatype Flags = Flags(resume: bool, destroyed: bool, paused: bool)

  /** The flags after a poll and the events it dispatched, in order. */
  datatype PollResult = PollResult(flags: Flags, events: seq<Event>)

  /** The whole observable state of a loop. */
  datatype Loop = Loop(quit: bool, status: string, flags: Flags, log: seq<Event>)

  /** The resume check: a resumed activity the loop has not seen resumed
      dispatches on_resume, takes the activity's `resume` value and clears
      paused. */
  function ResumeStep(r: PollResult, o: Observation): PollResult
  {
    if o.isResumed && !r.flags.resume then
      PollResult(r.flags.(resume := o.resumeAttr, paused := false), r.events + [OnResume])
    else r
  }

  /** The destroy check: a destroyed activity the loop has not seen
      destroyed dispatches on_destroy, takes the activity's `destroyed`
      value and clears resume. */
  function DestroyStep(r: PollResult, o: Observation): PollResult
  {
    if o.isDestroyed && !r.flags.destroyed then
      PollResult(r.flags.(destroyed := o.destroyedAttr, resume := false), r.events + [OnDestroy])
    else r
  }

  /** The pause check: a window without focus, when not yet paused,
      dispatches on_pause, sets paused and clears resume. */
  function PauseStep(r: PollResult, o: Observation): PollResult
  {
    if !o.hasWindowFocus && !r.flags.paused then
      PollResult(r.flags.(paused := true, resume := false), r.events + [OnPause])
    else r
  }

  /** One poll: the resume check, then the destroy check, then the pause
      check, each seeing the flags the previous one left. */
  function PollStep(f: Flags, o: Observation): PollResult
  {
    PauseStep(DestroyStep(ResumeStep(PollResult(f, []), o), o), o)
  }

  /** The loop after one poll. */
  function PollLoop(l: Loop, o: Observation): Loop
  {
    var r := PollStep(l.flags, o);
    Loop(l.quit, l.status, r.flags, l.log + r.events)
  }

  /** The loop after close(). */
  function CloseLoop(l: Loop): Loop
  {
    l.(quit := true, status := "destroyed")
  }

  /** App.stop: the app dispatches on_destroy itself, then closes the
      loop. */
  function StopLoop(l: Loop): Loop
  {
    CloseLoop(l.(log := l.log + [OnDestroy]))
  }

  /** What happens between two turns of mainloop: a poll of the activity,
      or App.stop. */
  datatype Input = Poll(o: Observation) | Stop

  /** mainloop over the inputs `trace`: it keeps going while quit is False
      and the status is "created", and while inputs remain. */
  function Run(l: Loop, trace: seq<Input>): Loop
    decreases |trace|
  {
    if trace == [] || l.quit || l.status != "created" then l
    else match trace[0]
      case Poll(o) => Run(PollLoop(l, o), trace[1..])
      case Stop => Run(StopLoop(l), trace[1..])
  }

  class EventLoop {
    var quit: bool
    var status: string
    var resume: bool
    var destroyed: bool
    var paused: bool
    /** The events dispatched to the app so far. */
    var log: seq<Event>

    function Snapshot(): Loop
      reads this
    {
      Loop(quit, status, Flags(resume, destroyed, paused), log)
    }

    /** A new loop is idle, not quitting, with every flag False. */
    constructor()
      ensures Snapshot() == Loop(false, "idle", Flags(false, false, false), [])
    {
      quit := false;
      status := "idle";
      resume := false;
      destroyed := false;
      paused := false;
      log := [];
    }

    method Poll(o: Observation)
      modifies this
      ensures Snapshot() == PollLoop(old(Snapshot()), o)
    {
      var f := Flags(resume, destroyed, paused);
      var events: seq<Event> := [];
      if o.isResumed && !f.resume {
        events := events + [OnResume];
        f := f.(resume := o.resumeAttr, paused := false);
      }
      assert PollResult(f, events) == ResumeStep(PollResult(old(Snapshot()).flags, []), o);
      if o.isDestroyed && !f.destroyed {
        events := events + [OnDestroy];
        f := f.(destroyed := o.destroyedAttr, resume := false);
      }
      if !o.hasWindowFocus && !f.paused {
        events := events + [OnPause];
        f := f.(paused := true, resume := false);
      }
      resume, destroyed, paused := f.resume, f.destroyed, f.paused;
      log := log + events;
    }

    /** close() sets quit and the "destroyed" status and nothing else. */
    method Close()
      modifies this
      ensures Snapshot() == CloseLoop(old(Snapshot()))
    {
      quit := true;
      status := "destroyed";
    }

    method Mainloop(trace: seq<Input>)
      modifies this
      ensures Snapshot() == Run(old(Snapshot()), trace)
    {
      var k := 0;
      while k < |trace| && !quit && status == "created"
        invariant 0 <= k <= |trace|
        invariant Run(Snapshot(), trace[k..]) == Run(old(Snapshot()), trace)
        decreases |trace| - k
      {
        assert trace[k..][1..] == trace[k + 1..];
        match trace[k] {
          case Poll(o) => Poll(o);
          case Stop =>
            log := log + [OnDestroy];
            Close();
        }
        k := k + 1;
      }
      if k < |trace| {
        assert Run(Snapshot(), trace[k..]) == Snapshot();
      }
    }
  }

  // --- properties of a poll ---

  /** The position of an event in a poll's fixed order. */
  function Rank(e: Event): nat
  {
    match e
    case OnResume => 0
    case OnDestroy => 1
    case OnPause => 2
  }

  /** A poll dispatches events in the order resume, destroy, pause, hence at
      most one of each kind. */
  lemma PollOrder(f: Flags, o: Observation)
    ensures var evs := PollStep(f, o).events;
            && |evs| <= 3
            && (forall i, j :: 0 <= i < j < |evs| ==> Rank(evs[i]) < Rank(evs[j]))
            && (forall i, j :: 0 <= i < j < |evs| ==> evs[i] != evs[j])
  {
  }

  /** on_resume fires exactly when the activity is resumed and the resume
      flag is False; it takes the activity's resume value and clears
      paused, unless a later check of the same poll changes them again. */
  lemma ResumeCheck(f: Flags, o: Observation)
    ensures OnResume in PollStep(f, o).events <==> o.isResumed && !f.resume
    ensures var r := PollStep(f, o);
            OnResume in r.events && OnDestroy !in r.events && OnPause !in r.events
            ==> r.flags.resume == o.resumeAttr && !r.flags.paused
  {
  }

  /** on_destroy fires exactly when the activity is destroyed and the
      destroyed flag is False (the resume check leaves destroyed alone);
      it sets destroyed from the activity and clears resume, which the
      pause check can only clear again. */
  lemma DestroyCheck(f: Flags, o: Observation)
    ensures OnDestroy in PollStep(f, o).events <==> o.isDestroyed && !f.destroyed
    ensures OnDestroy in PollStep(f, o).events ==> PollStep(f, o).flags.destroyed == o.destroyedAttr
    ensures OnDestroy !in PollStep(f, o).events ==> PollStep(f, o).flags.destroyed == f.destroyed
    ensures OnDestroy in PollStep(f, o).events ==> !PollStep(f, o).flags.resume
  {
  }

  /** on_pause fires exactly when the window has no focus and paused is
      False once the resume check has run; afterwards paused is True and
      resume False. */
  lemma PauseCheck(f: Flags, o: Observation)
    ensures var fired := o.isResumed && !f.resume;
            OnPause in PollStep(f, o).events <==> !o.hasWindowFocus && !(f.paused && !fired)
    ensures OnPause in PollStep(f, o).events ==> PollStep(f, o).flags.paused && !PollStep(f, o).flags.resume
  {
  }

  /** Once paused, a poll that does not fire on_resume does not fire
      on_pause again, and the loop stays paused. */
  lemma PausedNoRepeat(f: Flags, o: Observation)
    requires f.paused && !(o.isResumed && !f.resume)
    ensures OnPause !in PollStep(f, o).events
    ensures PollStep(f, o).flags.paused
  {
  }

  /** A resumed activity that is not destroyed and whose window has no
      focus makes a poll from a False resume flag fire on_resume and then
      on_pause: on_pause clears resume, so the next poll does the same. */
  lemma ResumedWithoutFocus(f: Flags, o: Observation)
    requires o.isResumed && !o.hasWindowFocus && !o.isDestroyed
    requires !f.resume
    ensures PollStep(f, o).events == [OnResume, OnPause]
    ensures !PollStep(f, o).flags.resume
    ensures PollStep(PollStep(f, o).flags, o).events == [OnResume, OnPause]
  {
  }

  // --- properties of mainloop ---

  /** A loop that is closed, or was never marked "created", polls no
      more: mainloop returns at once and dispatches nothing. */
  lemma {:induction false} StoppedLoopIsFinal(l: Loop, trace: seq<Input>)
    requires l.quit || l.status != "created"
    ensures Run(l, trace) == l
  {
  }

  /** mainloop only ever appends to the log, and never changes quit and
      status except by closing. */
  lemma {:induction false} RunExtendsLog(l: Loop, trace: seq<Input>)
    ensures |l.log| <= |Run(l, trace).log| && Run(l, trace).log[..|l.log|] == l.log
    ensures Run(l, trace).status == l.status || Run(l, trace).status == "destroyed"
    ensures Run(l, trace).quit == l.quit || Run(l, trace).status == "destroyed"
    decreases |trace|
  {
    if !(trace == [] || l.quit || l.status != "created") {
      var next := match trace[0] case Poll(o) => PollLoop(l, o) case Stop => StopLoop(l);
      RunExtendsLog(next, trace[1..]);
      assert Run(l, trace) == Run(next, trace[1..]);
      assert Run(l, trace).log[..|l.log|] == Run(next, trace[1..]).log[..|next.log|][..|l.log|];
    }
  }

  /** App.stop dispatches on_destroy and closes the loop; after it nothing
      more is dispatched, whatever the activity does. */
  lemma {:induction false} NothingAfterClose(l: Loop, trace: seq<Input>)
    requires !l.quit && l.status == "created"
    ensures Run(l, [Stop] + trace) == CloseLoop(l.(log := l.log + [OnDestroy]))
    ensures Run(l, [Stop] + trace).log == l.log + [OnDestroy]
  {
    assert ([Stop] + trace)[1..] == trace;
    StoppedLoopIsFinal(StopLoop(l), trace);
  }

  /** Each poll of mainloop adds at most three events and App.stop one, so
      the log grows by at most three per input. */
  lemma {:induction false} LogBound(l: Loop, trace: seq<Input>)
    ensures |Run(l, trace).log| <= |l.log| + 3 * |trace|
    decreases |trace|
  {
    if !(trace == [] || l.quit || l.status != "created") {
      match trace[0]
      case Poll(o) =>
        PollOrder(l.flags, o);
        LogBound(PollLoop(l, o), trace[1..]);
      case Stop =>
        LogBound(StopLoop(l), trace[1..]);
    }
  }
}
