/**
 The LZ4 job service: clients create, submit, cancel and destroy jobs while one fiber takes
 them from a queue.  Every step is a section with interrupts masked, or what the fiber does
 between two of them; runs are any interleavings of such steps.
 */
module Lz4Service {
  import opened Basics

  // ---------------------------------------------------------------- states

  datatype Status = Created | Queued | Running | Complete | Cancelled | Failed

  /** job_terminal. */
  predicate Terminal(st: Status)
  {
    st.Complete? || st.Cancelled? || st.Failed?
  }

  /**
   A job: its decoder is there, a service owns it, a callback is due or running.  How often
   it was finished and its callback called is counted, and whether it was ever accepted.
   */
  datatype Job = Job(status: Status, decoder: bool, owned: bool, cancelRequested: bool, pending: bool, running: bool,
                     callback: bool, accepted: bool, finishes: nat, calls: nat, destroyed: bool)

  /** Where the fiber is; in finish_job, whether it is draining. */
  datatype Fiber =
    | Unstarted
    | Top
    | Popped(job: nat)
    | Ready(job: nat)
    | Decoding(job: nat)
    | Ending(job: nat, status: Status, draining: bool)
    | Marking(job: nat, status: Status, draining: bool)
    | Announcing(job: nat, draining: bool)
    | Calling(job: nat, draining: bool)
    | Yielding
    | Leaving
    | Draining
    | Stopped

  /** The service, the jobs, and the orders in which jobs were accepted and taken from the queue. */
  datatype Service = Service(queue: seq<nat>, capacity: nat, active: Option<nat>, stopping: bool, fiber: Fiber,
                             jobs: map<nat, Job>, accepted: seq<nat>, taken: seq<nat>)

  datatype Event =
    | Create(job: nat, callback: bool)
    | Submit(job: nat)
    | Cancel(job: nat)
    | Destroy(job: nat)
    | Start
    | StopSeen
    | Look(woken: bool)
    | Hold
    | Check
    | Decode(outcome: Status)
    | FreeDecoder
    | Mark
    | Announce
    | Return
    | Yield(ok: bool)
    | Leave
    | Drain

  datatype Reply = Done | Again | Busy | Already | Refused

  function NewJob(callback: bool): (j: Job)
  {
    Job(Created, true, false, false, false, false, callback, false, 0, 0, false)
  }

  function Fresh(capacity: nat): (s: Service)
  {
    Service([], capacity, None, false, Unstarted, map[], [], [])
  }

  // ---------------------------------------------------------------- steps

  function SubmitReply(s: Service, j: nat): (r: Reply)
    requires j in s.jobs
  {
    if s.stopping || s.fiber.Stopped? then Refused
    else if s.fiber.Unstarted? then Again
    else if !s.jobs[j].status.Created? || s.jobs[j].owned then Busy
    else if |s.queue| == s.capacity then Again
    else Done
  }

  function DestroyReply(job: Job): (r: Reply)
  {
    if (!job.status.Created? && !Terminal(job.status)) || job.pending || job.running then Busy else Done
  }

  /** Clients use no job before it is created or after they have destroyed it; the rest is the fiber's program. */
  predicate Enabled(s: Service, e: Event)
  {
    match e
    case Create(j, _) => j !in s.jobs
    case Submit(j) => j in s.jobs && !s.jobs[j].destroyed
    case Cancel(j) => j in s.jobs && !s.jobs[j].destroyed
    case Destroy(j) => j in s.jobs && !s.jobs[j].destroyed
    case Start => s.fiber.Unstarted?
    case StopSeen => s.fiber.Top?
    case Look(_) => s.fiber.Top?
    case Hold => s.fiber.Popped?
    case Check => s.fiber.Ready? && s.fiber.job in s.jobs
    case Decode(outcome) => s.fiber.Decoding? && !outcome.Created? && !outcome.Queued? && !outcome.Cancelled?
    case FreeDecoder => s.fiber.Ending? && s.fiber.job in s.jobs
    case Mark => s.fiber.Marking? && s.fiber.job in s.jobs
    case Announce => s.fiber.Announcing? && s.fiber.job in s.jobs
    case Return => s.fiber.Calling? && s.fiber.job in s.jobs
    case Yield(_) => s.fiber.Yielding?
    case Leave => s.fiber.Leaving?
    case Drain => s.fiber.Draining?
  }

  /** Where finish_job returns to. */
  function Back(draining: bool): (f: Fiber)
  {
    if draining then Draining else Yielding
  }

  function Put(s: Service, j: nat, job: Job): (r: Service)
  {
    s.(jobs := s.jobs[j := job])
  }

  /** pop_job: the fiber goes on with the oldest job of the queue. */
  function Pop(s: Service, f: Fiber): (r: Service)
    requires s.queue != []
  {
    s.(queue := s.queue[1..], taken := s.taken + [s.queue[0]], fiber := f)
  }

  function Next(s: Service, e: Event): (r: Service)
    requires Enabled(s, e)
  {
    match e
    case Create(j, callback) => Put(s, j, NewJob(callback))
    case Submit(j) =>
      if SubmitReply(s, j) != Done then s
      else
        Put(s, j, s.jobs[j].(status := Queued, owned := true, accepted := true)).(queue := s.queue + [j], accepted := s.accepted + [j])
    case Cancel(j) =>
      if Terminal(s.jobs[j].status) then s
      else if s.jobs[j].status.Created? then Put(s, j, s.jobs[j].(status := Cancelled, decoder := false))
      else Put(s, j, s.jobs[j].(cancelRequested := true))
    case Destroy(j) => if DestroyReply(s.jobs[j]) != Done then s else Put(s, j, s.jobs[j].(decoder := false, destroyed := true))
    case Start => s.(fiber := Top)
    case StopSeen => s.(fiber := Leaving)
    case Look(woken) =>
      if s.active.Some? then s.(fiber := Ready(s.active.value))
      else if s.queue != [] then Pop(s, Popped(s.queue[0]))
      else if woken then s
      else s.(fiber := Leaving)
    case Hold => s.(active := Some(s.fiber.job), fiber := Ready(s.fiber.job))
    case Check =>
      var j := s.fiber.job;
      if s.jobs[j].cancelRequested then s.(active := None, fiber := Ending(j, Cancelled, false))
      else Put(s, j, s.jobs[j].(status := Running)).(fiber := Decoding(j))
    case Decode(outcome) =>
      if Terminal(outcome) then s.(active := None, fiber := Ending(s.fiber.job, outcome, false)) else s.(fiber := Yielding)
    case FreeDecoder =>
      var j := s.fiber.job;
      Put(s, j, s.jobs[j].(decoder := false)).(fiber := Marking(j, s.fiber.status, s.fiber.draining))
    case Mark =>
      var j, job := s.fiber.job, s.jobs[s.fiber.job];
      Put(s, j, Marked(job, s.fiber.status))
        .(fiber := if job.callback then Announcing(j, s.fiber.draining) else Back(s.fiber.draining))
    case Announce =>
      var j, job := s.fiber.job, s.jobs[s.fiber.job];
      Put(s, j, job.(pending := false, running := true, calls := job.calls + 1)).(fiber := Calling(j, s.fiber.draining))
    case Return =>
      var j := s.fiber.job;
      Put(s, j, s.jobs[j].(running := false)).(fiber := Back(s.fiber.draining))
    case Yield(ok) => s.(fiber := if ok then Top else Leaving)
    case Leave => s.(stopping := true, fiber := Draining)
    case Drain =>
      if s.active.Some? then s.(active := None, fiber := Ending(s.active.value, Cancelled, true))
      else if s.queue != [] then Pop(s, Ending(s.queue[0], Cancelled, true))
      else s.(fiber := Stopped)
  }

  // ---------------------------------------------------------------- what every run keeps

  /** What a job is to the service. */
  datatype Role = Outside | InQueue | AtPop | AtActive | AtEnd | AtMark | AtAnnounce | AtCall

  function RoleOf(s: Service, j: nat): (r: Role)
  {
    if j in s.queue then InQueue else if s.active == Some(j) then AtActive else FiberRole(s.fiber, j)
  }

  function FiberRole(f: Fiber, j: nat): (r: Role)
  {
    match f
    case Popped(k) => if j == k then AtPop else Outside
    case Ending(k, _, _) => if j == k then AtEnd else Outside
    case Marking(k, _, _) => if j == k then AtMark else Outside
    case Announcing(k, _) => if j == k then AtAnnounce else Outside
    case Calling(k, _) => if j == k then AtCall else Outside
    case _ => Outside
  }

  /** Not finished, and nothing of it given away. */
  predicate Live(job: Job)
  {
    job.accepted && job.owned && !job.pending && !job.running && job.finishes == 0 && job.calls == 0 && !job.destroyed
  }

  predicate Over(job: Job)
  {
    job.accepted && !job.owned && Terminal(job.status) && job.finishes == 1 && !job.decoder
  }

  predicate Fits(job: Job, r: Role)
  {
    match r
    case InQueue => Live(job) && job.decoder && job.status.Queued?
    case AtPop => Live(job) && job.decoder && job.status.Queued?
    case AtActive => Live(job) && job.decoder && (job.status.Queued? || job.status.Running?)
    case AtEnd => Live(job) && job.decoder && (job.status.Queued? || job.status.Running?)
    case AtMark => Live(job) && !job.decoder && (job.status.Queued? || job.status.Running?)
    case AtAnnounce => Over(job) && job.callback && job.pending && !job.running && job.calls == 0 && !job.destroyed
    case AtCall => Over(job) && job.callback && !job.pending && job.running && job.calls == 1 && !job.destroyed
    case Outside =>
      && !job.pending && !job.running && !job.owned
      && if job.accepted then Over(job) && job.calls == (if job.callback then 1 else 0)
         else job.finishes == 0 && job.calls == 0 && (job.status.Created? || job.status.Cancelled?)
              && (job.decoder <==> job.status.Created? && !job.destroyed)
  }

  /** The job that the fiber's place is about. */
  function About(f: Fiber): (j: Option<nat>)
  {
    if f.Popped? || f.Ready? || f.Decoding? || f.Ending? || f.Marking? || f.Announcing? || f.Calling? then Some(f.job) else None
  }

  predicate DrainingAt(f: Fiber)
  {
    f.Draining? || f.Stopped? || ((f.Ending? || f.Marking? || f.Announcing? || f.Calling?) && f.draining)
  }

  ghost predicate Placed(s: Service)
  {
    && |s.queue| <= s.capacity
    && (s.active.Some? ==> s.active.value !in s.queue && (About(s.fiber).Some? ==> (s.fiber.Ready? || s.fiber.Decoding?)))
    && (s.fiber.Ready? || s.fiber.Decoding? ==> s.active == About(s.fiber))
    && (About(s.fiber).Some? ==> About(s.fiber).value !in s.queue && About(s.fiber).value in s.jobs)
    && (s.active.Some? ==> s.active.value in s.jobs)
    && ((s.fiber.Ending? || s.fiber.Marking?) ==> Terminal(s.fiber.status))
    && (s.fiber.Unstarted? ==> s.queue == [] && s.active == None)
    && (s.stopping <==> DrainingAt(s.fiber)) && (s.fiber.Stopped? ==> s.queue == [] && s.active == None)
  }

  ghost predicate InOrder(s: Service)
  {
    && s.accepted == s.taken + s.queue
    && (forall i, k :: 0 <= i < k < |s.accepted| ==> s.accepted[i] != s.accepted[k])
    && (forall j :: j in s.accepted <==> j in s.jobs && s.jobs[j].accepted)
  }

  ghost predicate Sound(s: Service)
  {
    Placed(s) && InOrder(s) && forall j :: j in s.jobs ==> Fits(s.jobs[j], RoleOf(s, j))
  }

  // ---------------------------------------------------------------- every step keeps it

  lemma CreateSound(s: Service, e: Event)
    requires Sound(s) && Enabled(s, e) && e.Create?
    ensures Sound(Next(s, e))
  {
  }

  lemma SubmitSound(s: Service, e: Event)
    requires Sound(s) && Enabled(s, e) && e.Submit?
    ensures Sound(Next(s, e))
  {
    assert Fits(s.jobs[e.job], RoleOf(s, e.job));
    if SubmitReply(s, e.job) == Done { SubmittedSound(s, e.job); }
  }

  lemma SubmittedSound(s: Service, j: nat)
    requires Sound(s) && j in s.jobs && !s.jobs[j].destroyed && SubmitReply(s, j) == Done
    ensures Sound(Put(s, j, s.jobs[j].(status := Queued, owned := true, accepted := true)).(queue := s.queue + [j], accepted := s.accepted + [j]))
  {
    assert Fits(s.jobs[j], RoleOf(s, j));
    assert s.accepted + [j] == s.taken + (s.queue + [j]);
    var r := Put(s, j, s.jobs[j].(status := Queued, owned := true, accepted := true)).(queue := s.queue + [j], accepted := s.accepted + [j]);
    forall k | k in r.jobs
      ensures Fits(r.jobs[k], RoleOf(r, k))
    {
      if k != j { assert Fits(s.jobs[k], RoleOf(s, k)); }
    }
  }

  /** One job changes, and the fiber may move on with it. */
  lemma PutSound(s: Service, j: nat, job: Job, f: Fiber)
    requires Sound(s) && j in s.jobs && job.accepted == s.jobs[j].accepted
    requires var r := Put(s, j, job).(fiber := f); Placed(r) && Fits(job, RoleOf(r, j))
    requires forall k :: k != j ==> FiberRole(f, k) == FiberRole(s.fiber, k)
    ensures Sound(Put(s, j, job).(fiber := f))
  {
    var r := Put(s, j, job).(fiber := f);
    forall k | k in r.jobs
      ensures Fits(r.jobs[k], RoleOf(r, k))
    {
      if k != j { assert Fits(s.jobs[k], RoleOf(s, k)); }
    }
  }

  /** Inside finish_job, the fiber moves on with its job or without it. */
  lemma PlacedOn(s: Service, j: nat, job: Job, f: Fiber)
    requires Placed(s) && s.active == None && About(s.fiber) == Some(j) && !s.fiber.Ready? && !s.fiber.Decoding?
    requires (About(f) == Some(j) || About(f) == None) && !f.Ready? && !f.Decoding? && !f.Unstarted? && !f.Stopped?
    requires DrainingAt(f) == DrainingAt(s.fiber) && (f.Ending? || f.Marking? ==> Terminal(f.status))
    ensures Placed(Put(s, j, job).(fiber := f))
    ensures forall k :: k != j ==> FiberRole(f, k) == FiberRole(s.fiber, k)
    ensures RoleOf(s, j) == FiberRole(s.fiber, j) && RoleOf(Put(s, j, job).(fiber := f), j) == FiberRole(f, j)
  {
  }

  lemma CancelSound(s: Service, e: Event)
    requires Sound(s) && Enabled(s, e) && e.Cancel?
    ensures Sound(Next(s, e))
  {
    var job := s.jobs[e.job];
    assert Fits(job, RoleOf(s, e.job));
    if job.status.Created? {
      PutSound(s, e.job, job.(status := Cancelled, decoder := false), s.fiber);
    } else if !Terminal(job.status) {
      PutSound(s, e.job, job.(cancelRequested := true), s.fiber);
    }
  }

  lemma DestroySound(s: Service, e: Event)
    requires Sound(s) && Enabled(s, e) && e.Destroy?
    ensures Sound(Next(s, e))
  {
    var job := s.jobs[e.job];
    assert Fits(job, RoleOf(s, e.job));
    if DestroyReply(job) == Done { PutSound(s, e.job, job.(decoder := false, destroyed := true), s.fiber); }
  }

  lemma MoveSound(s: Service, e: Event)
    requires Sound(s) && Enabled(s, e) && (e.Start? || e.StopSeen? || e.Yield? || e.Leave?)
    ensures Sound(Next(s, e))
  {
    assert forall j :: j in s.jobs ==> RoleOf(Next(s, e), j) == RoleOf(s, j);
  }

  lemma PopSound(s: Service, f: Fiber)
    requires Sound(s) && s.queue != [] && s.active == None && About(s.fiber) == None
    requires (f == Popped(s.queue[0]) && s.fiber.Top?) || (f == Ending(s.queue[0], Cancelled, true) && s.fiber.Draining?)
    ensures Sound(Pop(s, f))
  {
    var r, j := Pop(s, f), s.queue[0];
    assert s.queue == [j] + r.queue;
    assert r.taken + r.queue == s.taken + s.queue;
    Front(s);
    assert Fits(s.jobs[j], InQueue);
    forall k | k in r.jobs
      ensures Fits(r.jobs[k], RoleOf(r, k))
    {
      assert Fits(s.jobs[k], RoleOf(s, k));
    }
  }

  /** The oldest job is in the queue once. */
  lemma Front(s: Service)
    requires InOrder(s) && s.queue != []
    ensures s.queue[0] !in s.queue[1..] && s.queue[0] in s.jobs
  {
    var n := |s.taken|;
    assert s.accepted[n] == s.queue[0];
    forall k | 1 <= k < |s.queue|
      ensures s.queue[k] != s.queue[0]
    {
      assert s.accepted[n + k] == s.queue[k];
    }
  }

  lemma LookSound(s: Service, e: Event)
    requires Sound(s) && Enabled(s, e) && e.Look?
    ensures Sound(Next(s, e))
  {
    if s.active == None && s.queue != [] {
      PopSound(s, Popped(s.queue[0]));
    } else {
      assert forall j :: j in s.jobs ==> RoleOf(Next(s, e), j) == RoleOf(s, j);
    }
  }

  lemma DrainSound(s: Service, e: Event)
    requires Sound(s) && Enabled(s, e) && e.Drain?
    ensures Sound(Next(s, e))
  {
    if s.active.Some? {
      assert Fits(s.jobs[s.active.value], AtActive);
    } else if s.queue != [] {
      PopSound(s, Ending(s.queue[0], Cancelled, true));
    }
  }

  lemma HoldSound(s: Service, e: Event)
    requires Sound(s) && Enabled(s, e) && e.Hold?
    ensures Sound(Next(s, e))
  {
    assert Fits(s.jobs[s.fiber.job], RoleOf(s, s.fiber.job));
  }

  lemma DecodeSound(s: Service, e: Event)
    requires Sound(s) && Enabled(s, e) && e.Decode?
    ensures Sound(Next(s, e))
  {
    assert Fits(s.jobs[s.fiber.job], RoleOf(s, s.fiber.job));
  }

  lemma CheckSound(s: Service, e: Event)
    requires Sound(s) && Enabled(s, e) && e.Check?
    ensures Sound(Next(s, e))
  {
    var j, job := s.fiber.job, s.jobs[s.fiber.job];
    assert Fits(job, RoleOf(s, j));
    if !job.cancelRequested { PutSound(s, j, job.(status := Running), Decoding(j)); }
  }

  lemma FreeSound(s: Service, e: Event)
    requires Sound(s) && Enabled(s, e) && e.FreeDecoder?
    ensures Sound(Next(s, e))
  {
    var j, job := s.fiber.job, s.jobs[s.fiber.job];
    assert Fits(job, RoleOf(s, j));
    PlacedOn(s, j, job.(decoder := false), Marking(j, s.fiber.status, s.fiber.draining));
    PutSound(s, j, job.(decoder := false), Marking(j, s.fiber.status, s.fiber.draining));
  }

  /** A job after the section of finish_job that makes it terminal. */
  function Marked(job: Job, status: Status): (r: Job)
  {
    job.(owned := false, status := status, pending := job.callback, finishes := job.finishes + 1)
  }

  lemma MarkIs(s: Service, e: Event)
    requires Enabled(s, e) && e.Mark?
    ensures var j, job := s.fiber.job, s.jobs[s.fiber.job];
            Next(s, e) == Put(s, j, Marked(job, s.fiber.status)).(fiber := if job.callback then Announcing(j, s.fiber.draining) else Back(s.fiber.draining))
  {
  }

  lemma MarkedSound(s: Service, j: nat, status: Status, f: Fiber)
    requires Sound(s) && j in s.jobs && s.fiber.Marking? && s.fiber.job == j && s.fiber.status == status
    requires f == if s.jobs[j].callback then Announcing(j, s.fiber.draining) else Back(s.fiber.draining)
    ensures Sound(Put(s, j, Marked(s.jobs[j], status)).(fiber := f))
  {
    assert Fits(s.jobs[j], RoleOf(s, j));
    PlacedOn(s, j, Marked(s.jobs[j], status), f);
    PutSound(s, j, Marked(s.jobs[j], status), f);
  }

  lemma MarkSound(s: Service, e: Event)
    requires Sound(s) && Enabled(s, e) && e.Mark?
    ensures Sound(Next(s, e))
  {
    var j, job := s.fiber.job, s.jobs[s.fiber.job];
    MarkIs(s, e);
    MarkedSound(s, j, s.fiber.status, if job.callback then Announcing(j, s.fiber.draining) else Back(s.fiber.draining));
  }

  lemma AnnounceSound(s: Service, e: Event)
    requires Sound(s) && Enabled(s, e) && e.Announce?
    ensures Sound(Next(s, e))
  {
    var j, job := s.fiber.job, s.jobs[s.fiber.job];
    assert Fits(job, RoleOf(s, j));
    var after := job.(pending := false, running := true, calls := job.calls + 1);
    PlacedOn(s, j, after, Calling(j, s.fiber.draining));
    PutSound(s, j, after, Calling(j, s.fiber.draining));
  }

  lemma ReturnSound(s: Service, e: Event)
    requires Sound(s) && Enabled(s, e) && e.Return?
    ensures Sound(Next(s, e))
  {
    var j, job := s.fiber.job, s.jobs[s.fiber.job];
    assert Fits(job, RoleOf(s, j));
    PlacedOn(s, j, job.(running := false), Back(s.fiber.draining));
    PutSound(s, j, job.(running := false), Back(s.fiber.draining));
  }

  lemma StepSound(s: Service, e: Event)
    requires Sound(s) && Enabled(s, e)
    ensures Sound(Next(s, e))
  {
    match e {
      case Create(_, _) => CreateSound(s, e);
      case Submit(_) => SubmitSound(s, e);
      case Cancel(_) => CancelSound(s, e);
      case Destroy(_) => DestroySound(s, e);
      case Look(_) => LookSound(s, e);
      case Hold => HoldSound(s, e);
      case Decode(_) => DecodeSound(s, e);
      case Check => CheckSound(s, e);
      case FreeDecoder => FreeSound(s, e);
      case Mark => MarkSound(s, e);
      case Announce => AnnounceSound(s, e);
      case Return => ReturnSound(s, e);
      case Drain => DrainSound(s, e);
      case _ => MoveSound(s, e);
    }
  }

  // ---------------------------------------------------------------- runs

  /** The states of a run: steps that were enabled, one after the other. */
  ghost predicate IsRun(states: seq<Service>, events: seq<Event>)
  {
    && |states| == |events| + 1 && states[0] == Fresh(states[0].capacity)
    && forall i :: 0 <= i < |events| ==> Enabled(states[i], events[i]) && states[i + 1] == Next(states[i], events[i])
  }

  lemma {:induction false} RunSound(states: seq<Service>, events: seq<Event>, i: nat)
    requires IsRun(states, events) && i <= |events|
    ensures Sound(states[i])
  {
    if i > 0 {
      RunSound(states, events, i - 1);
      StepSound(states[i - 1], events[i - 1]);
    }
  }

  /** Under every interleaving: the fiber touches no job that has been destroyed, nor one that could be now. */
  lemma NoTouchAfterDestroy(states: seq<Service>, events: seq<Event>, i: nat)
    requires IsRun(states, events) && i <= |events| && About(states[i].fiber).Some?
    ensures var j := About(states[i].fiber).value;
            j in states[i].jobs && !states[i].jobs[j].destroyed && DestroyReply(states[i].jobs[j]) == Busy
  {
    RunSound(states, events, i);
    var s, j := states[i], About(states[i].fiber).value;
    assert Fits(s.jobs[j], RoleOf(s, j));
  }

  /** Jobs are taken in the order in which they were accepted. */
  lemma Fifo(states: seq<Service>, events: seq<Event>, i: nat)
    requires IsRun(states, events) && i <= |events|
    ensures states[i].taken <= states[i].accepted && states[i].accepted == states[i].taken + states[i].queue
    ensures states[i].fiber.Stopped? ==> states[i].taken == states[i].accepted
  {
    RunSound(states, events, i);
  }

  /** A job that is not finished is in the queue or in the fiber's hands, never both. */
  lemma OnePlace(states: seq<Service>, events: seq<Event>, i: nat, j: nat)
    requires IsRun(states, events) && i <= |events| && j in states[i].accepted
    ensures var s := states[i];
            j in s.jobs && (s.jobs[j].finishes == 0 <==> j in s.queue || s.active == Some(j) || FiberRole(s.fiber, j) in {AtPop, AtEnd, AtMark})
    ensures var s := states[i]; j in s.queue ==> s.active != Some(j) && FiberRole(s.fiber, j) == Outside
  {
    RunSound(states, events, i);
    assert Fits(states[i].jobs[j], RoleOf(states[i], j));
  }

  /** No job is finished twice, nor called back twice; when the service has stopped, all it accepted are, once. */
  lemma ExactlyOnce(states: seq<Service>, events: seq<Event>, i: nat, j: nat)
    requires IsRun(states, events) && i <= |events| && j in states[i].jobs
    ensures var job := states[i].jobs[j]; job.calls <= job.finishes <= 1 && (job.finishes == 1 ==> job.accepted && Terminal(job.status))
    ensures states[i].fiber.Stopped? && j in states[i].accepted ==>
              var job := states[i].jobs[j]; job.finishes == 1 && job.calls == if job.callback then 1 else 0
  {
    RunSound(states, events, i);
    assert Fits(states[i].jobs[j], RoleOf(states[i], j));
  }

  lemma StoppedStep(s: Service, e: Event)
    requires Sound(s) && Enabled(s, e) && s.fiber.Stopped?
    ensures Next(s, e).fiber.Stopped? && Next(s, e).queue == [] && Next(s, e).accepted == s.accepted
  {
  }

  /** Once stopped, the service accepts nothing any more. */
  lemma {:induction false} StaysStopped(states: seq<Service>, events: seq<Event>, i: nat, k: nat)
    requires IsRun(states, events) && i <= k <= |events| && states[i].fiber.Stopped?
    ensures states[k].fiber.Stopped? && states[k].queue == [] && states[k].active == None && states[k].accepted == states[i].accepted
  {
    if i < k {
      StaysStopped(states, events, i, k - 1);
      StoppedAfter(states, events, k - 1);
    } else {
      StoppedNow(states, events, k);
    }
  }

  lemma StoppedNow(states: seq<Service>, events: seq<Event>, k: nat)
    requires IsRun(states, events) && k <= |events| && states[k].fiber.Stopped?
    ensures states[k].queue == [] && states[k].active == None
  {
    RunSound(states, events, k);
    StoppedIdle(states[k]);
  }

  lemma StoppedAfter(states: seq<Service>, events: seq<Event>, k: nat)
    requires IsRun(states, events) && k < |events| && states[k].fiber.Stopped?
    ensures states[k + 1].fiber.Stopped? && states[k + 1].accepted == states[k].accepted
    ensures states[k + 1].queue == [] && states[k + 1].active == None
  {
    RunSound(states, events, k);
    StoppedStep(states[k], events[k]);
    StoppedNow(states, events, k + 1);
  }

  lemma StoppedIdle(s: Service)
    requires Sound(s) && s.fiber.Stopped?
    ensures s.queue == [] && s.active == None
  {
  }

  lemma FinalStep(s: Service, e: Event, j: nat)
    requires Sound(s) && Enabled(s, e) && j in s.jobs && Terminal(s.jobs[j].status)
    ensures j in Next(s, e).jobs && Next(s, e).jobs[j].status == s.jobs[j].status
  {
    assert Fits(s.jobs[j], RoleOf(s, j));
    if e.Check? || e.Mark? { NotTerminal(s, s.fiber.job); }
  }

  /** What the fiber works on is not finished before its mark. */
  lemma NotTerminal(s: Service, k: nat)
    requires Sound(s) && (s.fiber.Ready? || s.fiber.Marking?) && s.fiber.job == k
    ensures k in s.jobs && !Terminal(s.jobs[k].status)
  {
    assert Fits(s.jobs[k], RoleOf(s, k));
  }

  /** A terminal status is final. */
  lemma {:induction false} Final(states: seq<Service>, events: seq<Event>, i: nat, k: nat, j: nat)
    requires IsRun(states, events) && i <= k <= |events| && j in states[i].jobs && Terminal(states[i].jobs[j].status)
    ensures j in states[k].jobs && states[k].jobs[j].status == states[i].jobs[j].status
  {
    if i < k {
      Final(states, events, i, k - 1, j);
      RunSound(states, events, k - 1);
      FinalStep(states[k - 1], events[k - 1], j);
    }
  }
}
