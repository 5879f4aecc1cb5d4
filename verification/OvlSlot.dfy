/**
 The slot protocol of libkosoverlay.  Every step is one section under the slot's mutex, or one
 by the thread that owns the slot's operation; runs are any sequences of such steps, of any
 number of threads.
 */
module OvlSlot {
  import opened Basics

  const MAX_GENERATION := 0xFFFF_FFFF_FFFF_FFFF

  /** A token, zeroed when it is not out. */
  class Token {
    var held: bool
    var next: Token?
    var generation: nat

    constructor ()
      ensures !held && next == null && generation == 0
    {
      held, next, generation := false, null, 0;
    }
  }

  /** What the owner of the operation is doing, if there is one. */
  datatype Phase = Free | Loading | Writing | Unloading

  /** What an outstanding token stands for: the generation, and the contents of the slot then. */
  datatype Lease = Lease(generation: nat, image: seq<byte>)

  /** A slot.  `image` is its contents, `admitted` those last admitted. */
  datatype Slot = Slot(active: bool, phase: Phase, generation: nat, tokens: map<Token, Lease>, pending: bool, translated: bool,
                       image: seq<byte>, admitted: seq<byte>)

  /**
   The steps: ovl_acquire, ovl_release and the claims of ovl_load and ovl_unload; of the owner,
   a failure while nothing is lost yet, the point of no return, a change to the contents, and
   the ends of a load and of an unload.
   */
  datatype Event =
    | Acquire(token: Token, contextOk: bool)
    | Release(token: Token)
    | ClaimLoad
    | ClaimUnload
    | FailEarly
    | Begin
    | Write(image: seq<byte>)
    | Admit
    | FailLate(retired: bool)
    | Retire(retired: bool)

  datatype Result = Done | Busy | Missing | Invalid | Overflow | BadContext

  function Empty(translated: bool, image: seq<byte>): (s: Slot)
  {
    Slot(false, Free, 0, map[], false, translated, image, image)
  }

  // ---------------------------------------------------------------- steps

  /** Which steps of the owner can come next.  Those of others can come at any time. */
  predicate Enabled(s: Slot, e: Event)
  {
    match e
    case FailEarly => s.phase.Loading?
    case Begin => s.phase.Loading?
    case Write(_) => s.phase.Writing? || (s.phase.Unloading? && s.translated)
    case Admit => s.phase.Writing?
    case FailLate(retired) => s.phase.Writing? && (retired || s.translated)
    case Retire(retired) => s.phase.Unloading? && (retired || s.translated)
    case _ => true
  }

  /** What a step reports. */
  function Report(s: Slot, e: Event): (r: Result)
  {
    match e
    case Acquire(t, contextOk) =>
      if !s.phase.Free? || t in s.tokens then Busy
      else if !s.active then Missing
      else if s.translated && !contextOk then BadContext
      else Done
    case Release(t) => if !s.phase.Free? then Busy else if t !in s.tokens || s.tokens[t].generation != s.generation then Invalid else Done
    case ClaimLoad =>
      if !s.phase.Free? || s.tokens != map[] || s.pending then Busy
      else if s.generation == MAX_GENERATION then Overflow
      else Done
    case ClaimUnload => if !s.phase.Free? || s.tokens != map[] then Busy else Done
    case _ => Done
  }

  /** What it does: nothing, unless it reports success. */
  function Next(s: Slot, e: Event): (r: Slot)
  {
    if Report(s, e) != Done then s
    else
      match e
      case Acquire(t, _) => s.(tokens := s.tokens[t := Lease(s.generation, s.image)])
      case Release(t) => s.(tokens := s.tokens - {t})
      case ClaimLoad => s.(phase := Loading)
      case ClaimUnload => s.(phase := Unloading)
      case FailEarly => s.(phase := Free, pending := false)
      case Begin => s.(phase := Writing)
      case Write(image) => s.(image := image)
      case Admit => s.(phase := Free, pending := false, active := true, generation := s.generation + 1, admitted := s.image)
      case FailLate(retired) => s.(phase := Free, pending := !retired, active := false)
      case Retire(retired) => s.(phase := Free, pending := !retired, active := false)
  }

  /** What every run keeps. */
  ghost predicate Sound(s: Slot)
  {
    && s.generation <= MAX_GENERATION
    && (s.tokens != map[] ==> s.active && s.phase.Free?)
    && (forall t :: t in s.tokens ==> s.tokens[t] == Lease(s.generation, s.image))
    && (s.pending ==> !s.active && s.translated && (s.phase.Free? || s.phase.Unloading?))
    && (s.active && (s.phase.Free? || s.phase.Loading?) ==> s.image == s.admitted)
    && (s.phase.Loading? || s.phase.Writing? ==> s.generation < MAX_GENERATION)
  }

  type SoundSlot = s: Slot | Sound(s) witness Empty(false, [])

  lemma StepSound(s: Slot, e: Event)
    requires Sound(s) && Enabled(s, e)
    ensures Sound(Next(s, e))
  {
  }

  // ---------------------------------------------------------------- runs

  ghost function After(s: Slot, es: seq<Event>): (r: Slot)
  {
    if es == [] then s else Next(After(s, es[..|es| - 1]), es[|es| - 1])
  }

  ghost predicate IsRun(s: Slot, es: seq<Event>)
  {
    es == [] || (IsRun(s, es[..|es| - 1]) && Enabled(After(s, es[..|es| - 1]), es[|es| - 1]))
  }

  lemma {:induction false} RunSound(s: Slot, es: seq<Event>)
    requires Sound(s) && IsRun(s, es)
    ensures Sound(After(s, es))
  {
    if es != [] {
      RunSound(s, es[..|es| - 1]);
      StepSound(After(s, es[..|es| - 1]), es[|es| - 1]);
    }
  }

  /** In every run from an empty slot, a token that is out means an admitted image, at rest. */
  lemma Residency(translated: bool, image: seq<byte>, es: seq<Event>, t: Token)
    requires IsRun(Empty(translated, image), es) && t in After(Empty(translated, image), es).tokens
    ensures var s := After(Empty(translated, image), es);
            s.active && s.phase.Free? && !s.pending && s.tokens[t] == Lease(s.generation, s.image) && s.image == s.admitted
  {
    RunSound(Empty(translated, image), es);
  }

  lemma HeldStep(s: Slot, e: Event, t: Token)
    requires Sound(s) && Enabled(s, e) && t in s.tokens && e != Release(t)
    ensures var r := Next(s, e);
            t in r.tokens && r.image == s.image && r.generation == s.generation && r.active && r.tokens[t] == s.tokens[t]
  {
  }

  /** While a token is out, whatever others do, the image and its generation stay. */
  lemma {:induction false} HeldThroughout(s: Slot, es: seq<Event>, t: Token)
    requires Sound(s) && IsRun(s, es) && t in s.tokens && Release(t) !in es
    ensures var r := After(s, es);
            t in r.tokens && r.image == s.image && r.generation == s.generation && r.active && r.tokens[t] == s.tokens[t]
  {
    if es != [] {
      var front := es[..|es| - 1];
      HeldThroughout(s, front, t);
      RunSound(s, front);
      HeldStep(After(s, front), es[|es| - 1], t);
    }
  }

  ghost function Admissions(es: seq<Event>): (n: nat)
  {
    if es == [] then 0 else Admissions(es[..|es| - 1]) + if es[|es| - 1].Admit? then 1 else 0
  }

  /** Only admissions raise the generation, each by one. */
  lemma {:induction false} GenerationCounts(s: Slot, es: seq<Event>)
    ensures After(s, es).generation == s.generation + Admissions(es)
  {
    if es != [] { GenerationCounts(s, es[..|es| - 1]); }
  }

  /** The last end of a load past its point of no return, or of an unload. */
  ghost function LastEnd(es: seq<Event>): (e: Option<Event>)
  {
    if es == [] then None
    else
      var last := es[|es| - 1];
      if last.Admit? || last.FailLate? || last.Retire? then Some(last) else LastEnd(es[..|es| - 1])
  }

  /**
   A slot is active just when the last such end was an admission: a load that failed after
   its point of no return leaves it inactive, one that failed before leaves it as it was.
   */
  lemma {:induction false} ActiveIff(translated: bool, image: seq<byte>, es: seq<Event>)
    ensures var s := After(Empty(translated, image), es); s.active <==> LastEnd(es) == Some(Admit)
  {
    if es != [] { ActiveIff(translated, image, es[..|es| - 1]); }
  }

  /** A failure before the point of no return leaves everything as it was before the claim. */
  lemma EarlyFailure(s: Slot, es: seq<Event>)
    requires Sound(s) && Report(s, ClaimLoad) == Done && IsRun(Next(s, ClaimLoad), es)
    requires forall e :: e in es ==> e.Acquire? || e.Release? || e.ClaimLoad? || e.ClaimUnload?
    ensures After(Next(s, ClaimLoad), es) == Next(s, ClaimLoad) && Next(Next(s, ClaimLoad), FailEarly) == s
  {
    OthersRefused(Next(s, ClaimLoad), es);
  }

  /** While an operation is owned, the steps of others change nothing. */
  lemma {:induction false} OthersRefused(s: Slot, es: seq<Event>)
    requires !s.phase.Free?
    requires forall e :: e in es ==> e.Acquire? || e.Release? || e.ClaimLoad? || e.ClaimUnload?
    ensures After(s, es) == s
  {
    if es != [] {
      assert es[|es| - 1] in es;
      OthersRefused(s, es[..|es| - 1]);
    }
  }
}
