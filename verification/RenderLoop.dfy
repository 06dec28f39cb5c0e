/**
 The slideshow of ambience/render.c as two interleaved threads: the render thread, which waits,
 fetches and paints, and the D-Bus thread, which counts presses, pauses, resumes and swaps the
 framebuffer. One step is one access to an atomic, the semaphore or a buffer under `drm_mutex`.
 */
module RenderLoop {
  /** Where the render thread is: wait_or_stop, then the rest of render_thread_fn. */
  datatype Thread =
    | Top(wasReady: bool)
    | CheckActive(wasReady: bool)
    | CheckSize(wasReady: bool)
    | WaitReady                     // blocked in sem_wait: paused, or no framebuffer
    | WaitTurn                      // blocked in sem_timedwait: ready to advance
    | RecheckActive
    | RecheckSize
    | Draining
    | TakeSkip
    | Fetching(back: bool)
    | AtLock(image: bool)
    | Locked(image: bool)
    | Painting
    | Unlocking
    | Stopped

  /** Where the D-Bus thread is inside a call. */
  datatype Caller =
    | Idle
    | DecodeFallback
    | LockFallback
    | PaintFallback
    | UnlockFallback
    | LockFb(fb: bool, size: bool)
    | StoreFb(fb: bool, size: bool)
    | UnlockFb
    | CheckPaused
    | ToPost                        // the change is made, the sem_post is still to come
    | ToPostStop
    | Joining

  datatype Owner = Free | ByThread | ByCaller

  datatype Picture = Blank | Frame | Fallback

  /** The atomics and the semaphore. `taken` sums up the skips the render thread exchanged. */
  datatype Shared = Shared(running: bool, active: bool, size: bool, sem: nat, skip: int, taken: int) {
    predicate Ready() {
      active && size
    }
  }

  /**
   What drm_mutex protects. `paused` is set while a fallback painted for a pause must still be up:
   since then the slideshow was not activated and the framebuffer not changed.
   */
  datatype Screen = Screen(owner: Owner, fb: bool, shows: Picture, paused: bool)

  datatype Sys = Sys(sh: Shared, scr: Screen, thread: Thread, caller: Caller)

  datatype Step =
    // render thread
    | LoadRunning | LoadActive | LoadSize | SemWait | Interrupted | TimedOut
    | ReloadActive | ReloadSize | TryWait | ExchangeSkip | FetchPhoto(image: bool)
    | Lock | LoadCanRender | Paint | Unlock
    // D-Bus thread
    | Next | Prev | SetActive(on: bool) | SetFb(fb: bool, size: bool) | Stop
    | Decode(ok: bool) | CallerLock | CallerWrite | CallerUnlock | LoadPaused | Post

  predicate OfThread(st: Step) {
    st.LoadRunning? || st.LoadActive? || st.LoadSize? || st.SemWait? || st.Interrupted? || st.TimedOut?
    || st.ReloadActive? || st.ReloadSize? || st.TryWait? || st.ExchangeSkip? || st.FetchPhoto?
    || st.Lock? || st.LoadCanRender? || st.Paint? || st.Unlock?
  }

  predicate Enabled(s: Sys, st: Step) {
    match st
    case LoadRunning => s.thread.Top?
    case LoadActive => s.thread.CheckActive?
    case LoadSize => s.thread.CheckSize?
    case SemWait => (s.thread.WaitReady? || s.thread.WaitTurn?) && s.sh.sem > 0
    case Interrupted => s.thread.WaitReady? || s.thread.WaitTurn?
    case TimedOut => s.thread.WaitTurn?
    case ReloadActive => s.thread.RecheckActive?
    case ReloadSize => s.thread.RecheckSize?
    case TryWait => s.thread.Draining?
    case ExchangeSkip => s.thread.TakeSkip?
    case FetchPhoto(_) => s.thread.Fetching?
    case Lock => s.thread.AtLock? && s.scr.owner.Free?
    case LoadCanRender => s.thread.Locked?
    case Paint => s.thread.Painting?
    case Unlock => s.thread.Unlocking?
    case Next => s.caller.Idle?
    case Prev => s.caller.Idle?
    case SetActive(_) => s.caller.Idle?
    case SetFb(_, _) => s.caller.Idle?
    case Stop => s.caller.Idle?
    case Decode(_) => s.caller.DecodeFallback?
    case CallerLock => (s.caller.LockFallback? || s.caller.LockFb?) && s.scr.owner.Free?
    case CallerWrite => s.caller.PaintFallback? || s.caller.StoreFb?
    case CallerUnlock => s.caller.UnlockFallback? || s.caller.UnlockFb?
    case LoadPaused => s.caller.CheckPaused?
    case Post => s.caller.ToPost? || s.caller.ToPostStop?
  }

  function DoThread(s: Sys, st: Step): Sys
    requires Enabled(s, st) && OfThread(st)
  {
    var sh, scr := s.sh, s.scr;
    match st
    case LoadRunning => s.(thread := if sh.running then CheckActive(s.thread.wasReady) else Stopped)
    case LoadActive => s.(thread := if sh.active then CheckSize(s.thread.wasReady) else WaitReady)
    case LoadSize =>
      s.(thread := if !sh.size then WaitReady else if s.thread.wasReady then WaitTurn else Draining)
    case SemWait =>
      s.(sh := sh.(sem := sh.sem - 1), thread := if s.thread.WaitReady? then Top(false) else RecheckActive)
    case Interrupted => s.(thread := Top(s.thread.WaitTurn?))
    case TimedOut => s.(thread := Draining)
    case ReloadActive => s.(thread := if sh.active then RecheckSize else Top(true))
    case ReloadSize => s.(thread := if sh.size then Draining else Top(true))
    case TryWait =>
      if sh.sem > 0 then s.(sh := sh.(sem := sh.sem - 1)) else s.(thread := TakeSkip)
    case ExchangeSkip =>
      s.(sh := sh.(skip := 0, taken := sh.taken + sh.skip), thread := Fetching(sh.skip < 0))
    case FetchPhoto(image) => s.(thread := AtLock(image))
    case Lock => s.(scr := scr.(owner := ByThread), thread := Locked(s.thread.image))
    case LoadCanRender =>
      s.(thread := if s.thread.image && scr.fb && sh.active then Painting else Unlocking)
    case Paint => s.(scr := scr.(shows := Frame), thread := Unlocking)
    case Unlock => s.(scr := scr.(owner := Free), thread := Top(true))
  }

  function DoCaller(s: Sys, st: Step): Sys
    requires Enabled(s, st) && !OfThread(st)
  {
    var sh, scr := s.sh, s.scr;
    match st
    case Next => s.(sh := sh.(skip := sh.skip + 1), caller := ToPost)
    case Prev => s.(sh := sh.(skip := sh.skip - 1), caller := ToPost)
    case SetActive(on) =>
      if on == sh.active then s
      else s.(sh := sh.(active := on), scr := scr.(paused := scr.paused && !on),
              caller := if on then ToPost else DecodeFallback)
    case SetFb(fb, size) => s.(caller := LockFb(fb, size))
    case Stop => s.(sh := sh.(running := false), caller := ToPostStop)
    case Decode(ok) => s.(caller := if ok then LockFallback else ToPost)
    case CallerLock =>
      s.(scr := scr.(owner := ByCaller),
         caller := if s.caller.LockFallback? then PaintFallback else StoreFb(s.caller.fb, s.caller.size))
    case CallerWrite =>
      if s.caller.PaintFallback? then
        s.(scr := if scr.fb then scr.(shows := Fallback, paused := true) else scr, caller := UnlockFallback)
      else
        s.(scr := scr.(fb := s.caller.fb, shows := Blank, paused := false), sh := sh.(size := s.caller.size),
           caller := UnlockFb)
    case CallerUnlock =>
      s.(scr := scr.(owner := Free), caller := if s.caller.UnlockFallback? then ToPost else CheckPaused)
    case LoadPaused => s.(caller := if sh.active then ToPost else DecodeFallback)
    case Post =>
      s.(sh := sh.(sem := sh.sem + 1), caller := if s.caller.ToPost? then Idle else Joining)
  }

  function Do(s: Sys, st: Step): Sys
    requires Enabled(s, st)
  {
    if OfThread(st) then DoThread(s, st) else DoCaller(s, st)
  }

  predicate Init(s: Sys) {
    && s.sh == Shared(true, false, false, 0, 0, 0)
    && s.scr == Screen(Free, false, Blank, false)
    && s.thread == Top(true) && s.caller == Idle
  }

  ghost predicate Run(s: Sys, steps: seq<Step>, t: Sys)
    decreases |steps|
  {
    if steps == [] then s == t
    else Enabled(s, steps[0]) && Run(Do(s, steps[0]), steps[1..], t)
  }

  // ---- Presses and wake-ups ----

  /** No wake-up is pending and no D-Bus call is between its change and its sem_post. */
  predicate Quiet(s: Sys) {
    s.sh.sem == 0 && (s.caller.Idle? || s.caller.Joining?)
  }

  /** What the render thread may rely on at each place when nothing is about to wake it. */
  predicate Current(s: Sys) {
    var nothingToDo := s.sh.skip == 0 || !s.sh.Ready();
    match s.thread
    case Top(was) => was ==> nothingToDo
    case CheckActive(was) => s.sh.running && (was ==> nothingToDo)
    case CheckSize(was) => s.sh.running && s.sh.active && (was ==> nothingToDo)
    case WaitReady => s.sh.running && !s.sh.Ready()
    case WaitTurn => s.sh.running && s.sh.Ready() && s.sh.skip == 0
    case RecheckActive => true
    case RecheckSize => true
    case Draining => true
    case TakeSkip => true
    case Stopped => true
    case _ => s.sh.skip == 0
  }

  predicate Awake(s: Sys) {
    && (Quiet(s) ==> Current(s))
    && (s.thread.Stopped? ==> !s.sh.running)
  }

  lemma AwakeThread(s: Sys, st: Step)
    requires Awake(s) && Enabled(s, st) && OfThread(st)
    ensures Awake(DoThread(s, st))
  {
  }

  lemma AwakeCaller(s: Sys, st: Step)
    requires Awake(s) && Enabled(s, st) && !OfThread(st)
    ensures Awake(DoCaller(s, st))
  {
  }

  // ---- The mutex and the pause ----

  predicate Guarded(s: Sys) {
    && (s.thread.Locked? || s.thread.Painting? || s.thread.Unlocking? <==> s.scr.owner == ByThread)
    && (s.caller.PaintFallback? || s.caller.UnlockFallback? || s.caller.StoreFb? || s.caller.UnlockFb?
        <==> s.scr.owner == ByCaller)
    && (s.caller.DecodeFallback? || s.caller.LockFallback? || s.caller.PaintFallback? ==> !s.sh.active)
    && (s.scr.paused ==> !s.sh.active && s.scr.shows == Fallback && !s.thread.Painting?)
  }

  lemma GuardedThread(s: Sys, st: Step)
    requires Guarded(s) && Enabled(s, st) && OfThread(st)
    ensures Guarded(DoThread(s, st))
  {
  }

  lemma GuardedCaller(s: Sys, st: Step)
    requires Guarded(s) && Enabled(s, st) && !OfThread(st)
    ensures Guarded(DoCaller(s, st))
  {
  }

  lemma {:induction false} SafeFrom(s: Sys, steps: seq<Step>, t: Sys)
    requires Awake(s) && Guarded(s) && Run(s, steps, t)
    ensures Awake(t) && Guarded(t)
    decreases |steps|
  {
    if steps == [] {
    } else {
      var st := steps[0];
      if OfThread(st) {
        AwakeThread(s, st);
        GuardedThread(s, st);
      } else {
        AwakeCaller(s, st);
        GuardedCaller(s, st);
      }
      SafeFrom(Do(s, st), steps[1..], t);
    }
  }

  /** What the presses among the steps add up to: one for each "next", minus one for each "previous". */
  function Pressed(steps: seq<Step>): int {
    if steps == [] then 0
    else (if steps[0] == Next then 1 else if steps[0] == Prev then -1 else 0) + Pressed(steps[1..])
  }

  /** The same for the presses since the render thread last exchanged the counter. */
  function PressedSince(sum: int, steps: seq<Step>): int
    decreases |steps|
  {
    if steps == [] then sum
    else
      PressedSince(match steps[0] case ExchangeSkip => 0 case Next => sum + 1 case Prev => sum - 1 case _ => sum,
                   steps[1..])
  }

  lemma {:induction false} PressesCounted(s: Sys, steps: seq<Step>, t: Sys)
    requires Run(s, steps, t)
    ensures t.sh.taken + t.sh.skip == s.sh.taken + s.sh.skip + Pressed(steps)
    ensures t.sh.skip == PressedSince(s.sh.skip, steps)
    decreases |steps|
  {
    if steps == [] {
    } else {
      PressesCounted(Do(s, steps[0]), steps[1..], t);
    }
  }

  /** Every press is either already collected by a fetch or still in the counter. */
  lemma NoPressLost(s: Sys, steps: seq<Step>, t: Sys)
    requires Init(s) && Run(s, steps, t)
    ensures t.sh.taken + t.sh.skip == Pressed(steps)
  {
    PressesCounted(s, steps, t);
  }

  /** A fetch collects every press since the last one, and goes back exactly when they add up to a step back. */
  lemma StepsTheNetWay(s: Sys, steps: seq<Step>, t: Sys)
    requires Init(s) && Run(s, steps, t) && t.thread.TakeSkip?
    ensures var u := Do(t, ExchangeSkip);
      && u.thread == Fetching(PressedSince(0, steps) < 0)
      && u.sh.skip == 0 && u.sh.taken == t.sh.taken + PressedSince(0, steps) == Pressed(steps)
  {
    PressesCounted(s, steps, t);
  }

  /**
   The render thread never sleeps through a change: blocked with nothing about to wake it, it waits
   for its turn only with no press to serve, and waits to become ready only when it is not.
   */
  lemma NoLostWakeup(s: Sys, steps: seq<Step>, t: Sys)
    requires Init(s) && Run(s, steps, t) && Quiet(t)
    ensures t.thread.WaitTurn? ==> t.sh.running && t.sh.Ready() && t.sh.skip == PressedSince(0, steps) == 0
    ensures t.thread.WaitReady? ==> t.sh.running && !t.sh.Ready()
  {
    SafeFrom(s, steps, t);
    PressesCounted(s, steps, t);
  }

  // ---- Calls take effect ----

  /** The last of the values the calls asked for. */
  function AskedActive(on: bool, steps: seq<Step>): bool
    decreases |steps|
  {
    if steps == [] then on else AskedActive(if steps[0].SetActive? then steps[0].on else on, steps[1..])
  }

  function AskedFb(fb: bool, size: bool, steps: seq<Step>): (bool, bool)
    decreases |steps|
  {
    if steps == [] then (fb, size)
    else if steps[0].SetFb? then AskedFb(steps[0].fb, steps[0].size, steps[1..])
    else AskedFb(fb, size, steps[1..])
  }

  /** The framebuffer once one that is being attached is attached. */
  function Attaching(s: Sys): (bool, bool) {
    if s.caller.LockFb? || s.caller.StoreFb? then (s.caller.fb, s.caller.size) else (s.scr.fb, s.sh.size)
  }

  lemma CallStep(s: Sys, st: Step)
    requires Enabled(s, st)
    ensures Do(s, st).sh.active == if st.SetActive? then st.on else s.sh.active
    ensures Do(s, st).sh.running == (s.sh.running && !st.Stop?)
    ensures Attaching(Do(s, st)) == if st.SetFb? then (st.fb, st.size) else Attaching(s)
  {
  }

  lemma {:induction false} ActiveFrom(s: Sys, steps: seq<Step>, t: Sys)
    requires Run(s, steps, t)
    ensures t.sh.active == AskedActive(s.sh.active, steps) && t.sh.running == (s.sh.running && Stop !in steps)
    decreases |steps|
  {
    if steps == [] {
    } else {
      CallStep(s, steps[0]);
      ActiveFrom(Do(s, steps[0]), steps[1..], t);
      assert Stop in steps <==> steps[0].Stop? || Stop in steps[1..];
    }
  }

  lemma {:induction false} AttachingFrom(s: Sys, steps: seq<Step>, t: Sys)
    requires Run(s, steps, t)
    ensures Attaching(t) == AskedFb(Attaching(s).0, Attaching(s).1, steps)
    decreases |steps|
  {
    if steps == [] {
    } else {
      CallStep(s, steps[0]);
      AttachingFrom(Do(s, steps[0]), steps[1..], t);
    }
  }

  /** The slideshow is active, running and on the framebuffer that the calls made it last. */
  lemma CallsTakeEffect(s: Sys, steps: seq<Step>, t: Sys)
    requires Init(s) && Run(s, steps, t)
    ensures t.sh.active == AskedActive(false, steps) && t.sh.running == (Stop !in steps)
    ensures !t.caller.LockFb? && !t.caller.StoreFb? ==> (t.scr.fb, t.sh.size) == AskedFb(false, false, steps)
  {
    ActiveFrom(s, steps, t);
    AttachingFrom(s, steps, t);
  }

  // ---- A press is served ----

  /** A press waits to be collected, the slideshow is ready, and no D-Bus call is under way. */
  predicate PressWaits(s: Sys) {
    Awake(s) && Guarded(s) && s.caller.Idle? && s.sh.running && s.sh.Ready() && s.sh.skip != 0
  }

  /** How many steps the render thread is at most away from collecting it: it may first finish another round. */
  function Away(s: Sys): nat {
    s.sh.sem + match s.thread
               case TakeSkip => 1
               case Draining => 2
               case RecheckSize => 3
               case RecheckActive => 4
               case WaitTurn => 5
               case CheckSize(_) => 6
               case CheckActive(_) => 7
               case Top(_) => 8
               case WaitReady => 8
               case Unlocking => 9
               case Painting => 10
               case Locked(_) => 11
               case AtLock(_) => 12
               case Fetching(_) => 13
               case Stopped => 0
  }

  /** What the render thread does next, unless a signal interrupts a wait. */
  function Onward(s: Sys): Step
    requires !s.thread.Stopped?
  {
    match s.thread
    case Top(_) => LoadRunning
    case CheckActive(_) => LoadActive
    case CheckSize(_) => LoadSize
    case WaitReady => SemWait
    case WaitTurn => SemWait
    case RecheckActive => ReloadActive
    case RecheckSize => ReloadSize
    case Draining => TryWait
    case TakeSkip => ExchangeSkip
    case Fetching(_) => FetchPhoto(true)
    case AtLock(_) => Lock
    case Locked(_) => LoadCanRender
    case Painting => Paint
    case Unlocking => Unlock
  }

  /** With a press waiting the render thread is nowhere stuck: a wait it may be in was already posted. */
  lemma PressFindsThreadFree(s: Sys)
    requires PressWaits(s)
    ensures !s.thread.Stopped? && Enabled(s, Onward(s)) && OfThread(Onward(s))
  {
  }

  predicate SameSkips(s: Sys, t: Sys) {
    t.sh.skip == s.sh.skip && t.sh.taken == s.sh.taken
  }

  lemma PressComesCloser(s: Sys, st: Step)
    requires PressWaits(s) && Enabled(s, st) && OfThread(st) && !st.Interrupted?
    ensures s.thread.TakeSkip? ==> Do(s, st).sh.skip == 0 && Do(s, st).sh.taken == s.sh.taken + s.sh.skip
    ensures !s.thread.TakeSkip? ==> PressWaits(Do(s, st)) && Away(Do(s, st)) < Away(s) && SameSkips(s, Do(s, st))
  {
    AwakeThread(s, st);
    GuardedThread(s, st);
  }

  ghost predicate ThreadRuns(steps: seq<Step>) {
    forall i :: 0 <= i < |steps| ==> OfThread(steps[i]) && !steps[i].Interrupted?
  }

  lemma {:induction false} CollectedStays(s: Sys, steps: seq<Step>, t: Sys)
    requires s.sh.skip == 0 && Run(s, steps, t) && ThreadRuns(steps)
    ensures SameSkips(s, t)
    decreases |steps|
  {
    if steps == [] {
    } else {
      CollectedStays(Do(s, steps[0]), steps[1..], t);
    }
  }

  lemma {:induction false} ServedWithin(s: Sys, steps: seq<Step>, t: Sys)
    requires PressWaits(s) && Run(s, steps, t) && ThreadRuns(steps)
    ensures |steps| >= Away(s) ==> t.sh.skip == 0 && t.sh.taken == s.sh.taken + s.sh.skip
    decreases |steps|
  {
    if steps == [] {
      PressFindsThreadFree(s);
    } else {
      PressComesCloser(s, steps[0]);
      if s.thread.TakeSkip? {
        CollectedStays(Do(s, steps[0]), steps[1..], t);
      } else {
        ServedWithin(Do(s, steps[0]), steps[1..], t);
      }
    }
  }

  /**
   A press made while the slideshow is ready is served: wherever the render thread is, it collects every press
   within 13 of its steps and one for each post still in the semaphore.
   */
  lemma PressIsServed(s: Sys, steps: seq<Step>, t: Sys)
    requires PressWaits(s) && Run(s, steps, t) && ThreadRuns(steps)
    ensures |steps| >= 13 + s.sh.sem ==> t.sh.skip == 0 && t.sh.taken == s.sh.taken + s.sh.skip
  {
    ServedWithin(s, steps, t);
  }

  // ---- A picture is painted ----

  /** With the D-Bus thread away, a painted picture stays, and a slideshow that cannot paint shows what it did. */
  lemma {:induction false} ThreadPaints(s: Sys, steps: seq<Step>, t: Sys)
    requires Guarded(s) && s.caller.Idle? && Run(s, steps, t) && ThreadRuns(steps)
    ensures s.scr.shows == Frame ==> t.scr.shows == Frame
    ensures !(s.scr.fb && s.sh.active) && !s.thread.Painting? ==> t.scr.shows == s.scr.shows
    decreases |steps|
  {
    if steps == [] {
    } else {
      GuardedThread(s, steps[0]);
      ThreadPaints(Do(s, steps[0]), steps[1..], t);
    }
  }

  /** How many steps a fetched picture is away from the framebuffer. */
  function Unpainted(th: Thread): nat {
    if th == AtLock(true) then 3 else if th == Locked(true) then 2 else if th.Painting? then 1 else 0
  }

  lemma {:induction false} PaintsWithin(s: Sys, steps: seq<Step>, t: Sys)
    requires Guarded(s) && s.caller.Idle? && Run(s, steps, t) && ThreadRuns(steps)
    requires Unpainted(s.thread) > 0 && s.scr.fb && s.sh.active && |steps| >= Unpainted(s.thread)
    ensures t.scr.shows == Frame
    decreases |steps|
  {
    GuardedThread(s, steps[0]);
    if s.thread.Painting? {
      ThreadPaints(Do(s, steps[0]), steps[1..], t);
    } else {
      PaintsWithin(Do(s, steps[0]), steps[1..], t);
    }
  }

  /** A fetched picture is on the framebuffer four steps later if there is one and the slideshow is active, and only then. */
  lemma FetchedPictureIsPainted(s: Sys, steps: seq<Step>, t: Sys)
    requires Guarded(s) && s.caller.Idle? && s.thread.Fetching?
    requires steps != [] && steps[0] == FetchPhoto(true) && Run(s, steps, t) && ThreadRuns(steps)
    ensures |steps| >= 4 && s.scr.fb && s.sh.active ==> t.scr.shows == Frame
    ensures !(s.scr.fb && s.sh.active) ==> t.scr.shows == s.scr.shows
  {
    ThreadPaints(s, steps, t);
    if |steps| >= 4 && s.scr.fb && s.sh.active {
      GuardedThread(s, steps[0]);
      PaintsWithin(Do(s, steps[0]), steps[1..], t);
    }
  }

  /** Without a picture fetched nothing is painted. */
  lemma {:induction false} OnlyFetchedPicturesArePainted(s: Sys, steps: seq<Step>, t: Sys)
    requires Guarded(s) && s.caller.Idle? && Run(s, steps, t) && ThreadRuns(steps)
    requires Unpainted(s.thread) == 0 && FetchPhoto(true) !in steps
    ensures t.scr.shows == s.scr.shows
    decreases |steps|
  {
    if steps == [] {
    } else {
      GuardedThread(s, steps[0]);
      assert steps[0] != FetchPhoto(true);
      OnlyFetchedPicturesArePainted(Do(s, steps[0]), steps[1..], t);
    }
  }

  /** What is shown is shown on a framebuffer, and was painted there. */
  predicate ShownSomewhere(s: Sys) {
    (s.thread.Painting? ==> s.scr.fb) && (!s.scr.fb ==> s.scr.shows == Blank)
  }

  lemma ShownStep(s: Sys, st: Step)
    requires Guarded(s) && ShownSomewhere(s) && Enabled(s, st)
    ensures ShownSomewhere(Do(s, st))
    ensures s.caller.StoreFb? && st.CallerWrite? ==> Do(s, st).scr.shows == Blank
  {
  }

  /** Without a framebuffer nothing is shown, and a new one starts out blank. */
  lemma {:induction false} NothingShownWithoutFramebuffer(s: Sys, steps: seq<Step>, t: Sys)
    requires Guarded(s) && ShownSomewhere(s) && Run(s, steps, t)
    ensures !t.scr.fb ==> t.scr.shows == Blank
    decreases |steps|
  {
    if steps == [] {
    } else {
      if OfThread(steps[0]) { GuardedThread(s, steps[0]); } else { GuardedCaller(s, steps[0]); }
      ShownStep(s, steps[0]);
      NothingShownWithoutFramebuffer(Do(s, steps[0]), steps[1..], t);
    }
  }

  // ---- One picture a turn ----

  /** Done with a picture, or on the way to the next wait, or in it: a ready slideshow with nothing to do. */
  predicate AwaitsTurn(s: Sys) {
    && s.sh.running && s.sh.Ready()
    && (s.thread.Unlocking? || s.thread == Top(true) || s.thread == CheckActive(true) || s.thread == CheckSize(true)
        || s.thread.WaitTurn?)
  }

  /**
   After a picture a ready slideshow fetches no other until its time is up or something posts: signals and spurious
   returns send the render thread back to its wait.
   */
  lemma {:induction false} WaitsForItsTurn(s: Sys, steps: seq<Step>, t: Sys)
    requires AwaitsTurn(s) && Run(s, steps, t)
    requires forall i :: 0 <= i < |steps| ==> OfThread(steps[i]) && !steps[i].SemWait? && !steps[i].TimedOut?
    ensures AwaitsTurn(t)
    decreases |steps|
  {
    if steps == [] {
    } else {
      WaitsForItsTurn(Do(s, steps[0]), steps[1..], t);
    }
  }

  /** Presses collapse into one picture: every post is drained before the counter is taken. */
  lemma {:induction false} DrainsBeforeTaking(s: Sys, steps: seq<Step>, t: Sys)
    requires (s.thread.TakeSkip? ==> s.sh.sem == 0) && Run(s, steps, t)
    requires forall i :: 0 <= i < |steps| ==> OfThread(steps[i])
    ensures t.thread.TakeSkip? ==> t.sh.sem == 0
    decreases |steps|
  {
    if steps == [] {
    } else {
      DrainsBeforeTaking(Do(s, steps[0]), steps[1..], t);
    }
  }

  // ---- The pause on the screen ----

  /** A run without activation, framebuffer change or failing fallback decode. */
  ghost predicate Undisturbed(steps: seq<Step>) {
    forall i :: 0 <= i < |steps| ==>
      && (steps[i].SetActive? ==> !steps[i].on)
      && !steps[i].SetFb?
      && (steps[i].Decode? ==> steps[i].ok)
  }

  /** The fallback is on its way to the screen of a paused slideshow, or there. */
  predicate Pausing(s: Sys) {
    && !s.sh.active
    && match s.caller
       case LockFb(fb, _) => fb
       case StoreFb(fb, _) => fb
       case UnlockFb => s.scr.fb
       case CheckPaused => s.scr.fb
       case DecodeFallback => s.scr.fb
       case LockFallback => s.scr.fb
       case PaintFallback => s.scr.fb
       case _ => s.scr.fb && s.scr.paused
  }

  lemma PausingStep(s: Sys, st: Step)
    requires Pausing(s) && Guarded(s) && Enabled(s, st) && Undisturbed([st])
    ensures Pausing(Do(s, st))
  {
    assert [st][0] == st;
  }

  lemma {:induction false} PausingFrom(s: Sys, steps: seq<Step>, t: Sys)
    requires Pausing(s) && Guarded(s) && Run(s, steps, t) && Undisturbed(steps)
    ensures Pausing(t) && Guarded(t)
    decreases |steps|
  {
    if steps == [] {
    } else {
      var st := steps[0];
      PausingStep(s, st);
      if OfThread(st) { GuardedThread(s, st); } else { GuardedCaller(s, st); }
      PausingFrom(Do(s, st), steps[1..], t);
    }
  }

  /**
   Pause is final: with a framebuffer attached and a fallback that decodes, once the pausing call
   has returned the fallback is what the framebuffer shows, whatever fetch was in flight, until
   the slideshow is activated or the framebuffer changes.
   */
  lemma PauseIsFinal(s: Sys, steps: seq<Step>, t: Sys)
    requires Guarded(s) && s.caller.Idle? && s.sh.active && s.scr.fb
    requires Run(Do(s, SetActive(false)), steps, t) && Undisturbed(steps)
    ensures t.caller.Idle? ==> t.scr.shows == Fallback
  {
    GuardedCaller(s, SetActive(false));
    PausingFrom(Do(s, SetActive(false)), steps, t);
  }

  /** A framebuffer attached to a paused slideshow gets the fallback, and keeps it as long. */
  lemma PausedFramebufferIsFilled(s: Sys, size: bool, steps: seq<Step>, t: Sys)
    requires Guarded(s) && s.caller.Idle? && !s.sh.active
    requires Run(Do(s, SetFb(true, size)), steps, t) && Undisturbed(steps)
    ensures t.caller.Idle? ==> t.scr.shows == Fallback
  {
    GuardedCaller(s, SetFb(true, size));
    PausingFrom(Do(s, SetFb(true, size)), steps, t);
  }

  /** The condition is needed: a pause whose fallback does not decode never puts it on the screen. */
  lemma {:induction false} FallbackMustDecode(s: Sys, steps: seq<Step>, t: Sys)
    requires s.scr.shows != Fallback && !s.caller.LockFallback? && !s.caller.PaintFallback?
    requires Run(s, steps, t)
    requires forall i :: 0 <= i < |steps| ==> steps[i].Decode? ==> !steps[i].ok
    ensures t.scr.shows != Fallback
    decreases |steps|
  {
    if steps == [] {
    } else {
      FallbackMustDecode(Do(s, steps[0]), steps[1..], t);
    }
  }
}
