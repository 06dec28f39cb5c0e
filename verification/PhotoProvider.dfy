/**
 Photo-provider as two interleaved threads: the cache worker, which talks to the server, and the
 D-Bus dispatch thread, which serves photos and changes settings. One step is one atomic access,
 one server answer, or one critical section of the cache (proved in module PhotoCache to do to
 the ring exactly what is done to `roll` here).
 */
module PhotoProvider {
  import opened PhotoRoll

  type ClientId = nat

  const IMG_MIN_SZ := 128
  const IMG_MAX_SZ := 3840

  predicate InRange(w: nat, h: nat) {
    IMG_MIN_SZ <= w <= IMG_MAX_SZ && IMG_MIN_SZ <= h <= IMG_MAX_SZ
  }

  /** Where the worker is: worker_main, and inside it fetch_next and reregister. */
  datatype Worker =
    | AtLock
    | Waiting(signalled: bool)
    | Entered(gen: nat)
    | AskFlag(gen: nat)
    | Registering(gen: nat)
    | GotId(gen: nat, id: ClientId)
    | GotWidth(gen: nat, id: ClientId, w: nat)
    | GotHeight(gen: nat, id: ClientId, w: nat, h: nat)
    | GotConfig(gen: nat, id: ClientId, cfg: Config)
    | PushedQr(gen: nat, id: ClientId, cfg: Config)
    | RegisterFailed(gen: nat)
    | Fetching(gen: nat)
    | Holding(gen: nat, photo: Photo)
    | Exited
  {
    predicate InFetch() {
      !AtLock? && !Waiting? && !Exited?
    }

    /** pthread_cond_broadcast reached this thread, if it was waiting. */
    function Signalled(): Worker {
      if Waiting? then Waiting(true) else this
    }

    function Hand(): multiset<nat> {
      if Holding? then multiset{photo.fd} else multiset{}
    }
  }

  /** Where the dispatch thread is inside a D-Bus method or the final teardown. */
  datatype Dispatch =
    | Idle
    | WidthStored(h: nat, changed: bool)
    | Stored(changed: bool)
    | Flagged
    | AwaitingPhoto(signalled: bool)
    | Joining
  {
    /** Both threads wait on the same condition variable. */
    function Signalled(): Dispatch {
      if AwaitingPhoto? then AwaitingPhoto(true) else this
    }
  }

  /** The atomic settings, and the server's view of its clients. */
  datatype Backend = Backend(cfg: Config, needsRegister: bool, server: map<ClientId, Config>, clientId: ClientId) {
    /** What the server renders for a client; a client it does not know gets no usable settings. */
    function Knows(id: ClientId): Config {
      if id in server then server[id] else Config(0, 0, false)
    }
  }

  /** A photo given to a consumer, with the settings in force when it was. */
  datatype Delivery = Delivery(photo: Photo, at: Config)

  /** `fetches` counts the descriptors the backend returned; they are numbered from 0. */
  datatype Sys = Sys(backend: Backend, cache: CacheState, worker: Worker, dispatch: Dispatch,
                     fetches: nat, served: seq<Delivery>)
  {
    /** One pass of GetPhoto through its critical section: deliver, or go to wait. */
    function Pop(): Sys {
      if cache.roll.Starved() then
        this.(dispatch := AwaitingPhoto(false))
      else
        this.(cache := cache.Pop(), served := Served(cache.Pop().roll), dispatch := Idle, worker := worker.Signalled())
    }

    function PopPrev(cap: nat): Sys {
      if cache.roll.HasPrev(cap) then
        this.(cache := cache.PopPrev(cap), served := Served(cache.PopPrev(cap).roll))
      else
        this
    }

    /** The photo under the new cursor is handed out. */
    function Served(r: Roll): seq<Delivery> {
      if 0 <= r.cursor < |r.photos| then served + [Delivery(r.photos[r.cursor], backend.cfg)] else served
    }
  }

  datatype Step =
    // worker
    | TakeLock | Wake | CheckStale(stale: bool) | ExchangeFlag
    | Register(ok: bool, id: ClientId, initial: Config)
    | LoadWidth | LoadHeight | LoadQr | PushQr(ok: bool) | PushSize(ok: bool) | RestoreFlag
    | Fetch(ok: bool, meta: string) | Place
    // dispatch
    | SetSize(w: nat, h: nat) | StoreHeight | SetQr(v: bool) | StoreFlag | ReportUnchanged | Invalidate
    | GetPhoto | Retry | GiveUp | GetPrevPhoto | Shutdown

  predicate Registers(st: Step) {
    st.Register? || st.LoadWidth? || st.LoadHeight? || st.LoadQr? || st.PushQr? || st.PushSize? || st.RestoreFlag?
  }

  predicate Works(st: Step) {
    st.TakeLock? || st.Wake? || st.CheckStale? || st.ExchangeFlag? || st.Fetch? || st.Place?
  }

  predicate Sets(st: Step) {
    st.SetSize? || st.StoreHeight? || st.SetQr? || st.StoreFlag? || st.ReportUnchanged? || st.Invalidate?
  }

  predicate Serves(st: Step) {
    st.GetPhoto? || st.Retry? || st.GiveUp? || st.GetPrevPhoto? || st.Shutdown?
  }

  predicate Enabled(s: Sys, st: Step) {
    match st
    case TakeLock => s.worker.AtLock?
    case Wake => s.worker.Waiting?          // a wake-up may also be spurious
    case CheckStale(_) => s.worker.Entered?
    case ExchangeFlag => s.worker.AskFlag?
    case Register(_, _, _) => s.worker.Registering?
    case LoadWidth => s.worker.GotId?
    case LoadHeight => s.worker.GotWidth?
    case LoadQr => s.worker.GotHeight?
    case PushQr(_) => s.worker.GotConfig?
    case PushSize(_) => s.worker.PushedQr?
    case RestoreFlag => s.worker.RegisterFailed?
    case Fetch(_, _) => s.worker.Fetching?
    case Place => s.worker.Holding?
    case SetSize(_, _) => s.dispatch.Idle?
    case StoreHeight => s.dispatch.WidthStored?
    case SetQr(_) => s.dispatch.Idle?
    case StoreFlag => s.dispatch == Stored(true)
    case ReportUnchanged => s.dispatch == Stored(false)
    case Invalidate => s.dispatch.Flagged?
    case GetPhoto => s.dispatch.Idle?
    case Retry => s.dispatch.AwaitingPhoto?
    case GiveUp => s.dispatch.AwaitingPhoto?  // the wait timed out
    case GetPrevPhoto => s.dispatch.Idle?
    case Shutdown => s.dispatch.Idle?
  }

  /** reregister(), one atomic load or one server answer at a time. */
  function DoRegister(s: Sys, st: Step): Sys
    requires Enabled(s, st) && Registers(st)
  {
    var b := s.backend;
    match st
    case Register(ok, id, initial) =>
      if ok then s.(worker := GotId(s.worker.gen, id), backend := b.(server := b.server[id := initial]))
      else s.(worker := RegisterFailed(s.worker.gen))
    case LoadWidth => s.(worker := GotWidth(s.worker.gen, s.worker.id, b.cfg.w))
    case LoadHeight => s.(worker := GotHeight(s.worker.gen, s.worker.id, s.worker.w, b.cfg.h))
    case LoadQr =>
      s.(worker := GotConfig(s.worker.gen, s.worker.id, Config(s.worker.w, s.worker.h, b.cfg.qr)))
    case PushQr(ok) =>
      var told := b.Knows(s.worker.id).(qr := s.worker.cfg.qr);
      if ok then s.(worker := PushedQr(s.worker.gen, s.worker.id, s.worker.cfg),
                    backend := b.(server := b.server[s.worker.id := told]))
      else s.(worker := RegisterFailed(s.worker.gen))
    case PushSize(ok) =>
      var told := b.Knows(s.worker.id).(w := s.worker.cfg.w, h := s.worker.cfg.h);
      if ok then s.(worker := Fetching(s.worker.gen),
                    backend := b.(server := b.server[s.worker.id := told], clientId := s.worker.id))
      else s.(worker := RegisterFailed(s.worker.gen))
    case RestoreFlag => s.(worker := AtLock, backend := b.(needsRegister := true))
  }

  /** worker_main and fetch_next around the registration. */
  function DoWork(d: Limits, s: Sys, st: Step): Sys
    requires Enabled(s, st) && Works(st)
  {
    var b := s.backend;
    match st
    case TakeLock =>
      if s.cache.shutdown then s.(worker := Exited, cache := s.cache.Flush(d.Capacity()))
      else if s.cache.roll.ShouldFetch(d) then s.(worker := Entered(s.cache.generation))
      else s.(worker := Waiting(false))
    case Wake => s.(worker := AtLock)
    case CheckStale(stale) =>
      s.(worker := AskFlag(s.worker.gen), backend := b.(needsRegister := b.needsRegister || stale))
    case ExchangeFlag =>
      s.(worker := if b.needsRegister then Registering(s.worker.gen) else Fetching(s.worker.gen),
         backend := b.(needsRegister := false))
    case Fetch(ok, meta) =>
      if ok then s.(worker := Holding(s.worker.gen, Photo(s.fetches, meta, b.Knows(b.clientId))),
                    fetches := s.fetches + 1)
      else s.(worker := AtLock)
    case Place =>
      s.(worker := AtLock, cache := s.cache.Place(s.worker.gen, s.worker.photo, d.Capacity()),
         dispatch := if s.cache.Accepts(s.worker.gen, d.Capacity()) then s.dispatch.Signalled() else s.dispatch)
  }

  /** The D-Bus setters: exchange the values, raise the flag, invalidate. A size out of range is refused. */
  function DoSet(d: Limits, s: Sys, st: Step): Sys
    requires Enabled(s, st) && Sets(st)
  {
    var b := s.backend;
    match st
    case SetSize(w, h) =>
      if !InRange(w, h) then s
      else s.(backend := b.(cfg := b.cfg.(w := w)), dispatch := WidthStored(h, w != b.cfg.w))
    case StoreHeight =>
      s.(backend := b.(cfg := b.cfg.(h := s.dispatch.h)),
         dispatch := Stored(s.dispatch.changed || s.dispatch.h != b.cfg.h))
    case SetQr(v) => s.(backend := b.(cfg := b.cfg.(qr := v)), dispatch := Stored(v != b.cfg.qr))
    case StoreFlag => s.(backend := b.(needsRegister := true), dispatch := Flagged)
    case ReportUnchanged => s.(dispatch := Idle)
    case Invalidate =>
      s.(cache := s.cache.Invalidate(d.Capacity()), dispatch := Idle, worker := s.worker.Signalled())
  }

  /** GetPhoto, GetPrevPhoto, and the teardown. */
  function DoServe(d: Limits, s: Sys, st: Step): Sys
    requires Enabled(s, st) && Serves(st)
  {
    match st
    case GetPhoto => s.Pop()
    case Retry => s.Pop()
    case GiveUp => s.(dispatch := Idle)
    case GetPrevPhoto => s.PopPrev(d.Capacity())
    case Shutdown =>
      s.(cache := s.cache.(shutdown := true), dispatch := Joining, worker := s.worker.Signalled())
  }

  function Do(d: Limits, s: Sys, st: Step): Sys
    requires Enabled(s, st)
  {
    if Registers(st) then DoRegister(s, st)
    else if Works(st) then DoWork(d, s, st)
    else if Sets(st) then DoSet(d, s, st)
    else DoServe(d, s, st)
  }

  predicate Init(s: Sys) {
    && s.backend.needsRegister && s.cache == CacheState(EMPTY, 0, false, [])
    && s.worker == AtLock && s.dispatch == Idle && s.fetches == 0 && s.served == []
  }

  /** `steps` is a run of the two threads from `s` to `t`, in any interleaving. */
  ghost predicate Run(d: Limits, s: Sys, steps: seq<Step>, t: Sys)
    decreases |steps|
  {
    if steps == [] then s == t
    else Enabled(s, steps[0]) && Run(d, Do(d, s, steps[0]), steps[1..], t)
  }

  // ---- The ring and the two waits ----

  ghost predicate Waits(d: Limits, s: Sys) {
    && s.cache.roll.Valid(d.Capacity())
    && (s.worker == Waiting(false) ==> !s.cache.roll.ShouldFetch(d) && !s.cache.shutdown)
    && (s.dispatch == AwaitingPhoto(false) ==> s.cache.roll.Starved())
    && (s.cache.shutdown <==> s.dispatch.Joining?)
    && (s.worker.Exited? ==> s.cache.shutdown && s.cache.roll == EMPTY)
  }

  lemma WaitsRegister(d: Limits, s: Sys, st: Step)
    requires Waits(d, s) && Enabled(s, st) && Registers(st)
    ensures Waits(d, DoRegister(s, st))
  {
  }

  lemma WaitsWork(d: Limits, s: Sys, st: Step)
    requires Waits(d, s) && Enabled(s, st) && Works(st)
    ensures Waits(d, DoWork(d, s, st))
  {
  }

  lemma WaitsSetters(d: Limits, s: Sys, st: Step)
    requires Waits(d, s) && Enabled(s, st) && Sets(st)
    ensures Waits(d, DoSet(d, s, st))
  {
  }

  lemma WaitsServe(d: Limits, s: Sys, st: Step)
    requires Waits(d, s) && Enabled(s, st) && Serves(st)
    ensures Waits(d, DoServe(d, s, st))
  {
  }

  lemma WaitsStep(d: Limits, s: Sys, st: Step)
    requires Waits(d, s) && Enabled(s, st)
    ensures Waits(d, Do(d, s, st))
  {
    if Registers(st) {
      WaitsRegister(d, s, st);
    } else if Works(st) {
      WaitsWork(d, s, st);
    } else if Sets(st) {
      WaitsSetters(d, s, st);
    } else {
      WaitsServe(d, s, st);
    }
  }

  // ---- Freshness ----

  /** No setter is between storing a new value and the end of its invalidation. */
  predicate Settled(s: Sys) {
    match s.dispatch
    case WidthStored(_, changed) => !changed
    case Stored(changed) => !changed
    case Flagged => false
    case _ => true
  }

  /** Settings the worker has read so far, when it read them from the settings in force. */
  predicate ReadCurrent(s: Sys) {
    match s.worker
    case GotWidth(_, _, w) => w == s.backend.cfg.w
    case GotHeight(_, _, w, h) => w == s.backend.cfg.w && h == s.backend.cfg.h
    case GotConfig(_, _, c) => c == s.backend.cfg
    case PushedQr(_, _, c) => c == s.backend.cfg
    case _ => true
  }

  predicate Reregistering(w: Worker) {
    w.Registering? || w.GotId? || w.GotWidth? || w.GotHeight? || w.GotConfig? || w.PushedQr? || w.RegisterFailed?
  }

  /**
   A change is never lost: once a setter has raised the flag, either the flag is still up, or the
   registration in progress carries the settings in force (or will raise the flag again), or the
   server already knows them.
   */
  predicate ChangeRemembered(s: Sys) {
    Settled(s) || s.dispatch.Flagged? ==>
      || s.backend.needsRegister
      || (if Reregistering(s.worker) then ReadCurrent(s) else s.backend.Knows(s.backend.clientId) == s.backend.cfg)
  }

  /** A fetch that began after the last invalidation is for the settings in force. */
  predicate FetchCurrent(s: Sys) {
    Settled(s) && s.worker.InFetch() && s.worker.gen == s.cache.generation ==>
      && ReadCurrent(s)
      && (s.worker.Fetching? ==> s.backend.Knows(s.backend.clientId) == s.backend.cfg)
      && (s.worker.Holding? ==> s.worker.photo.cfg == s.backend.cfg)
  }

  ghost predicate HeldCurrent(s: Sys) {
    Settled(s) ==> forall p :: p in s.cache.roll.photos ==> p.cfg == s.backend.cfg
  }

  ghost predicate ServedCurrent(s: Sys) {
    forall i :: 0 <= i < |s.served| ==> s.served[i].photo.cfg == s.served[i].at
  }

  ghost predicate Fresh(s: Sys) {
    && (s.worker.InFetch() ==> s.worker.gen <= s.cache.generation)
    && (s.worker.PushedQr? ==> s.backend.Knows(s.worker.id).qr == s.worker.cfg.qr)
    && ChangeRemembered(s)
    && FetchCurrent(s)
    && HeldCurrent(s)
    && ServedCurrent(s)
  }

  lemma FreshRegister(s: Sys, st: Step)
    requires Fresh(s) && Enabled(s, st) && Registers(st)
    ensures Fresh(DoRegister(s, st))
  {
  }

  lemma FreshWork(d: Limits, s: Sys, st: Step)
    requires Fresh(s) && Enabled(s, st) && Works(st)
    ensures Fresh(DoWork(d, s, st))
  {
  }

  lemma FreshSetters(d: Limits, s: Sys, st: Step)
    requires Fresh(s) && Enabled(s, st) && Sets(st)
    ensures Fresh(DoSet(d, s, st))
  {
  }

  /** While the dispatch thread serves photos no setter is pending, so what it serves is current. */
  lemma FreshPop(s: Sys)
    requires Fresh(s) && (s.dispatch.Idle? || s.dispatch.AwaitingPhoto?)
    ensures Fresh(s.Pop())
  {
  }

  lemma FreshPopPrev(s: Sys, cap: nat)
    requires Fresh(s) && s.dispatch.Idle?
    ensures Fresh(s.PopPrev(cap))
  {
  }

  lemma FreshServe(d: Limits, s: Sys, st: Step)
    requires Fresh(s) && Enabled(s, st) && Serves(st)
    ensures Fresh(DoServe(d, s, st))
  {
    if st.GetPhoto? || st.Retry? {
      FreshPop(s);
    } else if st.GetPrevPhoto? {
      FreshPopPrev(s, d.Capacity());
    }
  }

  lemma FreshStep(d: Limits, s: Sys, st: Step)
    requires Fresh(s) && Enabled(s, st)
    ensures Fresh(Do(d, s, st))
  {
    if Registers(st) {
      FreshRegister(s, st);
    } else if Works(st) {
      FreshWork(d, s, st);
    } else if Sets(st) {
      FreshSetters(d, s, st);
    } else {
      FreshServe(d, s, st);
    }
  }

  // ---- Descriptors ----

  /** Every descriptor handed out so far, once. */
  ghost function AllIssued(n: nat): multiset<nat> {
    if n == 0 then multiset{} else AllIssued(n - 1) + multiset{n - 1}
  }

  lemma {:induction false} IssuedOnce(n: nat, fd: nat)
    ensures AllIssued(n)[fd] == if fd < n then 1 else 0
  {
    if n == 0 {
    } else {
      IssuedOnce(n - 1, fd);
    }
  }

  /** Every descriptor handed out is closed, held by the ring or in the worker's hand: once in all. */
  ghost predicate Conserved(d: Limits, s: Sys) {
    s.cache.Accounts(d.Capacity()) + s.worker.Hand() == AllIssued(s.fetches)
  }

  lemma ConservedPlace(d: Limits, s: Sys)
    requires Conserved(d, s) && Enabled(s, Place)
    ensures Conserved(d, DoWork(d, s, Place))
  {
    PlaceConserves(s.cache, s.worker.gen, s.worker.photo, d.Capacity());
  }

  ghost predicate SameDescriptors(s: Sys, t: Sys) {
    && t.cache.closed == s.cache.closed && t.cache.roll.photos == s.cache.roll.photos
    && t.fetches == s.fetches && t.worker.Hand() == s.worker.Hand()
  }

  lemma SameConserved(d: Limits, s: Sys, t: Sys)
    requires Conserved(d, s) && SameDescriptors(s, t)
    ensures Conserved(d, t)
  {
  }

  lemma WorkMovesNone(d: Limits, s: Sys, st: Step)
    requires Enabled(s, st) && Works(st) && !st.Place? && !st.Fetch? && !(st.TakeLock? && s.cache.shutdown)
    ensures SameDescriptors(s, DoWork(d, s, st))
  {
  }

  lemma FetchHoldsOne(d: Limits, s: Sys, st: Step)
    requires Enabled(s, st) && st.Fetch?
    ensures var t := DoWork(d, s, st);
      t.cache == s.cache && AllIssued(t.fetches) == AllIssued(s.fetches) + t.worker.Hand() && s.worker.Hand() == multiset{}
  {
  }

  lemma ConservedWork(d: Limits, s: Sys, st: Step)
    requires Conserved(d, s) && Enabled(s, st) && Works(st)
    ensures Conserved(d, DoWork(d, s, st))
  {
    if st.Place? {
      ConservedPlace(d, s);
    } else if st.Fetch? {
      FetchHoldsOne(d, s, st);
    } else if st.TakeLock? && s.cache.shutdown {
      FlushConserves(s.cache, d.Capacity());
    } else {
      WorkMovesNone(d, s, st);
      SameConserved(d, s, DoWork(d, s, st));
    }
  }

  lemma ConservedInvalidate(d: Limits, s: Sys)
    requires Conserved(d, s) && Enabled(s, Invalidate)
    ensures Conserved(d, DoSet(d, s, Invalidate))
  {
    FlushConserves(s.cache, d.Capacity());
  }

  lemma RegisterMovesNone(s: Sys, st: Step)
    requires Enabled(s, st) && Registers(st)
    ensures SameDescriptors(s, DoRegister(s, st))
  {
  }

  lemma SetMovesNone(d: Limits, s: Sys, st: Step)
    requires Enabled(s, st) && Sets(st) && !st.Invalidate?
    ensures SameDescriptors(s, DoSet(d, s, st))
  {
  }

  lemma ServeMovesNone(d: Limits, s: Sys, st: Step)
    requires Enabled(s, st) && Serves(st)
    ensures SameDescriptors(s, DoServe(d, s, st))
  {
  }

  lemma ConservedStep(d: Limits, s: Sys, st: Step)
    requires Conserved(d, s) && Enabled(s, st)
    ensures Conserved(d, Do(d, s, st))
  {
    if Registers(st) {
      RegisterMovesNone(s, st);
      SameConserved(d, s, DoRegister(s, st));
    } else if Works(st) {
      ConservedWork(d, s, st);
    } else if st.Invalidate? {
      ConservedInvalidate(d, s);
    } else if Sets(st) {
      SetMovesNone(d, s, st);
      SameConserved(d, s, DoSet(d, s, st));
    } else {
      ServeMovesNone(d, s, st);
      SameConserved(d, s, DoServe(d, s, st));
    }
  }

  // ---- What holds in every run ----

  ghost predicate Safe(d: Limits, s: Sys) {
    Waits(d, s) && Fresh(s) && Conserved(d, s)
  }

  lemma {:induction false} SafeFrom(d: Limits, s: Sys, steps: seq<Step>, t: Sys)
    requires Safe(d, s) && Run(d, s, steps, t)
    ensures Safe(d, t)
    decreases |steps|
  {
    if steps == [] {
    } else {
      WaitsStep(d, s, steps[0]);
      FreshStep(d, s, steps[0]);
      ConservedStep(d, s, steps[0]);
      SafeFrom(d, Do(d, s, steps[0]), steps[1..], t);
    }
  }

  lemma InitConserves(d: Limits, s: Sys)
    requires Init(s)
    ensures Conserved(d, s)
  {
    assert s.cache.roll.Held(d.Capacity()) == [] && s.cache.closed + Fds([]) == [];
    assert s.worker.Hand() == multiset{};
  }

  lemma SafeAlways(d: Limits, s: Sys, steps: seq<Step>, t: Sys)
    requires Init(s) && Run(d, s, steps, t)
    ensures Safe(d, t)
  {
    InitConserves(d, s);
    SafeFrom(d, s, steps, t);
  }

  /** The settings after one more call: a size with both numbers from 128 to 3840, or a QR choice. */
  function Requested(c: Config, st: Step): Config {
    match st
    case SetSize(w, h) => if 128 <= w <= 3840 && 128 <= h <= 3840 then Config(w, h, c.qr) else c
    case SetQr(v) => Config(c.w, c.h, v)
    case _ => c
  }

  /** The settings that were asked for last, told by the calls alone. */
  function Asked(c: Config, steps: seq<Step>): Config
    decreases |steps|
  {
    if steps == [] then c else Asked(Requested(c, steps[0]), steps[1..])
  }

  /** The settings in force once a size that is being stored is stored. */
  function Storing(s: Sys): Config {
    if s.dispatch.WidthStored? then s.backend.cfg.(h := s.dispatch.h) else s.backend.cfg
  }

  lemma StoringStep(d: Limits, s: Sys, st: Step)
    requires Enabled(s, st)
    ensures Storing(Do(d, s, st)) == Requested(Storing(s), st)
  {
  }

  lemma {:induction false} StoringFrom(d: Limits, s: Sys, steps: seq<Step>, t: Sys)
    requires Run(d, s, steps, t)
    ensures Storing(t) == Asked(Storing(s), steps)
    decreases |steps|
  {
    if steps == [] {
    } else {
      StoringStep(d, s, steps[0]);
      StoringFrom(d, Do(d, s, steps[0]), steps[1..], t);
    }
  }

  /** The setters do what they are called for: between them the settings in force are the ones asked for last. */
  lemma SettingsAreAsAsked(d: Limits, s: Sys, steps: seq<Step>, t: Sys)
    requires Init(s) && Run(d, s, steps, t) && !t.dispatch.WidthStored?
    ensures t.backend.cfg == Asked(s.backend.cfg, steps)
  {
    StoringFrom(d, s, steps, t);
  }

  /** A step serves no photo, or one more, fetched for these settings. */
  predicate ServesFor(before: seq<Delivery>, after: seq<Delivery>, c: Config) {
    after == before || (|after| == |before| + 1 && after[..|before|] == before && after[|before|].photo.cfg == c)
  }

  lemma NextDelivery(d: Limits, s: Sys, st: Step)
    requires Fresh(s) && Enabled(s, st)
    ensures ServesFor(s.served, Do(d, s, st).served, s.backend.cfg)
    ensures Do(d, s, st).served != s.served ==> !s.dispatch.WidthStored?
  {
  }

  /**
   Whatever step serves a photo, the photo was fetched for the settings asked for last before that step; and
   whenever no setter is between storing its value and invalidating, so was every photo held.
   */
  lemma NeverStale(d: Limits, s: Sys, steps: seq<Step>, t: Sys)
    requires Init(s) && Run(d, s, steps, t)
    ensures forall st :: Enabled(t, st) ==> ServesFor(t.served, Do(d, t, st).served, Asked(s.backend.cfg, steps))
    ensures Settled(t) && !t.dispatch.WidthStored? ==>
      forall p :: p in t.cache.roll.Held(d.Capacity()) ==> p.cfg == Asked(s.backend.cfg, steps)
    ensures Settled(t) ==> forall p :: p in t.cache.roll.Held(d.Capacity()) ==> p.cfg == t.backend.cfg
    ensures forall i :: 0 <= i < |t.served| ==> t.served[i].photo.cfg == t.served[i].at
  {
    SafeAlways(d, s, steps, t);
    StoringFrom(d, s, steps, t);
    forall st | Enabled(t, st) ensures ServesFor(t.served, Do(d, t, st).served, Asked(s.backend.cfg, steps)) {
      NextDelivery(d, t, st);
    }
    assert forall p :: p in t.cache.roll.Held(d.Capacity()) ==> p in t.cache.roll.photos;
  }

  /**
   A failed or raced registration never loses a settings change: between fetches, once no setter is
   at work, a server that does not know the settings in force is going to be told before the next fetch.
   */
  lemma ChangeNeverLost(d: Limits, s: Sys, steps: seq<Step>, t: Sys)
    requires Init(s) && Run(d, s, steps, t)
    requires Settled(t) && !t.worker.InFetch() && !t.worker.Exited?
    ensures t.backend.needsRegister || t.backend.Knows(t.backend.clientId) == t.backend.cfg
  {
    SafeAlways(d, s, steps, t);
  }

  /** The worker and a consumer are never both asleep with no wake-up on the way, and a sleeping worker has no work. */
  lemma NoMutualSleep(d: Limits, s: Sys, steps: seq<Step>, t: Sys)
    requires Init(s) && Run(d, s, steps, t)
    ensures !(t.worker == Waiting(false) && t.dispatch == AwaitingPhoto(false))
    ensures t.worker == Waiting(false) ==> !t.cache.roll.ShouldFetch(d) && !t.cache.shutdown
    ensures t.dispatch == AwaitingPhoto(false) ==> t.cache.roll.ShouldFetch(d)
  {
    SafeAlways(d, s, steps, t);
    if t.dispatch == AwaitingPhoto(false) {
      StarvedMeansFetch(t.cache.roll, d);
    }
  }

  /** Each descriptor the backend returned is in exactly one place, and closed once the worker is gone. */
  lemma EveryDescriptorOnce(d: Limits, s: Sys, steps: seq<Step>, t: Sys, fd: nat)
    requires Init(s) && Run(d, s, steps, t)
    ensures multiset(t.cache.closed)[fd] + multiset(Fds(t.cache.roll.Held(d.Capacity())))[fd] + t.worker.Hand()[fd]
         == if fd < t.fetches then 1 else 0
    ensures t.worker.Exited? && fd < t.fetches ==> multiset(t.cache.closed)[fd] == 1
  {
    SafeAlways(d, s, steps, t);
    IssuedOnce(t.fetches, fd);
    var held := Fds(t.cache.roll.Held(d.Capacity()));
    assert multiset(t.cache.closed + held) == multiset(t.cache.closed) + multiset(held);
    if t.worker.Exited? {
      assert held == [];
    }
  }

  // ---- Stepping back and forth ----

  ghost predicate WorkerOnly(steps: seq<Step>) {
    forall i :: 0 <= i < |steps| ==> Registers(steps[i]) || Works(steps[i])
  }

  lemma WorkerKeepsRollOnce(d: Limits, s: Sys, st: Step)
    requires Enabled(s, st) && (Registers(st) || Works(st))
    requires s.dispatch.Idle? && !s.cache.shutdown
    ensures var t := Do(d, s, st);
      && t.dispatch.Idle? && !t.cache.shutdown && t.served == s.served
      && t.cache.roll.cursor == s.cache.roll.cursor && s.cache.roll.photos <= t.cache.roll.photos
  {
  }

  /** Whatever the worker does in between, the cursor stays and the roll only grows at its end. */
  lemma {:induction false} WorkerKeepsRoll(d: Limits, s: Sys, steps: seq<Step>, t: Sys)
    requires Run(d, s, steps, t) && WorkerOnly(steps)
    requires s.dispatch.Idle? && !s.cache.shutdown
    ensures t.dispatch.Idle? && !t.cache.shutdown && t.served == s.served
    ensures t.cache.roll.cursor == s.cache.roll.cursor && s.cache.roll.photos <= t.cache.roll.photos
    decreases |steps|
  {
    if steps == [] {
    } else {
      WorkerKeepsRollOnce(d, s, steps[0]);
      WorkerKeepsRoll(d, Do(d, s, steps[0]), steps[1..], t);
    }
  }

  /** GetPrevPhoto, any work by the worker, then GetPhoto: the same photo again, without waiting. */
  lemma PrevThenNext(d: Limits, s: Sys, steps: seq<Step>, t: Sys)
    requires Safe(d, s) && s.dispatch.Idle? && s.cache.roll.HasPrev(d.Capacity())
    requires Run(d, Do(d, s, GetPrevPhoto), steps, t) && WorkerOnly(steps)
    ensures t.dispatch.Idle? && !t.cache.roll.Starved()
    ensures var u := Do(d, t, GetPhoto);
      u.dispatch.Idle? && u.served == t.served + [Delivery(s.cache.roll.photos[s.cache.roll.cursor], t.backend.cfg)]
  {
    assert Do(d, s, GetPrevPhoto) == s.PopPrev(d.Capacity());
    WorkerKeepsRoll(d, s.PopPrev(d.Capacity()), steps, t);
    assert Do(d, t, GetPhoto) == t.Pop();
  }

  /** GetPhoto, any work by the worker, then GetPrevPhoto: the photo left behind, if it is still held. */
  lemma PrevFindsWhatIsHeld(d: Limits, s: Sys, steps: seq<Step>, t: Sys)
    requires Safe(d, s) && s.dispatch.Idle? && s.cache.roll.cursor >= 0 && !s.cache.roll.Starved()
    requires Run(d, Do(d, s, GetPhoto), steps, t) && WorkerOnly(steps)
    ensures t.dispatch.Idle?
    ensures var left := s.cache.roll.cursor;
      t.PopPrev(d.Capacity()).served
        == if |t.cache.roll.photos| - d.Capacity() <= left
           then t.served + [Delivery(s.cache.roll.photos[left], t.backend.cfg)] else t.served
  {
    assert Do(d, s, GetPhoto) == s.Pop();
    WorkerKeepsRoll(d, s.Pop(), steps, t);
  }

  // ---- A waiting consumer is fed ----

  /** The server answers. */
  predicate Succeeds(st: Step) {
    match st
    case Register(ok, _, _) => ok
    case PushQr(ok) => ok
    case PushSize(ok) => ok
    case Fetch(ok, _) => ok
    case _ => Registers(st) || Works(st)
  }

  /** What the worker does next when the server answers. */
  function Onward(w: Worker): Step
    requires !w.Exited?
  {
    match w
    case AtLock => TakeLock
    case Waiting(_) => Wake
    case Entered(_) => CheckStale(false)
    case AskFlag(_) => ExchangeFlag
    case Registering(_) => Register(true, 0, Config(0, 0, false))
    case GotId(_, _) => LoadWidth
    case GotWidth(_, _, _) => LoadHeight
    case GotHeight(_, _, _, _) => LoadQr
    case GotConfig(_, _, _) => PushQr(true)
    case PushedQr(_, _, _) => PushSize(true)
    case RegisterFailed(_) => RestoreFlag
    case Fetching(_) => Fetch(true, "")
    case Holding(_, _) => Place
  }

  /** Short of its exit the worker always has a step to take, and for a sleeper that is its wake-up. */
  lemma WorkerCanMove(s: Sys)
    requires !s.worker.Exited?
    ensures Enabled(s, Onward(s.worker)) && Succeeds(Onward(s.worker))
  {
  }

  /** How many steps the worker is at most away from coming back with a photo. */
  function Away(w: Worker): nat {
    match w
    case Waiting(_) => 12
    case RegisterFailed(_) => 12
    case AtLock => 11
    case Entered(_) => 10
    case AskFlag(_) => 9
    case Registering(_) => 8
    case GotId(_, _) => 7
    case GotWidth(_, _, _) => 6
    case GotHeight(_, _, _, _) => 5
    case GotConfig(_, _, _) => 4
    case PushedQr(_, _, _) => 3
    case Fetching(_) => 2
    case Holding(_, _) => 1
    case Exited => 0
  }

  /** ... counting the round trip a photo for old settings costs. */
  function Distance(s: Sys): (n: nat)
    ensures n <= 23
  {
    Away(s.worker) + if s.worker.InFetch() && s.worker.gen != s.cache.generation then 11 else 0
  }

  ghost predicate Expecting(d: Limits, s: Sys) {
    Waits(d, s) && s.dispatch.AwaitingPhoto?
  }

  lemma OneStepCloser(d: Limits, s: Sys, st: Step)
    requires Expecting(d, s) && Enabled(s, st) && Succeeds(st)
    ensures Expecting(d, Do(d, s, st))
    ensures s.cache.roll.Starved() && Do(d, s, st).cache.roll.Starved() ==> Distance(Do(d, s, st)) < Distance(s)
    ensures !s.cache.roll.Starved() ==> !Do(d, s, st).cache.roll.Starved()
  {
    WaitsStep(d, s, st);
    if s.cache.roll.Starved() {
      StarvedMeansFetch(s.cache.roll, d);
    }
  }

  ghost predicate AllSucceed(steps: seq<Step>) {
    forall i :: 0 <= i < |steps| ==> Succeeds(steps[i])
  }

  lemma {:induction false} FedFrom(d: Limits, s: Sys, steps: seq<Step>, t: Sys)
    requires Expecting(d, s) && Run(d, s, steps, t) && AllSucceed(steps)
    ensures Expecting(d, t)
    ensures !s.cache.roll.Starved() ==> !t.cache.roll.Starved()
    ensures t.cache.roll.Starved() ==> |steps| < Distance(s)
    decreases |steps|
  {
    if steps == [] {
    } else {
      OneStepCloser(d, s, steps[0]);
      FedFrom(d, Do(d, s, steps[0]), steps[1..], t);
    }
  }

  /**
   A consumer that waits is fed: the worker is not asleep, so it can move, and wherever it was
   caught, 23 of its steps with a server that answers bring a photo, one for the settings in force.
   */
  lemma WaitingConsumerIsFed(d: Limits, s: Sys, steps: seq<Step>, t: Sys)
    requires Safe(d, s) && s.dispatch == AwaitingPhoto(false)
    requires Run(d, s, steps, t) && AllSucceed(steps)
    ensures s.worker != Waiting(false) && !s.worker.Exited?
    ensures |steps| >= 23 ==> !t.cache.roll.Starved() && t.dispatch == AwaitingPhoto(true)
    ensures forall p :: p in t.cache.roll.photos ==> p.cfg == t.backend.cfg
  {
    StarvedMeansFetch(s.cache.roll, d);
    FedFrom(d, s, steps, t);
    SafeFrom(d, s, steps, t);
    assert HeldCurrent(t) && Settled(t);
  }

  /** Until the photo is there, the worker wakes only when signalled. */
  ghost predicate NoSpuriousWake(d: Limits, s: Sys, steps: seq<Step>)
    decreases |steps|
  {
    if steps == [] then true
    else
      && Enabled(s, steps[0])
      && (steps[0].Wake? && s.cache.roll.Starved() ==> s.worker == Waiting(true))
      && NoSpuriousWake(d, Do(d, s, steps[0]), steps[1..])
  }

  /** Such a run exists, of any length, in which the worker never takes a wake-up that nobody sent. */
  lemma {:induction false} FeedingRunExists(d: Limits, s: Sys, n: nat) returns (steps: seq<Step>, t: Sys)
    requires Expecting(d, s) && (s.cache.roll.Starved() ==> s.worker != Waiting(false))
    ensures |steps| == n && Run(d, s, steps, t) && AllSucceed(steps)
    ensures n >= 23 ==> !t.cache.roll.Starved()
    ensures NoSpuriousWake(d, s, steps)
    decreases n
  {
    if n == 0 {
      steps, t := [], s;
    } else {
      var st := Onward(s.worker);
      WorkerCanMove(s);
      OneStepCloser(d, s, st);
      if Do(d, s, st).cache.roll.Starved() {
        StarvedMeansFetch(Do(d, s, st).cache.roll, d);
      }
      var rest, end := FeedingRunExists(d, Do(d, s, st), n - 1);
      steps, t := [st] + rest, end;
      assert steps[1..] == rest;
      FedFrom(d, s, steps, t);
    }
  }
}
