/**
 What the two threads of module PhotoProvider deliver: each photo with the metadata it was sent with, in the order
 it was sent in, and to every call its answer.
 */
module PhotoDelivery {
  import opened PhotoRoll
  import opened PhotoProvider

  // ---- What was fetched, and in which order ----

  function SentMore(ms: seq<string>, st: Step): seq<string> {
    if st.Fetch? && st.ok then ms + [st.meta] else ms
  }

  /** The metadata of the photos the server sent, told by the fetch steps alone. */
  function Sent(ms: seq<string>, steps: seq<Step>): seq<string>
    decreases |steps|
  {
    if steps == [] then ms else Sent(SentMore(ms, steps[0]), steps[1..])
  }

  /** A photo carries the metadata it was sent with. */
  predicate AsSent(ms: seq<string>, p: Photo) {
    p.fd < |ms| && p.meta == ms[p.fd]
  }

  predicate Newest(ps: seq<Photo>, p: Photo) {
    forall i :: 0 <= i < |ps| ==> ps[i].fd < p.fd
  }

  /** Photos are held in the order they were fetched in, each once, and the worker's is the newest. */
  ghost predicate Labelled(s: Sys, ms: seq<string>) {
    && s.fetches == |ms|
    && (forall i :: 0 <= i < |s.cache.roll.photos| ==> AsSent(ms, s.cache.roll.photos[i]))
    && (forall i, j :: 0 <= i < j < |s.cache.roll.photos| ==> s.cache.roll.photos[i].fd < s.cache.roll.photos[j].fd)
    && (forall i :: 0 <= i < |s.served| ==> AsSent(ms, s.served[i].photo))
    && (s.worker.Holding? ==> AsSent(ms, s.worker.photo) && Newest(s.cache.roll.photos, s.worker.photo))
  }

  lemma LabelledWork(d: Limits, s: Sys, st: Step, ms: seq<string>)
    requires Labelled(s, ms) && Enabled(s, st) && Works(st)
    ensures Labelled(DoWork(d, s, st), SentMore(ms, st))
  {
  }

  lemma LabelledStep(d: Limits, s: Sys, st: Step, ms: seq<string>)
    requires Labelled(s, ms) && Enabled(s, st)
    ensures Labelled(Do(d, s, st), SentMore(ms, st))
  {
    if Works(st) {
      LabelledWork(d, s, st, ms);
    }
  }

  lemma {:induction false} LabelledFrom(d: Limits, s: Sys, ms: seq<string>, steps: seq<Step>, t: Sys)
    requires Labelled(s, ms) && Run(d, s, steps, t)
    ensures Labelled(t, Sent(ms, steps))
    decreases |steps|
  {
    if steps == [] {
    } else {
      LabelledStep(d, s, steps[0], ms);
      LabelledFrom(d, Do(d, s, steps[0]), SentMore(ms, steps[0]), steps[1..], t);
    }
  }

  /** In every run, photos are held and served with the metadata they were sent with, and held in the order they were sent. */
  lemma PhotosAreAsSent(d: Limits, s: Sys, steps: seq<Step>, t: Sys)
    requires Init(s) && Run(d, s, steps, t)
    ensures Labelled(t, Sent([], steps))
  {
    LabelledFrom(d, s, [], steps, t);
  }

  /** Nothing takes photos away or goes back. */
  predicate GoesOn(st: Step) {
    Registers(st) || Works(st) || st.GetPhoto? || st.Retry? || st.GiveUp?
  }

  /** The photos given out, without the settings of the moment. */
  function Given(ds: seq<Delivery>): seq<Photo> {
    seq(|ds|, i requires 0 <= i < |ds| => ds[i].photo)
  }

  /** From s to t the roll grew, and what was given out since is what the cursor passed. */
  ghost predicate Passed(s: Sys, t: Sys) {
    && s.cache.roll.photos <= t.cache.roll.photos
    && -1 <= s.cache.roll.cursor <= t.cache.roll.cursor < |t.cache.roll.photos|
    && Given(t.served) == Given(s.served) + t.cache.roll.photos[s.cache.roll.cursor + 1..t.cache.roll.cursor + 1]
  }

  lemma PassedOn(s: Sys, u: Sys, t: Sys)
    requires Passed(s, u) && Passed(u, t)
    ensures Passed(s, t)
  {
    var ps, c, c', end := t.cache.roll.photos, s.cache.roll.cursor, u.cache.roll.cursor, t.cache.roll.cursor;
    assert u.cache.roll.photos[c + 1..c' + 1] == ps[c + 1..c' + 1];
    assert ps[c + 1..c' + 1] + ps[c' + 1..end + 1] == ps[c + 1..end + 1];
  }

  /** A step that goes on gives out the next photo or none, and moves the cursor along. */
  lemma ServesNext(d: Limits, s: Sys, st: Step)
    requires Waits(d, s) && !s.cache.shutdown && Enabled(s, st) && GoesOn(st)
    ensures !Do(d, s, st).cache.shutdown && Passed(s, Do(d, s, st))
  {
  }

  /** Going on, consumers get the photos one after the other: none is skipped, and none comes twice. */
  lemma {:induction false} ServedInOrder(d: Limits, s: Sys, steps: seq<Step>, t: Sys)
    requires Waits(d, s) && !s.cache.shutdown && Run(d, s, steps, t)
    requires forall i :: 0 <= i < |steps| ==> GoesOn(steps[i])
    ensures Passed(s, t)
    decreases |steps|
  {
    if steps == [] {
    } else {
      WaitsStep(d, s, steps[0]);
      ServesNext(d, s, steps[0]);
      ServedInOrder(d, Do(d, s, steps[0]), steps[1..], t);
      PassedOn(s, Do(d, s, steps[0]), t);
    }
  }

  // ---- Single calls ----

  /** A call for a photo ends with it if there is one, and waits if not; a time-out ends it without. */
  lemma PhotoCallEnds(d: Limits, s: Sys)
    requires Waits(d, s)
    ensures s.dispatch.Idle? || s.dispatch.AwaitingPhoto? ==>
      var u := Do(d, s, if s.dispatch.Idle? then GetPhoto else Retry);
      if s.cache.roll.cursor + 1 < |s.cache.roll.photos|
      then u.dispatch.Idle? && u.served == s.served + [Delivery(s.cache.roll.photos[s.cache.roll.cursor + 1], s.backend.cfg)]
      else u.dispatch.AwaitingPhoto? && u.served == s.served
    ensures s.dispatch.AwaitingPhoto? ==> Do(d, s, GiveUp) == s.(dispatch := Idle)
  {
  }

  /** A client that was quiet too long registers again, whatever the dispatch thread does meanwhile, before it fetches. */
  lemma {:induction false} StaleRegisters(d: Limits, s: Sys, steps: seq<Step>, t: Sys)
    requires s.worker.AskFlag? && s.backend.needsRegister && Run(d, s, steps, t)
    requires forall i :: 0 <= i < |steps| ==> Sets(steps[i]) || Serves(steps[i])
    ensures t.worker.AskFlag? && Do(d, t, ExchangeFlag).worker.Registering?
    decreases |steps|
  {
    if steps == [] {
    } else {
      StaleRegisters(d, Do(d, s, steps[0]), steps[1..], t);
    }
  }

  lemma StalenessIsNoticed(d: Limits, s: Sys, stale: bool)
    requires s.worker.Entered?
    ensures var u := Do(d, s, CheckStale(stale));
      u.worker == AskFlag(s.worker.gen) && u.backend.needsRegister == (stale || s.backend.needsRegister)
  {
  }

  /** Without the flag the worker keeps its client; and whatever fails, it starts over from the lock. */
  lemma OneRegistrationAFlag(d: Limits, s: Sys, st: Step)
    requires Enabled(s, st)
    ensures st.ExchangeFlag? ==> (Do(d, s, st).worker.Registering? <==> s.backend.needsRegister)
    ensures st.ExchangeFlag? ==> (Do(d, s, st).worker.Fetching? <==> !s.backend.needsRegister)
    ensures st.RestoreFlag? || (st.Fetch? && !st.ok) ==> Do(d, s, st).worker.AtLock? && Do(d, s, st).cache == s.cache
  {
  }

  /** A setter flags and invalidates exactly when it changes something; a size out of range changes nothing. */
  lemma OnlyChangesInvalidate(d: Limits, s: Sys, w: nat, h: nat, qr: bool)
    requires s.dispatch.Idle?
    ensures !(128 <= w <= 3840 && 128 <= h <= 3840) ==> Do(d, s, SetSize(w, h)) == s
    ensures 128 <= w <= 3840 && 128 <= h <= 3840 ==>
      var u := Do(d, Do(d, s, SetSize(w, h)), StoreHeight);
      u.dispatch == Stored((w, h) != (s.backend.cfg.w, s.backend.cfg.h))
    ensures Do(d, s, SetQr(qr)).dispatch == Stored(qr != s.backend.cfg.qr)
  {
  }

  lemma StoredGoesOn(d: Limits, s: Sys, changed: bool)
    requires s.dispatch == Stored(changed)
    ensures Enabled(s, if changed then StoreFlag else ReportUnchanged)
    ensures !changed ==> Do(d, s, ReportUnchanged) == s.(dispatch := Idle)
    ensures changed ==> Enabled(Do(d, s, StoreFlag), Invalidate) && Do(d, s, StoreFlag).backend.needsRegister
    ensures changed ==>
      var u := Do(d, Do(d, s, StoreFlag), Invalidate);
      u.dispatch.Idle? && u.cache.roll == EMPTY && u.cache.generation == s.cache.generation + 1
  {
  }

  /** At the lock the worker fetches when it should, goes when it must, and sleeps only when it has neither to do. */
  lemma SleepsExactlyWhenIdle(d: Limits, s: Sys)
    requires s.worker.AtLock?
    ensures var u := Do(d, s, TakeLock);
      && (u.worker == Waiting(false) <==> !s.cache.shutdown && !s.cache.roll.ShouldFetch(d))
      && (u.worker == Entered(s.cache.generation) <==> !s.cache.shutdown && s.cache.roll.ShouldFetch(d))
      && (u.worker == Exited <==> s.cache.shutdown)
  {
  }
}
