/**
 Whether "previous" brings back the photo that "next" left behind. The photo can be gone by then: this module
 says, for every state before "next", whether some work of the worker in between loses it.
 */
module PhotoHistory {
  import opened PhotoRoll
  import opened PhotoProvider

  // ---- Runs of the worker ----

  lemma {:induction false} RunsChain(d: Limits, s: Sys, a: seq<Step>, m: Sys, b: seq<Step>, t: Sys)
    requires Run(d, s, a, m) && Run(d, m, b, t)
    ensures Run(d, s, a + b, t)
    decreases |a|
  {
    if a == [] {
      assert a + b == b;
    } else {
      RunsChain(d, Do(d, s, a[0]), a[1..], m, b, t);
      assert (a + b)[1..] == a[1..] + b;
    }
  }

  /** The consumer is elsewhere: only the worker moves. */
  ghost predicate Alone(s: Sys) {
    s.dispatch.Idle? && !s.cache.shutdown && !s.worker.Exited?
  }

  /** The fetch in progress can still end with a photo for the cache. */
  predicate Bringing(s: Sys) {
    s.worker.InFetch() && !s.worker.RegisterFailed? && s.worker.gen == s.cache.generation
  }

  /** The worker took the system from s to t by itself. */
  ghost predicate Worked(d: Limits, s: Sys, steps: seq<Step>, t: Sys) {
    && Run(d, s, steps, t) && WorkerOnly(steps) && Alone(t)
    && t.cache.roll.cursor == s.cache.roll.cursor && |t.cache.roll.photos| >= |s.cache.roll.photos|
  }

  lemma OnwardKeepsAlone(d: Limits, s: Sys)
    requires Alone(s)
    ensures var st := Onward(s.worker);
      && Enabled(s, st) && (Registers(st) || Works(st))
      && var t := Do(d, s, st);
         Alone(t) && t.cache.roll.cursor == s.cache.roll.cursor && |t.cache.roll.photos| >= |s.cache.roll.photos|
  {
  }

  lemma OneThen(d: Limits, s: Sys, st: Step, rest: seq<Step>, t: Sys)
    requires Enabled(s, st) && (Registers(st) || Works(st)) && Alone(Do(d, s, st)) && Worked(d, Do(d, s, st), rest, t)
    requires Do(d, s, st).cache.roll.cursor == s.cache.roll.cursor
    requires |Do(d, s, st).cache.roll.photos| >= |s.cache.roll.photos|
    ensures Worked(d, s, [st] + rest, t)
  {
    assert ([st] + rest)[1..] == rest;
  }

  lemma WorkedChain(d: Limits, s: Sys, a: seq<Step>, m: Sys, b: seq<Step>, t: Sys)
    requires Worked(d, s, a, m) && Worked(d, m, b, t)
    ensures Worked(d, s, a + b, t)
  {
    RunsChain(d, s, a, m, b, t);
  }

  lemma OnwardComesCloser(d: Limits, s: Sys)
    requires Alone(s) && !s.worker.AtLock?
    ensures Enabled(s, Onward(s.worker))
    ensures var t := Do(d, s, Onward(s.worker));
      t.worker.AtLock? || Away(t.worker) < Away(s.worker)
  {
  }

  /** Wherever it is, the worker can come back to the lock. */
  lemma {:induction false} BackToLock(d: Limits, s: Sys) returns (steps: seq<Step>, t: Sys)
    requires Alone(s)
    ensures Worked(d, s, steps, t) && t.worker.AtLock?
    decreases if s.worker.AtLock? then 0 else Away(s.worker)
  {
    if s.worker.AtLock? {
      steps, t := [], s;
    } else {
      OnwardKeepsAlone(d, s);
      OnwardComesCloser(d, s);
      var st := Onward(s.worker);
      var rest, end := BackToLock(d, Do(d, s, st));
      OneThen(d, s, st, rest, end);
      steps, t := [st] + rest, end;
    }
  }

  lemma OnwardBrings(d: Limits, s: Sys)
    requires Alone(s) && Bringing(s) && s.cache.roll.HasRoom(d.Capacity())
    ensures Enabled(s, Onward(s.worker))
    ensures var t := Do(d, s, Onward(s.worker));
      if s.worker.Holding? then t.worker.AtLock? && |t.cache.roll.photos| == |s.cache.roll.photos| + 1
      else Bringing(t) && t.cache.roll == s.cache.roll && Away(t.worker) < Away(s.worker)
  {
  }

  /** A fetch that can bring a photo does, when the server answers and the ring has room. */
  lemma {:induction false} BringIt(d: Limits, s: Sys) returns (steps: seq<Step>, t: Sys)
    requires Alone(s) && Bringing(s) && s.cache.roll.HasRoom(d.Capacity())
    ensures Worked(d, s, steps, t) && t.worker.AtLock?
    ensures |t.cache.roll.photos| == |s.cache.roll.photos| + 1
    decreases Away(s.worker)
  {
    OnwardKeepsAlone(d, s);
    OnwardBrings(d, s);
    var st := Onward(s.worker);
    var next := Do(d, s, st);
    if s.worker.Holding? {
      steps, t := [st], next;
      assert steps == [st] + [] && Run(d, next, [], next);
      OneThen(d, s, st, [], next);
    } else {
      var rest, end := BringIt(d, next);
      OneThen(d, s, st, rest, end);
      steps, t := [st] + rest, end;
    }
  }

  lemma ShortOfPrefetch(d: Limits, s: Sys)
    requires Alone(s) && s.worker.AtLock? && s.cache.roll.cursor >= -1
    requires |s.cache.roll.photos| < s.cache.roll.cursor + 1 + d.prefetch
    ensures var t := Do(d, s, TakeLock);
      Alone(t) && Bringing(t) && t.cache.roll == s.cache.roll && t.cache.roll.HasRoom(d.Capacity())
  {
  }

  /** From the lock, the worker can fetch as far ahead as it is to prefetch. */
  lemma {:induction false} FillTo(d: Limits, s: Sys, target: nat) returns (steps: seq<Step>, t: Sys)
    requires Alone(s) && s.worker.AtLock? && s.cache.roll.cursor >= -1
    requires |s.cache.roll.photos| <= target <= s.cache.roll.cursor + 1 + d.prefetch
    ensures Worked(d, s, steps, t) && t.worker.AtLock? && |t.cache.roll.photos| == target
    decreases target - |s.cache.roll.photos|
  {
    if |s.cache.roll.photos| == target {
      steps, t := [], s;
    } else {
      ShortOfPrefetch(d, s);
      var first, mid := BringIt(d, Do(d, s, TakeLock));
      OneThen(d, s, TakeLock, first, mid);
      var rest, end := FillTo(d, mid, target);
      WorkedChain(d, s, [TakeLock] + first, mid, rest, end);
      steps, t := [TakeLock] + first + rest, end;
    }
  }

  // ---- The photo left behind ----

  /** The photo before the cursor stays held: its place is not needed, not even by a fetch in progress. */
  predicate Spared(d: Limits, s: Sys) {
    && s.cache.roll.cursor >= 1
    && |s.cache.roll.photos| + (if Bringing(s) then 1 else 0) <= s.cache.roll.cursor - 1 + d.Capacity()
  }

  lemma SparedStep(d: Limits, s: Sys, st: Step)
    requires d.history >= 1 && Alone(s) && Spared(d, s) && Enabled(s, st) && (Registers(st) || Works(st))
    ensures Alone(Do(d, s, st)) && Spared(d, Do(d, s, st))
  {
  }

  lemma {:induction false} SparedFrom(d: Limits, s: Sys, steps: seq<Step>, t: Sys)
    requires d.history >= 1 && Alone(s) && Spared(d, s) && Run(d, s, steps, t) && WorkerOnly(steps)
    ensures Spared(d, t)
    decreases |steps|
  {
    if steps == [] {
    } else {
      SparedStep(d, s, steps[0]);
      SparedFrom(d, Do(d, s, steps[0]), steps[1..], t);
    }
  }

  /** After "next" and the given work of the worker, "previous" delivers the photo left behind. */
  predicate BringsBack(d: Limits, s: Sys, t: Sys)
    requires 0 <= s.cache.roll.cursor < |s.cache.roll.photos|
  {
    t.PopPrev(d.Capacity()).served == t.served + [Delivery(s.cache.roll.photos[s.cache.roll.cursor], t.backend.cfg)]
  }

  /** ... whatever the worker does. */
  ghost predicate AlwaysBringsBack(d: Limits, s: Sys)
    requires s.dispatch.Idle? && 0 <= s.cache.roll.cursor < |s.cache.roll.photos|
  {
    forall steps, t :: Run(d, Do(d, s, GetPhoto), steps, t) && WorkerOnly(steps) ==> BringsBack(d, s, t)
  }

  /** The ring is full from the photo on screen on, and a fetch from before is about to bring one more. */
  predicate OneTooMany(d: Limits, s: Sys) {
    Bringing(s) && |s.cache.roll.photos| == s.cache.roll.cursor + d.Capacity()
  }

  lemma NextKeepsSpare(d: Limits, s: Sys)
    requires Safe(d, s) && s.dispatch.Idle? && s.cache.roll.cursor >= 0 && !s.cache.roll.Starved()
    ensures Alone(Do(d, s, GetPhoto))
    ensures !OneTooMany(d, s) ==> Spared(d, Do(d, s, GetPhoto))
  {
  }

  lemma SparedBringsBack(d: Limits, s: Sys, steps: seq<Step>, t: Sys)
    requires Safe(d, s) && s.dispatch.Idle? && s.cache.roll.cursor >= 0 && !s.cache.roll.Starved()
    requires d.history >= 1 && !OneTooMany(d, s)
    requires Run(d, Do(d, s, GetPhoto), steps, t) && WorkerOnly(steps)
    ensures BringsBack(d, s, t)
  {
    NextKeepsSpare(d, s);
    SparedFrom(d, Do(d, s, GetPhoto), steps, t);
    WorkerKeepsRoll(d, Do(d, s, GetPhoto), steps, t);
    PrevFindsWhatIsHeld(d, s, steps, t);
  }

  /** The failing runs: the worker brings the one photo too many, or, without history, just fills its prefetch. */
  lemma LosingRun(d: Limits, s: Sys) returns (steps: seq<Step>, t: Sys)
    requires Safe(d, s) && s.dispatch.Idle? && s.cache.roll.cursor >= 0 && !s.cache.roll.Starved()
    requires d.history == 0 || OneTooMany(d, s)
    ensures Run(d, Do(d, s, GetPhoto), steps, t) && WorkerOnly(steps)
    ensures t.PopPrev(d.Capacity()).served == t.served && !BringsBack(d, s, t)
  {
    var next := Do(d, s, GetPhoto);
    NextKeepsSpare(d, s);
    if OneTooMany(d, s) {
      steps, t := BringIt(d, next);
    } else {
      var first, mid := BackToLock(d, next);
      var target := mid.cache.roll.cursor + 1 + d.prefetch;
      if |mid.cache.roll.photos| >= target {
        steps, t := first, mid;
      } else {
        var rest, end := FillTo(d, mid, target);
        WorkedChain(d, next, first, mid, rest, end);
        steps, t := first + rest, end;
      }
    }
    PrevFindsWhatIsHeld(d, s, steps, t);
  }

  /**
   "Next", any work of the worker, then "previous" is the same photo again, for certain, exactly when some history
   is kept and no fetch begun before the consumer went back is about to overfill the ring.
   */
  lemma NextThenPrev(d: Limits, s: Sys)
    requires Safe(d, s) && s.dispatch.Idle? && s.cache.roll.cursor >= 0 && !s.cache.roll.Starved()
    ensures AlwaysBringsBack(d, s) <==> d.history >= 1 && !OneTooMany(d, s)
  {
    if d.history >= 1 && !OneTooMany(d, s) {
      forall steps, t | Run(d, Do(d, s, GetPhoto), steps, t) && WorkerOnly(steps) ensures BringsBack(d, s, t) {
        SparedBringsBack(d, s, steps, t);
      }
    } else {
      var steps, t := LosingRun(d, s);
    }
  }

  // ---- It happens ----

  /** The consumer takes each photo as it comes. */
  lemma {:induction false} TakeEach(d: Limits, s0: Sys, n: nat) returns (steps: seq<Step>, s: Sys)
    requires Init(s0)
    ensures Run(d, s0, steps, s) && Alone(s) && s.worker.AtLock?
    ensures |s.cache.roll.photos| == n && s.cache.roll.cursor == n - 1
    decreases n
  {
    if n == 0 {
      steps, s := [], s0;
    } else {
      var before, m := TakeEach(d, s0, n - 1);
      var first, full := FillTo(d, m, n);
      RunsChain(d, s0, before, m, first, full);
      steps, s := before + first + [GetPhoto], Do(d, full, GetPhoto);
      assert Run(d, s, [], s);
      RunsChain(d, s0, before + first, full, [GetPhoto], s);
    }
  }

  /** The consumer goes back n photos while the worker is busy. */
  lemma {:induction false} GoBack(d: Limits, s: Sys, n: nat) returns (steps: seq<Step>, t: Sys)
    requires Alone(s) && s.cache.roll.cursor - n >= s.cache.roll.Head(d.Capacity())
    ensures Run(d, s, steps, t) && Alone(t) && t.worker == s.worker && t.cache.generation == s.cache.generation
    ensures t.cache.roll == s.cache.roll.(cursor := s.cache.roll.cursor - n)
    decreases n
  {
    if n == 0 {
      steps, t := [], s;
    } else {
      var rest, end := GoBack(d, Do(d, s, GetPrevPhoto), n - 1);
      steps, t := [GetPrevPhoto] + rest, end;
      assert steps[1..] == rest;
    }
  }

  /**
   Whatever the depths, the overfull moment is reached: the consumer is one photo further than the history goes
   back, the ring is full, a fetch begins, and the consumer goes all the way back.
   */
  lemma OneTooManyHappens(d: Limits, s0: Sys) returns (steps: seq<Step>, s: Sys)
    requires Init(s0)
    ensures Run(d, s0, steps, s) && Safe(d, s) && s.dispatch.Idle?
    ensures s.cache.roll.cursor >= 0 && !s.cache.roll.Starved() && OneTooMany(d, s)
  {
    var cap, far := d.Capacity(), d.history + 1;
    var a, s1 := TakeEach(d, s0, far + 1);
    var b, s2 := FillTo(d, s1, cap);
    var s3 := Do(d, s2, TakeLock);
    assert Bringing(s3) && Alone(s3) && s3.cache.roll == s2.cache.roll;
    var c, s4 := GoBack(d, s3, far);
    assert Run(d, s3, [], s3);
    RunsChain(d, s0, a, s1, b, s2);
    RunsChain(d, s0, a + b, s2, [TakeLock], s3);
    RunsChain(d, s0, a + b + [TakeLock], s3, c, s4);
    steps, s := a + b + [TakeLock] + c, s4;
    SafeAlways(d, s0, steps, s);
  }
}
