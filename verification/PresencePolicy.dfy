/**
 The presence policy of presence.c: raw occupancy reports in, debounced presence out. A report
 carries the local minute of the day it was taken in, which the code reads from the wall clock.
 */
module PresencePolicy {
  import opened Wrappers

  const MINUTES_A_DAY := 1440

  type Threshold = n: nat | n >= 1 witness 1

  datatype Config = Config(delay: nat, occupied: Threshold, vacant: Threshold,
                           silentOccupied: Threshold, silentVacant: Threshold,
                           silentStart: int, silentEnd: int)
  {
    predicate Silent(minute: int) {
      if silentStart < 0 || silentEnd < 0 || silentStart == silentEnd then false
      else if silentStart < silentEnd then silentStart <= minute < silentEnd
      else minute >= silentStart || minute < silentEnd
    }

    /** How many reports in a row commit a change to `to`. */
    function Needed(to: bool, minute: int): Threshold {
      if to then (if Silent(minute) then silentOccupied else occupied)
      else (if Silent(minute) then silentVacant else vacant)
    }

    function MinOccupied(): Threshold {
      if occupied < silentOccupied then occupied else silentOccupied
    }

    function MinVacant(): Threshold {
      if vacant < silentVacant then vacant else silentVacant
    }
  }

  /** The window is the stretch of the clock from start to end, across midnight if need be. */
  lemma SilentIsClockwise(cfg: Config, minute: int)
    requires 0 <= cfg.silentStart < MINUTES_A_DAY && 0 <= cfg.silentEnd < MINUTES_A_DAY && 0 <= minute < MINUTES_A_DAY
    ensures cfg.Silent(minute)
       <==> (minute - cfg.silentStart) % MINUTES_A_DAY < (cfg.silentEnd - cfg.silentStart) % MINUTES_A_DAY
  {
  }

  datatype State = State(ticks: nat, known: bool, stable: bool, pending: bool, count: nat,
                         latched: bool, announced: Option<bool>)

  const INITIAL := State(0, false, false, false, 0, false, None)

  datatype Event =
    | Report(occupied: bool, minute: int)
    | ForceOn
    | ForceOff
    | SensorUp
    | SensorDown

  /** The state after an event, and the presence given to the callback, if it was called. */
  datatype Effect = Effect(state: State, fired: Option<bool>)

  function Evaluate(s: State): Effect {
    var effective := s.stable && !s.latched;
    if !s.known || s.announced == Some(effective) then Effect(s, None)
    else Effect(s.(announced := Some(effective)), Some(effective))
  }

  /** A report before the verdict: the tick and the run of equal reports it makes longer or begins. */
  function Count(s: State, occupied: bool): State {
    if s.count == 0 || s.pending != occupied
    then s.(ticks := s.ticks + 1, pending := occupied, count := 1)
    else s.(ticks := s.ticks + 1, count := s.count + 1)
  }

  function Commit(cfg: Config, s: State, occupied: bool, minute: int): State {
    if !s.known then
      if s.ticks >= cfg.delay then s.(known := true, stable := occupied) else s
    else if occupied != s.stable && s.count >= cfg.Needed(occupied, minute) then
      s.(stable := occupied, latched := s.latched && occupied)
    else s
  }

  function Apply(cfg: Config, s: State, e: Event): Effect {
    match e
    case Report(occupied, minute) => Evaluate(Commit(cfg, Count(s, occupied), occupied, minute))
    case ForceOn =>
      Evaluate(s.(latched := false, known := true, stable := true, pending := true, count := 1))
    case ForceOff =>
      Evaluate(s.(latched := true, known := true, stable := false, pending := false, count := 1))
    case SensorUp => Effect(s.(ticks := 0, known := false, pending := false, count := 0), None)
    case SensorDown =>
      Evaluate(s.(latched := false, known := true, stable := false, pending := false, count := 1))
  }

  // ---- The code ----

  class Presence {
    const cfg: Config
    var ticks: nat
    var stableKnown: bool
    var stableState: bool
    var pendingState: bool
    var pendingCount: nat
    var forceOffLatched: bool
    var announced: Option<bool>

    function Current(): State
      reads this
    {
      State(ticks, stableKnown, stableState, pendingState, pendingCount, forceOffLatched, announced)
    }

    /** A threshold of zero counts as one. */
    constructor (delay: nat, occupied: nat, vacant: nat, silentOccupied: nat, silentVacant: nat,
                 silentStart: int, silentEnd: int)
      ensures Current() == INITIAL
      ensures cfg.delay == delay && cfg.silentStart == silentStart && cfg.silentEnd == silentEnd
      ensures cfg.occupied == (if occupied > 0 then occupied else 1) && cfg.vacant == (if vacant > 0 then vacant else 1)
      ensures cfg.silentOccupied == (if silentOccupied > 0 then silentOccupied else 1)
      ensures cfg.silentVacant == (if silentVacant > 0 then silentVacant else 1)
    {
      cfg := Config(delay, if occupied > 0 then occupied else 1, if vacant > 0 then vacant else 1,
                    if silentOccupied > 0 then silentOccupied else 1, if silentVacant > 0 then silentVacant else 1,
                    silentStart, silentEnd);
      ticks, stableKnown, stableState, pendingState, pendingCount := 0, false, false, false, 0;
      forceOffLatched, announced := false, None;
    }

    method Announce() returns (fired: Option<bool>)
      modifies this`announced
      ensures Effect(Current(), fired) == Evaluate(old(Current()))
    {
      if !stableKnown {
        return None;
      }
      var effective := if forceOffLatched then false else stableState;
      if announced == Some(effective) {
        return None;
      }
      announced := Some(effective);
      return Some(effective);
    }

    method OnReport(occupied: bool, minute: int) returns (fired: Option<bool>)
      modifies this
      ensures Effect(Current(), fired) == Apply(cfg, old(Current()), Report(occupied, minute))
    {
      ticks := ticks + 1;
      if pendingCount == 0 || pendingState != occupied {
        pendingState := occupied;
        pendingCount := 1;
      } else {
        pendingCount := pendingCount + 1;
      }
      assert Current() == Count(old(Current()), occupied);
      if !stableKnown {
        if ticks >= cfg.delay {
          stableKnown := true;
          stableState := occupied;
        }
      } else if occupied != stableState {
        var silent := cfg.Silent(minute);
        var threshold := if occupied then (if silent then cfg.silentOccupied else cfg.occupied)
                         else (if silent then cfg.silentVacant else cfg.vacant);
        if pendingCount >= threshold {
          var was := stableState;
          stableState := occupied;
          if was && !occupied {
            forceOffLatched := false;
          }
        }
      }
      assert Current() == Commit(cfg, Count(old(Current()), occupied), occupied, minute);
      fired := Announce();
    }

    method DoForceOn() returns (fired: Option<bool>)
      modifies this
      ensures Effect(Current(), fired) == Apply(cfg, old(Current()), ForceOn)
    {
      forceOffLatched := false;
      stableKnown, stableState := true, true;
      pendingState, pendingCount := true, 1;
      fired := Announce();
    }

    method DoForceOff() returns (fired: Option<bool>)
      modifies this
      ensures Effect(Current(), fired) == Apply(cfg, old(Current()), ForceOff)
    {
      forceOffLatched := true;
      stableKnown, stableState := true, false;
      pendingState, pendingCount := false, 1;
      fired := Announce();
    }

    method OnSensorUp()
      modifies this
      ensures Effect(Current(), None) == Apply(cfg, old(Current()), SensorUp)
    {
      ticks, stableKnown := 0, false;
      pendingState, pendingCount := false, 0;
    }

    method OnSensorDown() returns (fired: Option<bool>)
      modifies this
      ensures Effect(Current(), fired) == Apply(cfg, old(Current()), SensorDown)
    {
      forceOffLatched := false;
      stableKnown, stableState := true, false;
      pendingState, pendingCount := false, 1;
      fired := Announce();
    }
  }

  // ---- Whole runs ----

  function Run(cfg: Config, s: State, es: seq<Event>): State
    decreases |es|
  {
    if es == [] then s else Run(cfg, Apply(cfg, s, es[0]).state, es[1..])
  }

  /** What the callback was told, in order. */
  function Told(cfg: Config, s: State, es: seq<Event>): seq<bool>
    decreases |es|
  {
    if es == [] then []
    else
      var r := Apply(cfg, s, es[0]);
      (if r.fired.Some? then [r.fired.value] else []) + Told(cfg, r.state, es[1..])
  }

  lemma {:induction false} RunAppend(cfg: Config, s: State, es: seq<Event>, fs: seq<Event>)
    ensures Run(cfg, s, es + fs) == Run(cfg, Run(cfg, s, es), fs)
    ensures Told(cfg, s, es + fs) == Told(cfg, s, es) + Told(cfg, Run(cfg, s, es), fs)
    decreases |es|
  {
    if es == [] {
      assert es + fs == fs;
    } else {
      assert (es + fs)[1..] == es[1..] + fs;
      RunAppend(cfg, Apply(cfg, s, es[0]).state, es[1..], fs);
    }
  }

  /** What consumers last heard is what the policy holds true: occupied, unless forced off. */
  predicate Faithful(s: State) {
    s.known ==> s.announced == Some(s.stable && !s.latched)
  }

  predicate Alternates(bs: seq<bool>) {
    forall i :: 0 <= i < |bs| - 1 ==> bs[i] != bs[i + 1]
  }

  lemma ToldStep(cfg: Config, s: State, e: Event)
    requires Faithful(s)
    ensures var r := Apply(cfg, s, e);
      && Faithful(r.state)
      && r.state.announced == (if r.fired.Some? then r.fired else s.announced)
      && (r.fired.Some? ==> s.announced != r.fired)
  {
  }

  /** Over every run: consumers are told of changes only, and are up to date whenever the state is known. */
  lemma {:induction false} OnlyTransitions(cfg: Config, s: State, es: seq<Event>)
    requires Faithful(s)
    ensures Faithful(Run(cfg, s, es))
    ensures var told := Told(cfg, s, es);
      && Alternates(told)
      && (told != [] ==> s.announced != Some(told[0]))
      && Run(cfg, s, es).announced == if told == [] then s.announced else Some(told[|told| - 1])
    decreases |es|
  {
    if es == [] {
    } else {
      var r := Apply(cfg, s, es[0]);
      var rest := Told(cfg, r.state, es[1..]);
      ToldStep(cfg, s, es[0]);
      OnlyTransitions(cfg, r.state, es[1..]);
      if r.fired.Some? {
        assert Told(cfg, s, es) == [r.fired.value] + rest;
      } else {
        assert Told(cfg, s, es) == rest;
      }
    }
  }

  // ---- Debouncing ----

  /** How many of the last events are reports of v, without interruption. */
  function Trailing(es: seq<Event>, v: bool): nat {
    if es == [] then 0
    else
      var last := es[|es| - 1];
      if last.Report? && last.occupied == v then Trailing(es[..|es| - 1], v) + 1 else 0
  }

  /** The counter of the code against the history of events. */
  predicate Counted(s: State, es: seq<Event>) {
    && (s.known ==> s.count >= 1)
    && (s.known && s.pending != s.stable ==> s.count == Trailing(es, s.pending))
    && (es != [] && es[|es| - 1].Report? ==> s.count >= 1 && s.pending == es[|es| - 1].occupied)
  }

  lemma CountedStep(cfg: Config, s: State, es: seq<Event>, e: Event)
    requires Counted(s, es)
    ensures Counted(Apply(cfg, s, e).state, es + [e])
  {
    assert (es + [e])[..|es|] == es;
  }

  lemma {:induction false} CountedRun(cfg: Config, es: seq<Event>)
    ensures Counted(Run(cfg, INITIAL, es), es)
    decreases |es|
  {
    if es == [] {
    } else {
      var before, last := es[..|es| - 1], es[|es| - 1];
      CountedRun(cfg, before);
      assert es == before + [last];
      RunAppend(cfg, INITIAL, before, [last]);
      CountedStep(cfg, Run(cfg, INITIAL, before), before, last);
    }
  }

  /**
   The debouncer, exactly: a report of the other value flips the stable state if and only if it
   completes a run of as many real, uninterrupted reports of that value as its minute demands.
   */
  lemma FlipsExactly(cfg: Config, es: seq<Event>, v: bool, minute: int)
    requires var s := Run(cfg, INITIAL, es); s.known && s.stable != v
    ensures Apply(cfg, Run(cfg, INITIAL, es), Report(v, minute)).state.stable == v
       <==> Trailing(es + [Report(v, minute)], v) >= cfg.Needed(v, minute)
  {
    CountedRun(cfg, es);
    assert (es + [Report(v, minute)])[..|es|] == es;
  }

  /** The stable state flips, by a report, at event i of the run. */
  predicate FlipsAt(cfg: Config, es: seq<Event>, i: nat)
    requires i < |es|
  {
    var s := Run(cfg, INITIAL, es[..i]);
    es[i].Report? && s.known && s.stable != es[i].occupied && Apply(cfg, s, es[i]).state.stable == es[i].occupied
  }

  lemma {:induction false} TrailingReports(es: seq<Event>, v: bool)
    ensures Trailing(es, v) <= |es|
    ensures forall k :: |es| - Trailing(es, v) <= k < |es| ==> es[k].Report? && es[k].occupied == v
    decreases |es|
  {
    if es == [] {
    } else if es[|es| - 1].Report? && es[|es| - 1].occupied == v {
      TrailingReports(es[..|es| - 1], v);
    }
  }

  /** Reports of the stable value leave it alone. */
  lemma {:induction false} SameReportsKeep(cfg: Config, s: State, es: seq<Event>)
    requires s.known && forall k :: 0 <= k < |es| ==> es[k].Report? && es[k].occupied == s.stable
    ensures Run(cfg, s, es).known && Run(cfg, s, es).stable == s.stable
    decreases |es|
  {
    if es == [] {
    } else {
      SameReportsKeep(cfg, Apply(cfg, s, es[0]).state, es[1..]);
    }
  }

  /** A flip lasts as long as reports of the same value follow. */
  lemma StaysFlipped(cfg: Config, es: seq<Event>, i: nat, j: nat)
    requires i < j <= |es| && FlipsAt(cfg, es, i)
    requires forall k :: i < k < j ==> es[k].Report? && es[k].occupied == es[i].occupied
    ensures Run(cfg, INITIAL, es[..j]).stable == es[i].occupied
  {
    var between := es[i + 1..j];
    var s := Run(cfg, INITIAL, es[..i]);
    assert es[..j] == es[..i] + ([es[i]] + between);
    RunAppend(cfg, INITIAL, es[..i], [es[i]] + between);
    assert ([es[i]] + between)[1..] == between;
    SameReportsKeep(cfg, Apply(cfg, s, es[i]).state, between);
  }

  /** Two flips caused by reports are at least the later one's threshold of reports apart, whatever else happens. */
  lemma FlipsApart(cfg: Config, es: seq<Event>, i: nat, j: nat)
    requires i < j < |es| && FlipsAt(cfg, es, i) && FlipsAt(cfg, es, j)
    ensures j - i >= cfg.Needed(es[j].occupied, es[j].minute)
    ensures forall k :: j - cfg.Needed(es[j].occupied, es[j].minute) < k <= j ==>
        es[k].Report? && es[k].occupied == es[j].occupied
  {
    var v, n := es[j].occupied, cfg.Needed(es[j].occupied, es[j].minute);
    assert es[j] == Report(v, es[j].minute);
    FlipsExactly(cfg, es[..j], v, es[j].minute);
    var upTo := es[..j] + [es[j]];
    TrailingReports(upTo, v);
    assert forall k :: j - n < k <= j ==> upTo[k] == es[k];
    if j - i < n {
      assert es[i] == upTo[i];
      assert forall k :: i < k < j ==> es[k] == upTo[k];
      StaysFlipped(cfg, es, i, j);
      assert false;
    }
  }

  // ---- The force-off latch ----

  function AtLeastOne(n: int): nat {
    if n > 1 then n else 1
  }

  /**
   A lower bound on the reports still needed before consumers can be told of presence, when becoming occupied
   takes at least `o` reports and becoming vacant at least `v`.
   */
  function Remaining(s: State, o: Threshold, v: Threshold): nat {
    if s.latched then
      if s.stable then AtLeastOne(v - (if s.pending then 0 else s.count)) + o
      else AtLeastOne(o - (if s.pending then s.count else 0)) + v + o
    else if s.stable then 0
    else AtLeastOne(o - (if s.pending then s.count else 0))
  }

  /** A report that demands at least so much, or another ForceOff. */
  predicate StaysForced(cfg: Config, e: Event, o: Threshold, v: Threshold) {
    if e.Report? then cfg.Needed(true, e.minute) >= o && cfg.Needed(false, e.minute) >= v else e.ForceOff?
  }

  function Reports(es: seq<Event>): nat {
    if es == [] then 0 else (if es[0].Report? then 1 else 0) + Reports(es[1..])
  }

  lemma RemainingStep(cfg: Config, s: State, e: Event, o: Threshold, v: Threshold)
    requires s.known && Faithful(s) && StaysForced(cfg, e, o, v)
    ensures var r := Apply(cfg, s, e);
      && r.state.known && Faithful(r.state)
      && Remaining(r.state, o, v) + (if e.Report? then 1 else 0) >= Remaining(s, o, v)
      && (r.fired == Some(true) ==> e.Report? && Remaining(s, o, v) == 1)
  {
  }

  lemma {:induction false} NotBefore(cfg: Config, s: State, es: seq<Event>, o: Threshold, v: Threshold)
    requires s.known && Faithful(s) && forall k :: 0 <= k < |es| ==> StaysForced(cfg, es[k], o, v)
    ensures true in Told(cfg, s, es) ==> Reports(es) >= Remaining(s, o, v)
    decreases |es|
  {
    if es == [] {
    } else {
      RemainingStep(cfg, s, es[0], o, v);
      NotBefore(cfg, Apply(cfg, s, es[0]).state, es[1..], o, v);
    }
  }

  /**
   After a ForceOff, and until a ForceOn or a change of the sensor service, nobody is told of presence before the
   room was seen occupied, then empty, then occupied again, by the thresholds of the minutes it was reported in.
   */
  lemma ForceOffHoldsFor(cfg: Config, s: State, es: seq<Event>, o: Threshold, v: Threshold)
    requires Faithful(s) && forall k :: 0 <= k < |es| ==> StaysForced(cfg, es[k], o, v)
    requires true in Told(cfg, Apply(cfg, s, ForceOff).state, es)
    ensures Reports(es) >= 2 * o + v
  {
    NotBefore(cfg, Apply(cfg, s, ForceOff).state, es, o, v);
  }

  /** The same whatever the time of day, with the smaller of each two thresholds. */
  lemma ForceOffHolds(cfg: Config, s: State, es: seq<Event>)
    requires Faithful(s) && forall k :: 0 <= k < |es| ==> es[k].Report? || es[k].ForceOff?
    requires true in Told(cfg, Apply(cfg, s, ForceOff).state, es)
    ensures Reports(es) >= 2 * cfg.MinOccupied() + cfg.MinVacant()
  {
    ForceOffHoldsFor(cfg, s, es, cfg.MinOccupied(), cfg.MinVacant());
  }

  function Repeat(v: bool, minute: int, n: nat): seq<Event> {
    seq(n, _ => Report(v, minute))
  }

  /** A run of reports of the other value moves the stable state with its last report and not before. */
  lemma {:induction false} Climb(cfg: Config, s: State, v: bool, minute: int, n: nat)
    requires s.known && Faithful(s) && s.stable != v
    requires 0 < n && n + (if s.pending == v then s.count else 0) == cfg.Needed(v, minute)
    ensures var r := Run(cfg, s, Repeat(v, minute, n));
      r.known && Faithful(r) && r.stable == v && r.pending == v && r.latched == (s.latched && v)
    decreases n
  {
    var next := Apply(cfg, s, Report(v, minute)).state;
    assert Repeat(v, minute, n)[1..] == Repeat(v, minute, n - 1);
    if n == 1 {
      assert Repeat(v, minute, 0) == [];
    } else {
      Climb(cfg, next, v, minute, n - 1);
    }
  }

  /** Occupied, empty and occupied again, each as long as its minute demands. */
  function ComeBack(cfg: Config, mo: int, mv: int): seq<Event> {
    var a, b := Repeat(true, mo, cfg.Needed(true, mo)), Repeat(false, mv, cfg.Needed(false, mv));
    a + b + a
  }

  /** The bound is met at any two minutes: exactly that many reports bring presence back. */
  lemma ForceOffBoundIsTightAt(cfg: Config, s: State, mo: int, mv: int)
    requires Faithful(s)
    ensures true in Told(cfg, Apply(cfg, s, ForceOff).state, ComeBack(cfg, mo, mv))
    ensures |ComeBack(cfg, mo, mv)| == 2 * cfg.Needed(true, mo) + cfg.Needed(false, mv)
  {
    var s0 := Apply(cfg, s, ForceOff).state;
    var a, b := Repeat(true, mo, cfg.Needed(true, mo)), Repeat(false, mv, cfg.Needed(false, mv));
    Climb(cfg, s0, true, mo, cfg.Needed(true, mo));
    var s1 := Run(cfg, s0, a);
    Climb(cfg, s1, false, mv, cfg.Needed(false, mv));
    var s2 := Run(cfg, s1, b);
    Climb(cfg, s2, true, mo, cfg.Needed(true, mo));
    RunAppend(cfg, s0, a, b);
    RunAppend(cfg, s0, a + b, a);
    OnlyTransitions(cfg, s2, a);
    var told := Told(cfg, s2, a);
    assert told != [] && told[|told| - 1];
  }

  /** With a silent window the minima are the thresholds of some minutes, and the bound for any time of day is met. */
  lemma ForceOffBoundIsTight(cfg: Config, s: State) returns (mo: int, mv: int)
    requires Faithful(s)
    requires 0 <= cfg.silentStart < MINUTES_A_DAY && 0 <= cfg.silentEnd < MINUTES_A_DAY && cfg.silentStart != cfg.silentEnd
    ensures 0 <= mo < MINUTES_A_DAY && 0 <= mv < MINUTES_A_DAY
    ensures true in Told(cfg, Apply(cfg, s, ForceOff).state, ComeBack(cfg, mo, mv))
    ensures |ComeBack(cfg, mo, mv)| == 2 * cfg.MinOccupied() + cfg.MinVacant()
  {
    assert cfg.Silent(cfg.silentStart) && !cfg.Silent(cfg.silentEnd);
    mo := if cfg.silentOccupied <= cfg.occupied then cfg.silentStart else cfg.silentEnd;
    mv := if cfg.silentVacant <= cfg.vacant then cfg.silentStart else cfg.silentEnd;
    ForceOffBoundIsTightAt(cfg, s, mo, mv);
  }

  /** Without one only the ordinary thresholds apply, and both bounds are theirs. */
  lemma ForceOffWithoutWindow(cfg: Config, s: State, es: seq<Event>)
    requires Faithful(s) && (cfg.silentStart < 0 || cfg.silentEnd < 0 || cfg.silentStart == cfg.silentEnd)
    requires forall k :: 0 <= k < |es| ==> es[k].Report? || es[k].ForceOff?
    ensures true in Told(cfg, Apply(cfg, s, ForceOff).state, es) ==> Reports(es) >= 2 * cfg.occupied + cfg.vacant
    ensures true in Told(cfg, Apply(cfg, s, ForceOff).state, ComeBack(cfg, 0, 0))
    ensures |ComeBack(cfg, 0, 0)| == 2 * cfg.occupied + cfg.vacant
  {
    if true in Told(cfg, Apply(cfg, s, ForceOff).state, es) {
      ForceOffHoldsFor(cfg, s, es, cfg.occupied, cfg.vacant);
    }
    ForceOffBoundIsTightAt(cfg, s, 0, 0);
  }

  // ---- What the calls announce ----

  /** Consumers know of v, and the state is v for certain. */
  predicate SettledAt(s: State, v: bool) {
    s.known && !s.latched && s.stable == v && s.announced == Some(v)
  }

  /** ForceOn: presence, announced at once unless consumers know of it, whatever the state was. */
  lemma ForceOnAnnounces(cfg: Config, s: State)
    ensures var r := Apply(cfg, s, ForceOn);
      && SettledAt(r.state, true) && r.fired == if s.announced == Some(true) then None else Some(true)
  {
  }

  /** ForceOff: no presence, announced the same way, and kept by the latch. */
  lemma ForceOffAnnounces(cfg: Config, s: State)
    ensures var r := Apply(cfg, s, ForceOff);
      && r.state.known && r.state.latched && !r.state.stable && r.state.announced == Some(false)
      && r.fired == if s.announced == Some(false) then None else Some(false)
  {
  }

  /** A lost sensor: no presence, announced the same way, and no latch. */
  lemma SensorDownAnnounces(cfg: Config, s: State)
    ensures var r := Apply(cfg, s, SensorDown);
      && SettledAt(r.state, false) && r.fired == if s.announced == Some(false) then None else Some(false)
  {
  }

  /** A sensor that comes up changes nothing consumers know of, and no latch; what it reports starts over. */
  lemma SensorUpIsSilent(cfg: Config, s: State)
    ensures var r := Apply(cfg, s, SensorUp);
      && r.fired == None && r.state.announced == s.announced && r.state.latched == s.latched
      && !r.state.known && r.state.ticks == 0 && r.state.count == 0
  {
  }

  /** A report that demands at least n of its kind to change to v, or a call that confirms the opposite. */
  predicate StaysAt(cfg: Config, e: Event, v: bool, n: Threshold) {
    if e.Report? then cfg.Needed(v, e.minute) >= n else if v then e.SensorDown? else e.ForceOn?
  }

  /** The reports of v. */
  function ReportsOf(es: seq<Event>, v: bool): nat {
    if es == [] then 0 else (if es[0].Report? && es[0].occupied == v then 1 else 0) + ReportsOf(es[1..], v)
  }

  /** A lower bound on the reports of v still needed before consumers are told of v. */
  function ToGo(s: State, v: bool, n: Threshold): nat {
    if s.stable == v then 0 else AtLeastOne(n - (if s.pending == v then s.count else 0))
  }

  lemma ToGoStep(cfg: Config, s: State, e: Event, v: bool, n: Threshold)
    requires SettledAt(s, !v) && StaysAt(cfg, e, v, n)
    ensures var r := Apply(cfg, s, e);
      && (if r.state.stable == v then r.fired == Some(v) else r.fired == None && SettledAt(r.state, !v))
      && ToGo(r.state, v, n) + (if e.Report? && e.occupied == v then 1 else 0) >= ToGo(s, v, n)
  {
  }

  lemma {:induction false} NotBeforeReports(cfg: Config, s: State, es: seq<Event>, v: bool, n: Threshold)
    requires SettledAt(s, !v) && forall k :: 0 <= k < |es| ==> StaysAt(cfg, es[k], v, n)
    ensures Told(cfg, s, es) != [] ==> ReportsOf(es, v) >= ToGo(s, v, n)
    decreases |es|
  {
    if es == [] {
    } else {
      var r := Apply(cfg, s, es[0]);
      ToGoStep(cfg, s, es[0], v, n);
      if r.state.stable != v {
        NotBeforeReports(cfg, r.state, es[1..], v, n);
      }
    }
  }

  /**
   After ForceOn, and as long as only reports and further ForceOns follow, consumers hear nothing before as many
   vacant reports as their minutes demand at the least.
   */
  lemma ForceOnHolds(cfg: Config, s: State, es: seq<Event>, n: Threshold)
    requires forall k :: 0 <= k < |es| ==> StaysAt(cfg, es[k], false, n)
    ensures Told(cfg, Apply(cfg, s, ForceOn).state, es) != [] ==> ReportsOf(es, false) >= n
  {
    ForceOnAnnounces(cfg, s);
    NotBeforeReports(cfg, Apply(cfg, s, ForceOn).state, es, false, n);
  }

  /** And after a lost sensor, nothing before as many occupied reports. */
  lemma SensorDownHolds(cfg: Config, s: State, es: seq<Event>, n: Threshold)
    requires forall k :: 0 <= k < |es| ==> StaysAt(cfg, es[k], true, n)
    ensures Told(cfg, Apply(cfg, s, SensorDown).state, es) != [] ==> ReportsOf(es, true) >= n
  {
    SensorDownAnnounces(cfg, s);
    NotBeforeReports(cfg, Apply(cfg, s, SensorDown).state, es, true, n);
  }

  lemma SameReportsKeepIf(cfg: Config, s: State, es: seq<Event>, v: bool)
    requires s.known && forall k :: 0 <= k < |es| ==> es[k].Report? && es[k].occupied == v
    ensures s.stable == v ==> Run(cfg, s, es).stable == v
  {
    if s.stable == v {
      SameReportsKeep(cfg, s, es);
    }
  }

  /** Reports of one value tell consumers of it once at most. */
  lemma {:induction false} OnceOnly(cfg: Config, s: State, es: seq<Event>, v: bool)
    requires s.known && !s.latched && Faithful(s)
    requires forall k :: 0 <= k < |es| ==> es[k].Report? && es[k].occupied == v
    ensures Told(cfg, s, es) == if s.stable != v && Run(cfg, s, es).stable == v then [v] else []
    decreases |es|
  {
    if es == [] {
    } else {
      OnceOnly(cfg, Apply(cfg, s, es[0]).state, es[1..], v);
      SameReportsKeepIf(cfg, Apply(cfg, s, es[0]).state, es[1..], v);
    }
  }

  /** Exactly that many reports in one minute, and no fewer, bring the change, and consumers hear of it once. */
  lemma EnoughReportsChange(cfg: Config, s: State, v: bool, minute: int)
    requires SettledAt(s, !v) && s.pending == !v
    ensures Told(cfg, s, Repeat(v, minute, cfg.Needed(v, minute))) == [v]
  {
    var n := cfg.Needed(v, minute);
    var es := Repeat(v, minute, n);
    Climb(cfg, s, v, minute, n);
    OnlyTransitions(cfg, s, es);
    OnceOnly(cfg, s, es, v);
  }

  lemma ForceOnAndSensorDownEnd(cfg: Config, s: State, minute: int)
    ensures Told(cfg, Apply(cfg, s, ForceOn).state, Repeat(false, minute, cfg.Needed(false, minute))) == [false]
    ensures Told(cfg, Apply(cfg, s, SensorDown).state, Repeat(true, minute, cfg.Needed(true, minute))) == [true]
  {
    EnoughReportsChange(cfg, Apply(cfg, s, ForceOn).state, false, minute);
    EnoughReportsChange(cfg, Apply(cfg, s, SensorDown).state, true, minute);
  }

  // ---- The stabilization delay ----

  lemma {:induction false} KnownAfter(cfg: Config, s: State, es: seq<Event>)
    requires forall k :: 0 <= k < |es| ==> es[k].Report?
    ensures Run(cfg, s, es).known <==> s.known || (es != [] && s.ticks + |es| >= cfg.delay)
    ensures !Run(cfg, s, es).known ==> Told(cfg, s, es) == []
    decreases |es|
  {
    if es == [] {
    } else {
      KnownAfter(cfg, Apply(cfg, s, es[0]).state, es[1..]);
    }
  }

  /** After the sensor comes up, the state is first known with the delay-th report (with the first, if there is no delay). */
  lemma {:induction false} FirstCommit(cfg: Config, s: State, es: seq<Event>)
    requires forall k :: 0 <= k < |es| ==> es[k].Report?
    ensures Run(cfg, Apply(cfg, s, SensorUp).state, es).known <==> |es| >= AtLeastOne(cfg.delay)
    ensures !Run(cfg, Apply(cfg, s, SensorUp).state, es).known ==> Told(cfg, Apply(cfg, s, SensorUp).state, es) == []
    decreases |es|
  {
    KnownAfter(cfg, Apply(cfg, s, SensorUp).state, es);
  }

  lemma {:induction false} KeptWhileUnknown(cfg: Config, s: State, es: seq<Event>)
    requires (forall k :: 0 <= k < |es| ==> es[k].Report?) && !s.known && !Run(cfg, s, es).known
    ensures Run(cfg, s, es).latched == s.latched && Run(cfg, s, es).announced == s.announced
    decreases |es|
  {
    if es == [] {
    } else {
      KnownAfter(cfg, Apply(cfg, s, es[0]).state, es[1..]);
      KeptWhileUnknown(cfg, Apply(cfg, s, es[0]).state, es[1..]);
    }
  }

  /** ... and it is the value of that report; while latched, consumers are told of no presence all the same. */
  lemma FirstCommitTakesReport(cfg: Config, s: State, es: seq<Event>)
    requires (forall k :: 0 <= k < |es| ==> es[k].Report?) && |es| == AtLeastOne(cfg.delay)
    ensures var r := Run(cfg, Apply(cfg, s, SensorUp).state, es);
      && r.stable == es[|es| - 1].occupied && r.latched == s.latched
      && r.announced == Some(es[|es| - 1].occupied && !s.latched)
  {
    var up := Apply(cfg, s, SensorUp).state;
    var front, last := es[..|es| - 1], es[|es| - 1];
    assert es == front + [last];
    RunAppend(cfg, up, front, [last]);
    FirstCommit(cfg, s, es);
    FirstCommit(cfg, s, front);
    KeptWhileUnknown(cfg, up, front);
  }
}
