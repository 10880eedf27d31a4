/** One worker pool for any number of threads (`ExecutionRuntime::install` in `runtime.rs`). */
module Runtime {
  import opened Wrappers

  /** How far a call of `install` has come. */
  datatype Phase =
    | Idle
    | AtLock                                // saw no pool without the lock
    | Locked                                // holds the lock
    | Building                              // holds the lock, saw no pool
    | Built(pool: nat)                      // holds the lock, has a pool to set
    | Running(pool: nat, locked: bool)      // runs its operation on a pool
    | Done(pool: nat)
    | Failed

  /** Pools are numbered by the builds that succeeded. */
  datatype World = World(threads: map<nat, Phase>, lock: Option<nat>, pool: Option<nat>, builds: nat)

  datatype Event =
    | Call(t: nat)
    | Look(t: nat)
    | Acquire(t: nat)
    | LookAgain(t: nat)
    | Build(t: nat, ok: bool)
    | Set(t: nat)
    | Return(t: nat)

  predicate Holds(phase: Phase) {
    phase.Locked? || phase.Building? || phase.Built? || (phase.Running? && phase.locked)
  }

  /** A step a thread may take; setting the pool is possible whatever the pool, and checked below. */
  predicate Enabled(w: World, e: Event) {
    if e.Call? then e.t !in w.threads || w.threads[e.t].Done? || w.threads[e.t].Failed?
    else
      e.t in w.threads &&
      match e
      case Look(t) => w.threads[t].Idle?
      case Acquire(t) => w.threads[t].AtLock? && w.lock.None?
      case LookAgain(t) => w.threads[t].Locked?
      case Build(t, _) => w.threads[t].Building?
      case Set(t) => w.threads[t].Built?
      case _ => w.threads[e.t].Running?
  }

  function At(w: World, t: nat, phase: Phase): World {
    w.(threads := w.threads[t := phase])
  }

  function Next(w: World, e: Event): World
    requires Enabled(w, e)
  {
    match e
    case Call(t) => At(w, t, Idle)
    case Look(t) => At(w, t, if w.pool.Some? then Running(w.pool.value, false) else AtLock)
    case Acquire(t) => At(w, t, Locked).(lock := Some(t))
    case LookAgain(t) => At(w, t, if w.pool.Some? then Running(w.pool.value, true) else Building)
    case Build(t, ok) =>
      if ok then At(w, t, Built(w.builds)).(builds := w.builds + 1) else At(w, t, Failed).(lock := None)
    case Set(t) => At(w, t, Running(w.threads[t].pool, true)).(pool := Some(w.threads[t].pool))
    case Return(t) =>
      At(w, t, Done(w.threads[t].pool)).(lock := if w.threads[t].locked then None else w.lock)
  }

  /** No thread yet. */
  const START: World := World(map[], None, None, 0)

  ghost predicate Runs(w: World, events: seq<Event>)
    decreases |events|
  {
    events == [] || (Enabled(w, events[0]) && Runs(Next(w, events[0]), events[1..]))
  }

  ghost function After(w: World, events: seq<Event>): World
    requires Runs(w, events)
    decreases |events|
  {
    if events == [] then w else After(Next(w, events[0]), events[1..])
  }

  /** The lock has one holder; a built pool waits for an empty cell; every operation runs on the pool that is set. */
  predicate Sound(w: World) {
    && (forall t | t in w.threads && Holds(w.threads[t]) :: w.lock == Some(t))
    && (forall t | t in w.threads && (w.threads[t].Building? || w.threads[t].Built?) :: w.pool.None?)
    && (forall t | t in w.threads && w.threads[t].Built? :: w.builds == 1 && w.threads[t].pool == 0)
    && (forall t | t in w.threads && (w.threads[t].Running? || w.threads[t].Done?) :: w.pool == Some(w.threads[t].pool))
    && (w.pool.Some? ==> w.pool == Some(0) && w.builds == 1)
    && (w.builds > 0 ==> w.pool.Some? || exists t | t in w.threads :: w.threads[t].Built?)
  }

  /** Building starts only when nothing was ever built. */
  lemma BuildingIsFirst(w: World, t: nat)
    requires Sound(w) && t in w.threads && w.threads[t].Building?
    ensures w.builds == 0
  {
    if w.builds > 0 {
      var other :| other in w.threads && w.threads[other].Built?;
      assert Holds(w.threads[other]) && Holds(w.threads[t]);
    }
  }

  lemma SoundStep(w: World, e: Event)
    requires Sound(w) && Enabled(w, e)
    ensures Sound(Next(w, e))
    ensures w.pool.Some? ==> Next(w, e).pool == w.pool
    ensures e.Set? ==> w.pool.None?
  {
    var next := Next(w, e);
    if e.Build? {
      BuildingIsFirst(w, e.t);
      assert Holds(w.threads[e.t]);
      if e.ok {
        assert next.threads[e.t].Built?;
      }
    } else if e.Set? {
      assert Holds(w.threads[e.t]);
    } else if next.builds > 0 && next.pool.None? {
      var t :| t in w.threads && w.threads[t].Built?;
      assert next.threads[t].Built?;
    }
  }

  /**
   * Over every interleaving of any number of threads at most one pool is ever built and set, setting it never fails,
   * and every call that returns without a build failure ran its operation on that pool.
   */
  lemma {:induction false} OnePool(w: World, events: seq<Event>)
    requires Sound(w) && Runs(w, events)
    ensures var end := After(w, events);
            && Sound(end)
            && end.builds <= 1
            && (w.pool.Some? ==> end.pool == w.pool)
            && (forall t | t in end.threads && end.threads[t].Built? :: end.pool.None?)
            && (forall t | t in end.threads && end.threads[t].Done? :: end.pool == Some(end.threads[t].pool))
    decreases |events|
  {
    if events == [] {
      BuildsBounded(w);
    } else {
      SoundStep(w, events[0]);
      OnePool(Next(w, events[0]), events[1..]);
    }
  }

  lemma BuildsBounded(w: World)
    requires Sound(w)
    ensures w.builds <= 1
  {
  }

  /** In particular over every run that starts without threads. */
  lemma OnePoolFromStart(events: seq<Event>)
    requires Runs(START, events)
    ensures After(START, events).builds <= 1
    ensures forall t | t in After(START, events).threads && After(START, events).threads[t].Done? ::
              After(START, events).pool == Some(After(START, events).threads[t].pool)
  {
    OnePool(START, events);
  }
}
