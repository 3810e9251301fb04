/** What the event manager promises over whole runs: the active set follows the calendar between
    polls, and the grid follows the active set. */
module GameEventProofs {
  import opened GameEventTime
  import opened GameEvents

  // -------------------------------------------------------- the slots of signed ids

  /** Signed ids and list indices correspond one to one, and `GetGameEventId` goes back. */
  lemma SlotBijection(cfg: Config, size: nat, guid: nat, id: int)
    requires Sized(cfg, size)
    ensures -(size as int) < id < size <==> 0 <= Slot(size, id) < |cfg.creatureGuids|
    ensures forall id' :: Slot(size, id') == Slot(size, id) ==> id' == id
    ensures TaggedOnce(cfg.creatureGuids, size, guid, id) ==> FirstTag(cfg.creatureGuids, size, guid) == id
  {
    if TaggedOnce(cfg.creatureGuids, size, guid, id) {
      FirstTagIs(cfg.creatureGuids, size, guid, Slot(size, id));
    }
  }

  /** `guid` is in the list of `id` and in no other. */
  ghost predicate TaggedOnce(lists: seq<seq<nat>>, size: nat, guid: nat, id: int) {
    && id != 0
    && 0 <= Slot(size, id) < |lists|
    && guid in lists[Slot(size, id)]
    && forall i :: 0 <= i < |lists| && i != Slot(size, id) ==> guid !in lists[i]
  }

  // ----------------------------------------------------------- grid follows active

  /** The kinds of spawn are kept the same way; a pool as a whole is a spawn of a positive event. */
  datatype Kind = Creature | Gameobject | Pool

  /** The lists in the order of `Slot`: no pools are listed for negative ids. */
  function Lists(cfg: Config, k: Kind): (r: seq<seq<nat>>) {
    match k
    case Creature => cfg.creatureGuids
    case Gameobject => cfg.gameobjectGuids
    case Pool => seq(if |cfg.spawnPoolIds| == 0 then 0 else |cfg.spawnPoolIds| - 1, i => []) + cfg.spawnPoolIds
  }

  /** Has data, and is not left to the pool manager, as pooled guids with a negative tag are. */
  predicate Managed(cfg: Config, k: Kind, guid: nat, id: int) {
    match k
    case Creature => guid in cfg.creatureData && (id >= 0 || guid !in cfg.creaturePools)
    case Gameobject => guid in cfg.gameobjectData && (id >= 0 || guid !in cfg.gameobjectPools)
    case Pool => true
  }

  function Grid(w: World, k: Kind): (r: set<nat>) {
    match k
    case Creature => w.creatures
    case Gameobject => w.gameobjects
    case Pool => w.pools
  }

  function Abs(x: int): (r: nat) {
    if x < 0 then -x else x
  }

  /** A managed spawn, tagged with exactly one signed event id. */
  ghost predicate Spawn(cfg: Config, size: nat, k: Kind, guid: nat, id: int) {
    TaggedOnce(Lists(cfg, k), size, guid, id) && Managed(cfg, k, guid, id)
  }

  /** In the grid exactly while its event is on (positive tag) or off (negative tag). */
  predicate Follows(w: World, k: Kind, guid: nat, id: int) {
    guid in Grid(w, k) <==> (if id > 0 then Abs(id) in w.active else Abs(id) !in w.active)
  }

  /** A list changes a tagged spawn exactly when it is the list of its tag. */
  lemma SpawnEffect(cfg: Config, w: World, n: int, k: Kind, guid: nat, id: int)
    requires Sized(cfg, |w.events|) && Spawn(cfg, |w.events|, k, guid, id)
    ensures guid in Grid(SpawnSpec(cfg, w, n), k) <==> guid in Grid(w, k) || n == id
    ensures guid in Grid(UnspawnSpec(cfg, w, n), k) <==> guid in Grid(w, k) && n != id
  {
    if k == Pool {
      assert n > 0 && n < |w.events| ==> Lists(cfg, k)[Slot(|w.events|, n)] == cfg.spawnPoolIds[n];
    }
  }

  lemma ApplyEffect(cfg: Config, w: World, e: nat, k: Kind, guid: nat, id: int)
    requires Sized(cfg, |w.events|) && Spawn(cfg, |w.events|, k, guid, id)
    ensures Abs(id) == e || Follows(w, k, guid, id) ==> Follows(ApplySpec(cfg, w, e), k, guid, id)
    ensures Abs(id) == e || Follows(w, k, guid, id) ==> Follows(UnApplySpec(cfg, w, e), k, guid, id)
    ensures Abs(id) != e ==> (guid in Grid(ApplySpec(cfg, w, e), k) <==> guid in Grid(w, k))
    ensures Abs(id) != e ==> (guid in Grid(UnApplySpec(cfg, w, e), k) <==> guid in Grid(w, k))
  {
    hide SpawnSpec, UnspawnSpec, Spawn;
    var on, off := w.(active := w.active + {e}), w.(active := w.active - {e});
    SpawnActive(cfg, on, e);
    SpawnActive(cfg, SpawnSpec(cfg, on, e), -1 * e);
    SpawnActive(cfg, off, e);
    SpawnActive(cfg, UnspawnSpec(cfg, off, e), -1 * e);
    SpawnEffect(cfg, on, e, k, guid, id);
    SpawnEffect(cfg, SpawnSpec(cfg, on, e), -1 * e, k, guid, id);
    SpawnEffect(cfg, off, e, k, guid, id);
    SpawnEffect(cfg, UnspawnSpec(cfg, off, e), -1 * e, k, guid, id);
  }

  lemma SpawnActive(cfg: Config, w: World, n: int)
    requires Sized(cfg, |w.events|)
    ensures SpawnSpec(cfg, w, n).active == w.active && SpawnSpec(cfg, w, n).events == w.events
    ensures UnspawnSpec(cfg, w, n).active == w.active && UnspawnSpec(cfg, w, n).events == w.events
  {
  }

  lemma StartStopEffect(cfg: Config, w: World, e: nat, ow: bool, now: int, k: Kind, guid: nat, id: int)
    requires Sized(cfg, |w.events|) && Spawn(cfg, |w.events|, k, guid, id)
    ensures Follows(w, k, guid, id) || (Abs(id) == e && IsValidEvent(w, e)) ==>
              && Follows(StartSpec(cfg, w, e, ow, now), k, guid, id)
              && Follows(StopSpec(cfg, w, e, ow, now), k, guid, id)
    ensures Abs(id) != e ==>
              && (guid in Grid(StartSpec(cfg, w, e, ow, now), k) <==> guid in Grid(w, k))
              && (guid in Grid(StopSpec(cfg, w, e, ow, now), k) <==> guid in Grid(w, k))
  {
    hide ApplySpec, UnApplySpec, Spawn;
    ApplyEffect(cfg, w, e, k, guid, id);
  }

  // -------------------------------------------------------------------- operations

  datatype Op =
    | UpdateOp(now: int)
    | StartOp(id: nat, overwrite: bool, now: int)
    | StopOp(id: nat, overwrite: bool, now: int)
    | EnableOp(id: nat, enable: bool, now: int)

  ghost function Do(cfg: Config, w: World, op: Op): (w': World)
    requires ValidWorld(cfg, w)
  {
    match op
    case UpdateOp(now) => PollAll(cfg, w, |w.events| - 1, now)
    case StartOp(id, ow, now) => StartSpec(cfg, w, id, ow, now)
    case StopOp(id, ow, now) => StopSpec(cfg, w, id, ow, now)
    case EnableOp(id, enable, now) => EnableSpec(cfg, w, id, enable, now)
  }

  lemma DoKeepsValid(cfg: Config, w: World, op: Op)
    requires ValidWorld(cfg, w)
    ensures ValidWorld(cfg, Do(cfg, w, op))
    ensures |Do(cfg, w, op).events| == |w.events| && Do(cfg, w, op).init == w.init
  {
    hide PollAll, SpawnSpec, UnspawnSpec;
    if op.EnableOp? || op.StartOp? || op.StopOp? {
      ApplyShape(cfg, w, op.id);
      if op.EnableOp? && IsValidEvent(w, op.id) {
        ApplyShape(cfg, w.(events := w.events[op.id := w.events[op.id].(disabled := !op.enable)]), op.id);
      }
    }
  }

  lemma ApplyShape(cfg: Config, w: World, e: nat)
    requires Sized(cfg, |w.events|)
    ensures ApplySpec(cfg, w, e).events == w.events && ApplySpec(cfg, w, e).init == w.init
    ensures ApplySpec(cfg, w, e).active == w.active + {e}
    ensures UnApplySpec(cfg, w, e).events == w.events && UnApplySpec(cfg, w, e).init == w.init
    ensures UnApplySpec(cfg, w, e).active == w.active - {e}
  {
  }

  ghost function DoAll(cfg: Config, w: World, ops: seq<Op>): (w': World)
    requires ValidWorld(cfg, w)
    ensures ValidWorld(cfg, w') && |w'.events| == |w.events| && w'.init == w.init
    decreases ops
  {
    if ops == [] then w
    else
      DoKeepsValid(cfg, w, ops[0]);
      DoAll(cfg, Do(cfg, w, ops[0]), ops[1..])
  }

  lemma PollFollows(cfg: Config, w: World, e: nat, now: int, k: Kind, guid: nat, id: int)
    requires ValidWorld(cfg, w) && e < |w.events| && w.init
    requires Spawn(cfg, |w.events|, k, guid, id) && Follows(w, k, guid, id)
    ensures Follows(PollSpec(cfg, w, e, now), k, guid, id)
  {
    hide StartSpec, StopSpec, Spawn, CheckOne;
    StartStopEffect(cfg, w, e, false, now, k, guid, id);
  }

  lemma {:induction false} PollAllFollows(cfg: Config, w: World, n: nat, now: int, k: Kind, guid: nat, id: int)
    requires ValidWorld(cfg, w) && n < |w.events| && w.init
    requires Spawn(cfg, |w.events|, k, guid, id) && Follows(w, k, guid, id)
    ensures Follows(PollAll(cfg, w, n, now), k, guid, id)
  {
    hide PollSpec, Spawn;
    if n > 0 {
      PollAllFollows(cfg, w, n - 1, now, k, guid, id);
      PollFollows(cfg, PollAll(cfg, w, n - 1, now), n, now, k, guid, id);
    }
  }

  lemma DoFollows(cfg: Config, w: World, op: Op, k: Kind, guid: nat, id: int)
    requires ValidWorld(cfg, w) && w.init
    requires Spawn(cfg, |w.events|, k, guid, id) && Follows(w, k, guid, id)
    ensures Follows(Do(cfg, w, op), k, guid, id)
  {
    hide StartSpec, StopSpec, Spawn, PollAll;
    match op
    case UpdateOp(now) => PollAllFollows(cfg, w, |w.events| - 1, now, k, guid, id);
    case StartOp(e, ow, now) => StartStopEffect(cfg, w, e, ow, now, k, guid, id);
    case StopOp(e, ow, now) => StartStopEffect(cfg, w, e, ow, now, k, guid, id);
    case EnableOp(e, enable, now) =>
      if IsValidEvent(w, e) {
        var w1 := w.(events := w.events[e := w.events[e].(disabled := !enable)]);
        StartStopEffect(cfg, w1, e, true, now, k, guid, id);
      }
  }

  lemma {:induction false} DoAllFollows(cfg: Config, w: World, ops: seq<Op>, k: Kind, guid: nat, id: int)
    requires ValidWorld(cfg, w) && w.init
    requires Spawn(cfg, |w.events|, k, guid, id) && Follows(w, k, guid, id)
    ensures Follows(DoAll(cfg, w, ops), k, guid, id)
    decreases ops
  {
    hide Spawn, Do;
    if ops != [] {
      DoKeepsValid(cfg, w, ops[0]);
      DoFollows(cfg, w, ops[0], k, guid, id);
      DoAllFollows(cfg, Do(cfg, w, ops[0]), ops[1..], k, guid, id);
    }
  }

  // ------------------------------------------------------------------ initialisation

  /** During the first update, a spawn whose event has not had its turn is still out of the grid. */
  lemma {:induction false} InitFollows(cfg: Config, w: World, n: nat, now: int, k: Kind, guid: nat, id: int)
    requires ValidWorld(cfg, w) && n < |w.events| && !w.init && w.active == {}
    requires Spawn(cfg, |w.events|, k, guid, id) && guid !in Grid(w, k)
    requires Abs(id) < |w.events| && w.events[Abs(id)].Valid()
    requires !w.events[Abs(id)].hardcoded && !w.events[Abs(id)].disabled
    ensures var w' := PollAll(cfg, w, n, now);
            if Abs(id) <= n then Follows(w', k, guid, id)
            else Abs(id) !in w'.active && guid !in Grid(w', k)
  {
    hide PollSpec;
    if n > 0 {
      InitFollows(cfg, w, n - 1, now, k, guid, id);
      InitTurn(cfg, PollAll(cfg, w, n - 1, now), n, now, k, guid, id);
    }
  }

  lemma InitTurn(cfg: Config, w: World, e: nat, now: int, k: Kind, guid: nat, id: int)
    requires ValidWorld(cfg, w) && 0 < e < |w.events| && !w.init && Abs(id) < |w.events|
    requires Spawn(cfg, |w.events|, k, guid, id)
    ensures var w' := PollSpec(cfg, w, e, now);
            && (Abs(id) != e ==>
                  && (Abs(id) in w'.active <==> Abs(id) in w.active)
                  && (guid in Grid(w', k) <==> guid in Grid(w, k)))
            && (Abs(id) == e && e !in w.active && guid !in Grid(w, k)
                && w.events[e].Valid() && !w.events[e].hardcoded && !w.events[e].disabled ==>
                  Follows(w', k, guid, id))
  {
    hide Spawn, CheckOne, SpawnSpec, UnspawnSpec;
    StartStopEffect(cfg, w, e, false, now, k, guid, id);
    SpawnEffect(cfg, w, -1 * e, k, guid, id);
    StartStopActive(cfg, w, e, now);
    SpawnActive(cfg, w, -1 * e);
  }

  lemma StartStopActive(cfg: Config, w: World, e: nat, now: int)
    requires Sized(cfg, |w.events|)
    ensures StartSpec(cfg, w, e, false, now).active == if IsValidEvent(w, e) then w.active + {e} else w.active
    ensures StopSpec(cfg, w, e, false, now).active == if IsValidEvent(w, e) then w.active - {e} else w.active
  {
  }

  /** In every run that starts with `Initialize`, a spawn tagged with one regular event that was
      enabled then is in the grid exactly while the event is active, or inactive for a negative tag,
      whatever updates, manual starts and stops, and enabling or disabling follow. */
  lemma SpawnInvariant(cfg: Config, w: World, now: int, ops: seq<Op>, k: Kind, guid: nat, id: int)
    requires ValidWorld(cfg, w) && !w.init
    requires Spawn(cfg, |w.events|, k, guid, id) && guid !in Grid(w, k)
    requires Abs(id) < |w.events| && w.events[Abs(id)].Valid()
    requires !w.events[Abs(id)].hardcoded && !w.events[Abs(id)].disabled
    ensures Follows(DoAll(cfg, InitSpec(cfg, w, now), ops), k, guid, id)
  {
    hide PollAll, DoAll, Spawn;
    InitFollows(cfg, w.(active := {}), |w.events| - 1, now, k, guid, id);
    DoAllFollows(cfg, InitSpec(cfg, w, now), ops, k, guid, id);
  }

  // ------------------------------------------------------------------ left alone

  /** No event manages this guid: it has no data, or is pooled and listed under negative ids only. */
  ghost predicate Ignored(cfg: Config, size: nat, k: Kind, guid: nat) {
    forall id: int :: 0 <= Slot(size, id) < |Lists(cfg, k)| && guid in Lists(cfg, k)[Slot(size, id)] ==>
      !Managed(cfg, k, guid, id)
  }

  lemma SpawnIgnores(cfg: Config, w: World, n: int, k: Kind, guid: nat)
    requires Sized(cfg, |w.events|) && Ignored(cfg, |w.events|, k, guid)
    ensures guid in Grid(SpawnSpec(cfg, w, n), k) <==> guid in Grid(w, k)
    ensures guid in Grid(UnspawnSpec(cfg, w, n), k) <==> guid in Grid(w, k)
  {
    var i := Slot(|w.events|, n);
    if 0 <= i < |cfg.creatureGuids| {
      assert guid in Lists(cfg, k)[Slot(|w.events|, n)] ==> !Managed(cfg, k, guid, n);
      if k == Pool && n > 0 {
        assert Lists(cfg, k)[i] == cfg.spawnPoolIds[n];
      }
    }
  }

  lemma ApplyIgnores(cfg: Config, w: World, e: nat, k: Kind, guid: nat)
    requires Sized(cfg, |w.events|) && Ignored(cfg, |w.events|, k, guid)
    ensures guid in Grid(ApplySpec(cfg, w, e), k) <==> guid in Grid(w, k)
    ensures guid in Grid(UnApplySpec(cfg, w, e), k) <==> guid in Grid(w, k)
  {
    hide SpawnSpec, UnspawnSpec, Ignored;
    var on, off := w.(active := w.active + {e}), w.(active := w.active - {e});
    SpawnActive(cfg, on, e);
    SpawnActive(cfg, off, e);
    SpawnIgnores(cfg, on, e, k, guid);
    SpawnIgnores(cfg, SpawnSpec(cfg, on, e), -1 * e, k, guid);
    SpawnIgnores(cfg, off, e, k, guid);
    SpawnIgnores(cfg, UnspawnSpec(cfg, off, e), -1 * e, k, guid);
  }

  lemma {:induction false} PollAllIgnores(cfg: Config, w: World, n: nat, now: int, k: Kind, guid: nat)
    requires ValidWorld(cfg, w) && n < |w.events| && Ignored(cfg, |w.events|, k, guid)
    ensures guid in Grid(PollAll(cfg, w, n, now), k) <==> guid in Grid(w, k)
  {
    hide Ignored, ApplySpec, UnApplySpec, SpawnSpec, CheckOne;
    if n > 0 {
      PollAllIgnores(cfg, w, n - 1, now, k, guid);
      var w1 := PollAll(cfg, w, n - 1, now);
      ApplyIgnores(cfg, w1, n, k, guid);
      SpawnIgnores(cfg, w1, -1 * n, k, guid);
    }
  }

  lemma DoIgnores(cfg: Config, w: World, op: Op, k: Kind, guid: nat)
    requires ValidWorld(cfg, w) && Ignored(cfg, |w.events|, k, guid)
    ensures guid in Grid(Do(cfg, w, op), k) <==> guid in Grid(w, k)
  {
    hide Ignored, ApplySpec, UnApplySpec, PollAll;
    match op
    case UpdateOp(now) => PollAllIgnores(cfg, w, |w.events| - 1, now, k, guid);
    case StartOp(e, ow, now) => ApplyIgnores(cfg, w, e, k, guid);
    case StopOp(e, ow, now) => ApplyIgnores(cfg, w, e, k, guid);
    case EnableOp(e, enable, now) =>
      if IsValidEvent(w, e) {
        ApplyIgnores(cfg, w.(events := w.events[e := w.events[e].(disabled := !enable)]), e, k, guid);
      }
  }

  /** In every run, a guid that no event manages stays where it was. */
  lemma {:induction false} IgnoredStays(cfg: Config, w: World, now: int, ops: seq<Op>, k: Kind, guid: nat)
    requires ValidWorld(cfg, w) && Ignored(cfg, |w.events|, k, guid)
    ensures guid in Grid(DoAll(cfg, InitSpec(cfg, w, now), ops), k) <==> guid in Grid(w, k)
  {
    hide Ignored, DoAll, PollAll;
    PollAllIgnores(cfg, w.(active := {}), |w.events| - 1, now, k, guid);
    DoAllIgnores(cfg, InitSpec(cfg, w, now), ops, k, guid);
  }

  lemma {:induction false} DoAllIgnores(cfg: Config, w: World, ops: seq<Op>, k: Kind, guid: nat)
    requires ValidWorld(cfg, w) && Ignored(cfg, |w.events|, k, guid)
    ensures guid in Grid(DoAll(cfg, w, ops), k) <==> guid in Grid(w, k)
    decreases ops
  {
    hide Ignored, Do;
    if ops != [] {
      DoKeepsValid(cfg, w, ops[0]);
      DoIgnores(cfg, w, ops[0], k, guid);
      DoAllIgnores(cfg, Do(cfg, w, ops[0]), ops[1..], k, guid);
    }
  }

  // ---------------------------------------------------------------- the active set

  /** Enabling and disabling: only a change of a valid event's flag does anything, and then an active
      event that is not scripted is stopped, whichever way the flag went. */
  lemma EnableMeans(cfg: Config, w: World, id: nat, enable: bool, now: int)
    requires ValidWorld(cfg, w)
    ensures var w' := EnableSpec(cfg, w, id, enable, now);
            if id < |w.events| && w.events[id].length > 0 && w.events[id].disabled == enable then
              && |w'.events| == |w.events| && w'.events[id].disabled == !enable
              && (forall i :: 0 <= i < |w.events| && i != id ==> w'.events[i] == w.events[i])
              && w'.active == (if id in cfg.hardcodedList then w.active else w.active - {id})
            else w' == w
  {
    hide SpawnSpec, UnspawnSpec;
    if IsValidEvent(w, id) {
      ApplyShape(cfg, w.(events := w.events[id := w.events[id].(disabled := !enable)]), id);
    }
  }

  ghost predicate Regular(w: World, e: nat) {
    0 < e < |w.events| && w.events[e].Valid() && !w.events[e].hardcoded && !w.events[e].disabled
  }

  /** An update leaves each regular event active exactly when the calendar says so, and touches no
      other. */
  lemma {:induction false} PollDecides(cfg: Config, w: World, n: nat, now: int, e: nat)
    requires ValidWorld(cfg, w) && n < |w.events|
    ensures Regular(w, e) && e <= n ==> (e in PollAll(cfg, w, n, now).active <==> CheckOne(w.events[e], now))
    ensures !(Regular(w, e) && e <= n) ==> (e in PollAll(cfg, w, n, now).active <==> e in w.active)
  {
    hide CheckOne, StartSpec, StopSpec, SpawnSpec;
    if n > 0 {
      PollDecides(cfg, w, n - 1, now, e);
      var w1 := PollAll(cfg, w, n - 1, now);
      StartStopActive(cfg, w1, n, now);
      SpawnActive(cfg, w1, -1 * n);
    }
  }

  // --------------------------------------------------------- starting and stopping by hand

  /** An overwriting stop makes the calendar say off, so that the next update leaves the event
      stopped, exactly when the event is over anyway, or has no leap days and a length shorter than
      its period: the new start lies one length back, but the leap days still move it. The first case
      minds an end moved to the length in minutes, taken for seconds, after the new start. */
  lemma StopHolds(cfg: Config, w: World, id: nat, now: int)
    requires ValidWorld(cfg, w) && Regular(w, id)
    ensures var w' := StopSpec(cfg, w, id, true, now);
            && ValidWorld(cfg, w') && id !in w'.active
            && (id !in PollAll(cfg, w', |w'.events| - 1, now).active <==>
                var e, p, l := w.events[id], 60 * w.events[id].occurence % 4_294_967_296, 60 * w.events[id].length % 4_294_967_296;
                || (if e.end <= now - l then e.length <= l else e.end <= now)
                || l == 0
                || (e.leapDays == 0 && l < p))
  {
    hide PollAll, SpawnSpec, UnspawnSpec, CheckOne;
    var w', e := StopSpec(cfg, w, id, true, now), w.events[id];
    DoKeepsValid(cfg, w, StopOp(id, true, now));
    ApplyShape(cfg, w, id);
    assert w'.events[id] == Restart(e, now - e.Span());
    PollDecides(cfg, w', |w'.events| - 1, now, id);
    StoppedNow(e, now);
  }

  lemma StoppedNow(e: EventData, now: int)
    requires EventOk(e) && !e.hardcoded && e.Valid()
    ensures var e' := Restart(e, now - e.Span());
            EventOk(e') && (!CheckOne(e', now) <==>
                            || (if e.end <= now - e.Span() then e.length <= e.Span() else e.end <= now)
                            || e.Span() == 0
                            || (e.leapDays == 0 && e.Span() < e.Period()))
  {
    hide Rem, CheckOne;
    var e' := Restart(e, now - e.Span());
    var l, d := e.Span(), 86_400 * e.leapDays;
    if e'.start <= now < e'.end {
      CheckOneRem(e', now);
      assert now - (e'.start + d) == l - d;
      if l > 0 {
        RemOfShift(l, d, e.Period());
      }
    } else {
      NotWithin(e', now);
    }
    RemOfZero(e.Period());
  }

  lemma NotWithin(e: EventData, now: int)
    requires e.Sane() && !(e.start <= now < e.end)
    ensures !CheckOne(e, now)
  {
  }

  lemma RemOfZero(p: int)
    requires p > 0
    ensures Rem(0, p) == 0
  {
  }

  /** An overwriting start makes the calendar say on. */
  lemma StartHolds(cfg: Config, w: World, id: nat, now: int)
    requires ValidWorld(cfg, w) && Regular(w, id) && w.events[id].Span() > 0
    ensures var w' := StartSpec(cfg, w, id, true, now);
            && ValidWorld(cfg, w') && id in w'.active
            && id in PollAll(cfg, w', |w'.events| - 1, now).active
  {
    hide PollAll, SpawnSpec, UnspawnSpec, CheckOne;
    var w', e := StartSpec(cfg, w, id, true, now), w.events[id];
    DoKeepsValid(cfg, w, StartOp(id, true, now));
    ApplyShape(cfg, w, id);
    assert w'.events[id] == Restart(e, now);
    PollDecides(cfg, w', |w'.events| - 1, now, id);
    StartedNow(e, now);
  }

  lemma StartedNow(e: EventData, now: int)
    requires EventOk(e) && !e.hardcoded && e.Valid() && e.Span() > 0
    ensures EventOk(Restart(e, now)) && CheckOne(Restart(e, now), now)
  {
    hide Rem, CheckOne;
    var e', d := Restart(e, now), 86_400 * e.leapDays;
    CheckOneRem(e', now);
    assert now - (e'.start + d) == -d;
    if d > 0 {
      RemainderBefore(now, now + d, e.Period());
    } else {
      RemOfZero(e.Period());
    }
  }

  /** A yearly event of one week, one leap day in: stopped by hand, the next update starts it again. */
  lemma StopUndone() returns (cfg: Config, w: World)
    ensures ValidWorld(cfg, w) && Regular(w, 1)
    ensures var w' := StopSpec(cfg, w, 1, true, 31_600_000);
            ValidWorld(cfg, w') && 1 !in w'.active && 1 in PollAll(cfg, w', |w'.events| - 1, 31_600_000).active
  {
    hide PollAll, StopSpec;
    var e := EventData(0, 10_000_000_000, 525_600, 10_080, 1, false, false);
    cfg := Config([[], [], []], {}, {}, [[], [], []], {}, {}, [[], []], {});
    w := World([e, e], {1}, {}, {}, {}, true);
    StopHolds(cfg, w, 1, 31_600_000);
  }

  lemma {:induction false} SoonestBelow(events: seq<EventData>, n: nat, later: nat -> int, d: nat, e: nat)
    requires n < |events| && forall i :: 0 <= i < |events| ==> EventOk(events[i])
    ensures Soonest(events, n, later, d) <= d
    ensures 0 < e <= n && !events[e].hardcoded && !events[e].disabled ==>
              Soonest(events, n, later, d) <= NextCheck(events[e], later(e))
  {
    hide NextCheck;
    if n > 0 {
      SoonestBelow(events, n - 1, later, d, e);
    }
  }

  /** The delay is one that an event, or the scripted ones, asked for. */
  lemma {:induction false} SoonestReached(events: seq<EventData>, n: nat, later: nat -> int, d: nat) returns (e: nat)
    requires n < |events| && forall i :: 0 <= i < |events| ==> EventOk(events[i])
    ensures Soonest(events, n, later, d) == d
            || (0 < e <= n && !events[e].hardcoded && !events[e].disabled
                && Soonest(events, n, later, d) == NextCheck(events[e], later(e)))
  {
    hide NextCheck;
    e := 0;
    if n > 0 {
      e := SoonestReached(events, n - 1, later, d);
      if Soonest(events, n, later, d) != Soonest(events, n - 1, later, d) {
        e := n;
      }
    }
  }

  /** From the second in which an update looks when an event is due again until the delay it asks for,
      the event is active as the calendar says, exactly when it did not turn since the update began. */
  lemma ActiveUntilDelay(cfg: Config, w: World, now: int, later: nat -> int, d: nat, e: nat, t: int)
    requires ValidWorld(cfg, w) && Regular(w, e)
    requires later(e) <= t < later(e) + Soonest(w.events, |w.events| - 1, later, d)
    ensures (e in PollAll(cfg, w, |w.events| - 1, now).active <==> CheckOne(w.events[e], t))
            <==> CheckOne(w.events[e], now) == CheckOne(w.events[e], later(e))
  {
    hide CheckOne, NextCheck, PollAll, Soonest;
    PollDecides(cfg, w, |w.events| - 1, now, e);
    SoonestBelow(w.events, |w.events| - 1, later, d, e);
    NextCheckNeverSkips(w.events[e], later(e), t);
  }

  const MinuteInTwo: EventData := EventData(0, 1000, 2, 1, 0, false, false)

  lemma MinuteInTwoFacts()
    ensures EventOk(MinuteInTwo) && MinuteInTwo.Sane()
    ensures CheckOne(MinuteInTwo, 59) && !CheckOne(MinuteInTwo, 60) && NextCheck(MinuteInTwo, 60) == 60
  {
  }

  /** Such a turn does happen: an event of one minute in two, polled in its last second and due again
      by a clock one second later, stays active for the whole minute it should be off. */
  lemma TurnBetweenReadings(t: int) returns (cfg: Config, w: World, later: nat -> int)
    requires 60 <= t < 120
    ensures ValidWorld(cfg, w) && Regular(w, 1) && later(1) == 60
    ensures Soonest(w.events, |w.events| - 1, later, MAX_CHECK_DELAY) == 60
    ensures 1 in PollAll(cfg, w, |w.events| - 1, 59).active && !CheckOne(w.events[1], t)
  {
    hide PollAll, CheckOne, NextCheck, EventOk;
    MinuteInTwoFacts();
    cfg := Config([[], [], []], {}, {}, [[], [], []], {}, {}, [[], []], {});
    w := World([MinuteInTwo, MinuteInTwo], {}, {}, {}, {}, true);
    later := (i: nat) => 60;
    assert ValidWorld(cfg, w) && Regular(w, 1);
    assert Soonest(w.events, 0, later, MAX_CHECK_DELAY) == MAX_CHECK_DELAY;
    PollDecides(cfg, w, 1, 59, 1);
    NextCheckNeverSkips(MinuteInTwo, 60, t);
  }

  // -------------------------------------------------------------------- whole runs

  /** One call of `Update`: the second `at` in which it begins, the clock as read for each event, the
      second `done` in which it returns, the worlds before and after, what the scripted events ask
      for, and the milliseconds it returns. */
  datatype Poll = Poll(at: int, clock: nat -> int, done: int, before: World, after: World, hardcodedDelay: nat, delay: nat)

  ghost predicate IsPoll(cfg: Config, p: Poll) {
    && ValidWorld(cfg, p.before)
    && (forall e: nat :: p.at <= p.clock(e) <= p.done)
    && p.after == PollAll(cfg, p.before, |p.before.events| - 1, p.at)
    && p.delay == 1000 * (Soonest(p.before.events, |p.before.events| - 1, p.clock, FirstDelay(p.hardcodedDelay)) + 1)
  }

  function FirstDelay(hardcodedDelay: nat): (d: nat) {
    if hardcodedDelay < MAX_CHECK_DELAY then hardcodedDelay else MAX_CHECK_DELAY
  }

  /** The second the next call is due. */
  function NextAt(p: Poll): (t: int) {
    p.done + p.delay / 1000
  }

  /** `polls` is a run of `Update` calls: each comes when the one before asked for it, and nothing
      else touches the manager in between. */
  ghost predicate IsSchedule(cfg: Config, polls: seq<Poll>) {
    && (forall k :: 0 <= k < |polls| ==> IsPoll(cfg, polls[k]))
    && (forall k :: 0 < k < |polls| ==> polls[k].before == polls[k - 1].after && polls[k].at == NextAt(polls[k - 1]))
  }

  lemma {:induction false} ScheduleKeepsEvents(cfg: Config, polls: seq<Poll>, k: nat)
    requires IsSchedule(cfg, polls) && k < |polls|
    ensures polls[k].before.events == polls[0].before.events
  {
    if k > 0 {
      ScheduleKeepsEvents(cfg, polls, k - 1);
      assert IsPoll(cfg, polls[k - 1]);
    }
  }

  /** The update that governs second `t`. */
  lemma {:induction false} Governing(cfg: Config, polls: seq<Poll>, t: int) returns (k: nat)
    requires IsSchedule(cfg, polls) && polls != []
    requires polls[0].at <= t < NextAt(polls[|polls| - 1])
    ensures k < |polls| && polls[k].at <= t < NextAt(polls[k])
    decreases |polls|
  {
    hide IsPoll;
    k := |polls| - 1;
    if t < polls[k].at {
      assert polls[k].at == NextAt(polls[k - 1]);
      k := Governing(cfg, polls[..k], t);
    }
  }

  /** Scheduler correctness, whatever time the updates take: at every second from the first update on
      there is one update that governs it, and from the second in which that one looked at a regular
      enabled event until the grace second, the event is active as the calendar says, exactly when it
      did not turn while the update was running. */
  lemma ScheduleExactly(cfg: Config, polls: seq<Poll>, t: int) returns (k: nat)
    requires IsSchedule(cfg, polls) && polls != []
    requires polls[0].at <= t < NextAt(polls[|polls| - 1])
    ensures k < |polls| && polls[k].at <= t < NextAt(polls[k]) && IsPoll(cfg, polls[0])
    ensures forall e: nat ::
              Regular(polls[0].before, e) && polls[k].clock(e) <= t && t + 1 < polls[k].clock(e) + polls[k].delay / 1000 ==>
                ((e in polls[k].after.active <==> CheckOne(polls[0].before.events[e], t)) <==>
                 CheckOne(polls[0].before.events[e], polls[k].at) == CheckOne(polls[0].before.events[e], polls[k].clock(e)))
  {
    hide CheckOne, PollAll, Soonest;
    k := Governing(cfg, polls, t);
    ScheduleKeepsEvents(cfg, polls, k);
    var p := polls[k];
    forall e: nat | Regular(polls[0].before, e) && p.clock(e) <= t && t + 1 < p.clock(e) + p.delay / 1000
      ensures (e in p.after.active <==> CheckOne(p.before.events[e], t)) <==>
              CheckOne(p.before.events[e], p.at) == CheckOne(p.before.events[e], p.clock(e))
    {
      ActiveUntilDelay(cfg, p.before, p.at, p.clock, FirstDelay(p.hardcodedDelay), e, t);
    }
  }

  /** When no update runs past its second, the active set of regular enabled events is the calendar's
      at every second, except possibly in the grace second just before the next update. */
  lemma ScheduleFollowsCalendar(cfg: Config, polls: seq<Poll>, t: int) returns (k: nat)
    requires IsSchedule(cfg, polls) && polls != []
    requires polls[0].at <= t < NextAt(polls[|polls| - 1])
    requires forall i :: 0 <= i < |polls| ==> polls[i].done == polls[i].at
    ensures k < |polls| && polls[k].at <= t < NextAt(polls[k]) && IsPoll(cfg, polls[0])
    ensures t + 1 < NextAt(polls[k]) ==>
              forall e: nat :: Regular(polls[0].before, e) ==>
                (e in polls[k].after.active <==> CheckOne(polls[0].before.events[e], t))
  {
    hide CheckOne, PollAll, Soonest;
    k := ScheduleExactly(cfg, polls, t);
    assert IsPoll(cfg, polls[k]);
    assert forall e: nat :: polls[k].clock(e) == polls[k].at;
  }
}
