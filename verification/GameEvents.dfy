/** The game event manager: the set of active events and the spawns that follow it. */
module GameEvents {
  import opened GameEventTime

  /** What the loader and the object manager provide and the manager never changes. Spawn lists are
      indexed by `Slot`, pool lists by event id; `creatureData` and `gameobjectData` are the guids that
      have data; pooled guids are left to the pool manager when their event is negative;
      `hardcodedList` are the ids of `mGameEventHardcodedList`. */
  datatype Config = Config(
    creatureGuids: seq<seq<nat>>, creatureData: set<nat>, creaturePools: set<nat>,
    gameobjectGuids: seq<seq<nat>>, gameobjectData: set<nat>, gameobjectPools: set<nat>,
    spawnPoolIds: seq<seq<nat>>, hardcodedList: set<nat>)

  /** What the manager changes: its own state, the grid and the pools it had spawned. */
  datatype World = World(events: seq<EventData>, active: set<nat>, creatures: set<nat>, gameobjects: set<nat>,
                         pools: set<nat>, init: bool)

  /** Event ids are signed 16-bit; the loader sizes the lists to twice the number of ids less one. */
  predicate Sized(cfg: Config, size: nat) {
    && 1 <= size <= 0x8000
    && |cfg.creatureGuids| == 2 * size - 1 && |cfg.gameobjectGuids| == 2 * size - 1 && |cfg.spawnPoolIds| == size
  }

  ghost predicate ValidWorld(cfg: Config, w: World) {
    && Sized(cfg, |w.events|)
    && (forall i :: 0 <= i < |w.events| ==> EventOk(w.events[i]))
    && (forall i :: i in w.active ==> i < |w.events|)
  }

  /** An event the manager can compute with, now and after its times are overwritten. The calendar of
      a scripted event is never looked at. */
  predicate EventOk(e: EventData) {
    e.hardcoded || (e.Sane() && (e.Valid() ==> e.Period() > 0))
  }

  predicate IsValidEvent(w: World, id: nat) {
    id < |w.events| && w.events[id].Valid()
  }

  // ----------------------------------------------------------------- spawn lists

  function Slot(size: nat, id: int): (i: int) {
    size + id - 1
  }

  /** The guids of a list that `GameEventSpawn` or `GameEventUnspawn` touches. */
  function Touched(list: seq<nat>, data: set<nat>, pools: set<nat>, id: int): (r: set<nat>) {
    set g | g in list && g in data && !(id < 0 && g in pools)
  }

  function PoolsOf(cfg: Config, id: nat): (r: set<nat>)
    requires id < |cfg.spawnPoolIds|
  {
    set p | p in cfg.spawnPoolIds[id]
  }

  function SpawnSpec(cfg: Config, w: World, id: int): (w': World)
    requires Sized(cfg, |w.events|)
  {
    var i := Slot(|w.events|, id);
    if 0 <= i < |cfg.creatureGuids| then
      w.(creatures := w.creatures + Touched(cfg.creatureGuids[i], cfg.creatureData, cfg.creaturePools, id),
         gameobjects := w.gameobjects + Touched(cfg.gameobjectGuids[i], cfg.gameobjectData, cfg.gameobjectPools, id),
         pools := if id > 0 then w.pools + PoolsOf(cfg, id) else w.pools)
    else w
  }

  function UnspawnSpec(cfg: Config, w: World, id: int): (w': World)
    requires Sized(cfg, |w.events|)
  {
    var i := Slot(|w.events|, id);
    if 0 <= i < |cfg.creatureGuids| then
      w.(creatures := w.creatures - Touched(cfg.creatureGuids[i], cfg.creatureData, cfg.creaturePools, id),
         gameobjects := w.gameobjects - Touched(cfg.gameobjectGuids[i], cfg.gameobjectData, cfg.gameobjectPools, id),
         pools := if id > 0 then w.pools - PoolsOf(cfg, id) else w.pools)
    else w
  }

  function ApplySpec(cfg: Config, w: World, id: nat): (w': World)
    requires Sized(cfg, |w.events|)
  {
    UnspawnSpec(cfg, SpawnSpec(cfg, w.(active := w.active + {id}), id), -1 * id)
  }

  function UnApplySpec(cfg: Config, w: World, id: nat): (w': World)
    requires Sized(cfg, |w.events|)
  {
    SpawnSpec(cfg, UnspawnSpec(cfg, w.(active := w.active - {id}), id), -1 * id)
  }

  /** The end moves only when it would otherwise not lie after the start; `length`, in minutes, is
      then added as seconds. */
  function Restart(e: EventData, start: int): (e': EventData) {
    e.(start := start, end := if e.end <= start then start + e.length else e.end)
  }

  function StartSpec(cfg: Config, w: World, id: nat, overwrite: bool, now: int): (w': World)
    requires Sized(cfg, |w.events|)
  {
    if !IsValidEvent(w, id) then w
    else
      var w1 := ApplySpec(cfg, w, id);
      if overwrite then w1.(events := w1.events[id := Restart(w1.events[id], now)]) else w1
  }

  function StopSpec(cfg: Config, w: World, id: nat, overwrite: bool, now: int): (w': World)
    requires Sized(cfg, |w.events|)
  {
    if !IsValidEvent(w, id) then w
    else
      var w1 := UnApplySpec(cfg, w, id);
      if overwrite then w1.(events := w1.events[id := Restart(w1.events[id], now - w1.events[id].Span())]) else w1
  }

  /** Enabling an active regular event stops it too: the test is only that its state changes. */
  function EnableSpec(cfg: Config, w: World, id: nat, enable: bool, now: int): (w': World)
    requires Sized(cfg, |w.events|)
  {
    if !IsValidEvent(w, id) || w.events[id].disabled == !enable then w
    else
      var w1 := w.(events := w.events[id := w.events[id].(disabled := !enable)]);
      if id !in w.active || id in cfg.hardcodedList then w1 else StopSpec(cfg, w1, id, true, now)
  }

  /** One turn of the loop of `Update`. */
  function PollSpec(cfg: Config, w: World, id: nat, now: int): (w': World)
    requires ValidWorld(cfg, w) && id < |w.events|
  {
    var e := w.events[id];
    if e.hardcoded || e.disabled then w
    else if CheckOne(e, now) then
      if id in w.active then w else StartSpec(cfg, w, id, false, now)
    else if id in w.active then StopSpec(cfg, w, id, false, now)
    else if !w.init then SpawnSpec(cfg, w, -1 * id)
    else w
  }

  /** The first `n` turns, over ids 1 to `n`. */
  ghost function PollAll(cfg: Config, w: World, n: nat, now: int): (w': World)
    requires ValidWorld(cfg, w) && n < |w.events|
    ensures ValidWorld(cfg, w') && w'.events == w.events && w'.init == w.init
  {
    if n == 0 then w
    else
      var w1 := PollAll(cfg, w, n - 1, now);
      PollKeeps(cfg, w1, n, now);
      PollSpec(cfg, w1, n, now)
  }

  lemma PollKeeps(cfg: Config, w: World, id: nat, now: int)
    requires ValidWorld(cfg, w) && id < |w.events|
    ensures ValidWorld(cfg, PollSpec(cfg, w, id, now))
    ensures PollSpec(cfg, w, id, now).events == w.events && PollSpec(cfg, w, id, now).init == w.init
  {
  }

  /** `Initialize`: no event is active before the first update. */
  ghost function InitSpec(cfg: Config, w: World, now: int): (w': World)
    requires ValidWorld(cfg, w)
    ensures ValidWorld(cfg, w') && w'.events == w.events && w'.init
  {
    PollAll(cfg, w.(active := {}), |w.events| - 1, now).(init := true)
  }

  /** The shortest delay of the first `n` ids, as `Update` accumulates it from `d`; `later` gives the
      clock as it is read for each of them. */
  ghost function Soonest(events: seq<EventData>, n: nat, later: nat -> int, d: nat): (r: nat)
    requires n < |events| && forall i :: 0 <= i < |events| ==> EventOk(events[i])
  {
    if n == 0 then d
    else
      var r := Soonest(events, n - 1, later, d);
      var e := events[n];
      if !e.hardcoded && !e.disabled && NextCheck(e, later(n)) < r then NextCheck(e, later(n)) else r
  }

  // ------------------------------------------------------------------ the manager

  class GameEventMgr {
    const cfg: Config
    var mGameEvent: seq<EventData>
    var activeEvents: set<nat>
    var creatureGrid: set<nat>
    var gameobjectGrid: set<nat>
    var spawnedPools: set<nat>
    var isInit: bool

    ghost function View(): (w: World)
      reads this
    {
      World(mGameEvent, activeEvents, creatureGrid, gameobjectGrid, spawnedPools, isInit)
    }

    ghost predicate Valid()
      reads this
    {
      ValidWorld(cfg, View())
    }

    /** After loading: nothing active, nothing spawned for an event yet. */
    constructor (cfg: Config, events: seq<EventData>, creatures: set<nat>, gameobjects: set<nat>)
      requires ValidWorld(cfg, World(events, {}, creatures, gameobjects, {}, false))
      ensures Valid() && this.cfg == cfg && View() == World(events, {}, creatures, gameobjects, {}, false)
    {
      this.cfg := cfg;
      mGameEvent, activeEvents, isInit := events, {}, false;
      creatureGrid, gameobjectGrid, spawnedPools := creatures, gameobjects, {};
    }

    /** The guid loop that both spawn lists go through. */
    static method TouchedGuids(list: seq<nat>, data: set<nat>, pools: set<nat>, id: int) returns (r: set<nat>)
      ensures r == Touched(list, data, pools, id)
    {
      r := {};
      for k := 0 to |list|
        invariant r == Touched(list[..k], data, pools, id)
      {
        assert list[..k + 1] == list[..k] + [list[k]];
        if list[k] in data {
          if id < 0 {
            if list[k] in pools {
              continue;
            }
          }
          r := r + {list[k]};
        }
      }
      assert list[..|list|] == list;
    }

    /** The pool loop at the end of both. */
    static method PoolsListed(list: seq<nat>) returns (r: set<nat>)
      ensures r == set p | p in list
    {
      r := {};
      for k := 0 to |list|
        invariant r == set p | p in list[..k]
      {
        assert list[..k + 1] == list[..k] + [list[k]];
        r := r + {list[k]};
      }
      assert list[..|list|] == list;
    }

    method GameEventSpawn(id: int)
      requires Valid()
      modifies this`creatureGrid, this`gameobjectGrid, this`spawnedPools
      ensures View() == SpawnSpec(cfg, old(View()), id)
    {
      var i := |mGameEvent| + id - 1;
      if i < 0 || i >= |cfg.creatureGuids| {
        return;
      }
      var c := TouchedGuids(cfg.creatureGuids[i], cfg.creatureData, cfg.creaturePools, id);
      creatureGrid := creatureGrid + c;
      var g := TouchedGuids(cfg.gameobjectGuids[i], cfg.gameobjectData, cfg.gameobjectPools, id);
      gameobjectGrid := gameobjectGrid + g;
      if id > 0 {
        var p := PoolsListed(cfg.spawnPoolIds[id]);
        spawnedPools := spawnedPools + p;
      }
    }

    method GameEventUnspawn(id: int)
      requires Valid()
      modifies this`creatureGrid, this`gameobjectGrid, this`spawnedPools
      ensures View() == UnspawnSpec(cfg, old(View()), id)
    {
      var i := |mGameEvent| + id - 1;
      if i < 0 || i >= |cfg.creatureGuids| {
        return;
      }
      var c := TouchedGuids(cfg.creatureGuids[i], cfg.creatureData, cfg.creaturePools, id);
      creatureGrid := creatureGrid - c;
      var g := TouchedGuids(cfg.gameobjectGuids[i], cfg.gameobjectData, cfg.gameobjectPools, id);
      gameobjectGrid := gameobjectGrid - g;
      if id > 0 {
        var p := PoolsListed(cfg.spawnPoolIds[id]);
        spawnedPools := spawnedPools - p;
      }
    }

    method ApplyNewEvent(id: nat)
      requires Valid() && id < |mGameEvent|
      modifies this`activeEvents, this`creatureGrid, this`gameobjectGrid, this`spawnedPools
      ensures Valid() && View() == ApplySpec(cfg, old(View()), id)
    {
      activeEvents := activeEvents + {id};
      GameEventSpawn(id);
      GameEventUnspawn(-1 * id);
    }

    method UnApplyEvent(id: nat)
      requires Valid()
      modifies this`activeEvents, this`creatureGrid, this`gameobjectGrid, this`spawnedPools
      ensures Valid() && View() == UnApplySpec(cfg, old(View()), id)
    {
      activeEvents := activeEvents - {id};
      GameEventUnspawn(id);
      GameEventSpawn(-1 * id);
    }

    method StartEvent(id: nat, overwrite: bool, now: int)
      requires Valid()
      modifies this
      ensures Valid() && View() == StartSpec(cfg, old(View()), id, overwrite, now)
    {
      if id >= |mGameEvent| || !mGameEvent[id].Valid() {
        return;
      }
      ApplyNewEvent(id);
      if overwrite {
        mGameEvent := mGameEvent[id := Restart(mGameEvent[id], now)];
      }
    }

    method StopEvent(id: nat, overwrite: bool, now: int)
      requires Valid()
      modifies this
      ensures Valid() && View() == StopSpec(cfg, old(View()), id, overwrite, now)
    {
      if id >= |mGameEvent| || !mGameEvent[id].Valid() {
        return;
      }
      UnApplyEvent(id);
      if overwrite {
        mGameEvent := mGameEvent[id := Restart(mGameEvent[id], now - mGameEvent[id].Span())];
      }
    }

    method EnableEvent(id: nat, enable: bool, now: int)
      requires Valid()
      modifies this
      ensures Valid() && View() == EnableSpec(cfg, old(View()), id, enable, now)
    {
      if id >= |mGameEvent| || !mGameEvent[id].Valid() {
        return;
      }
      if mGameEvent[id].disabled == !enable {
        return;
      }
      mGameEvent := mGameEvent[id := mGameEvent[id].(disabled := !enable)];
      if id !in activeEvents {
        return;
      }
      if id !in cfg.hardcodedList {
        StopEvent(id, true, now);
      }
    }

    /** The body of the loop of `Update`, up to the delay. */
    method PollEvent(id: nat, now: int)
      requires Valid() && id < |mGameEvent|
      modifies this
      ensures Valid() && View() == PollSpec(cfg, old(View()), id, now)
    {
      if mGameEvent[id].hardcoded || mGameEvent[id].disabled {
        return;
      }
      if CheckOne(mGameEvent[id], now) {
        if id !in activeEvents {
          StartEvent(id, false, now);
        }
      } else {
        if id in activeEvents {
          StopEvent(id, false, now);
        } else {
          if !isInit {
            GameEventSpawn(-1 * id);
          }
        }
      }
    }

    /** `Update`. The clock is read once to decide which events are on, as `now`, and again for each
        event to decide when to look at it next, as `later(id)`. `hardcodedDelay` is what the scripted
        events ask for. The result is in milliseconds. */
    method Update(now: int, later: nat -> int, hardcodedDelay: nat) returns (delay: nat)
      requires Valid()
      modifies this
      ensures Valid() && View() == PollAll(cfg, old(View()), |old(mGameEvent)| - 1, now)
      ensures delay == 1000 * (Soonest(old(mGameEvent), |old(mGameEvent)| - 1, later,
                                       if hardcodedDelay < MAX_CHECK_DELAY then hardcodedDelay else MAX_CHECK_DELAY) + 1)
    {
      hide PollSpec, NextCheck;
      ghost var before := View();
      var nextEventDelay := MAX_CHECK_DELAY;
      if hardcodedDelay < nextEventDelay {
        nextEventDelay := hardcodedDelay;
      }
      ghost var first := nextEventDelay;
      for id := 1 to |mGameEvent|
        invariant Valid() && mGameEvent == before.events
        invariant View() == PollAll(cfg, before, id - 1, now)
        invariant nextEventDelay == Soonest(before.events, id - 1, later, first)
      {
        ghost var before' := View();
        PollKeeps(cfg, before', id, now);
        PollEvent(id, now);
        if mGameEvent[id].hardcoded || mGameEvent[id].disabled {
          continue;
        }
        var calcDelay := NextCheck(mGameEvent[id], later(id));
        if calcDelay < nextEventDelay {
          nextEventDelay := calcDelay;
        }
      }
      delay := (nextEventDelay + 1) * 1000;
    }

    /** `Initialize`: the first update, which also spawns the negative lists of inactive events. */
    method Initialize(now: int, later: nat -> int, hardcodedDelay: nat) returns (delay: nat)
      requires Valid()
      modifies this
      ensures Valid() && View() == InitSpec(cfg, old(View()), now)
      ensures delay == 1000 * (Soonest(old(mGameEvent), |old(mGameEvent)| - 1, later,
                                       if hardcodedDelay < MAX_CHECK_DELAY then hardcodedDelay else MAX_CHECK_DELAY) + 1)
    {
      activeEvents := {};
      delay := Update(now, later, hardcodedDelay);
      isInit := true;
    }

    /** `GetGameEventId`: the id of the first list that holds the guid, or 0. */
    method GetGameEventId(guid: nat) returns (id: int)
      requires Valid()
      ensures id == FirstTag(cfg.creatureGuids, |mGameEvent|, guid)
    {
      for i := 0 to |cfg.creatureGuids|
        invariant forall j :: 0 <= j < i ==> guid !in cfg.creatureGuids[j]
      {
        for k := 0 to |cfg.creatureGuids[i]|
          invariant guid !in cfg.creatureGuids[i][..k]
        {
          if cfg.creatureGuids[i][k] == guid {
            FirstTagIs(cfg.creatureGuids, |mGameEvent|, guid, i);
            return i + 1 - |mGameEvent|;
          }
        }
      }
      return 0;
    }
  }

  // --------------------------------------------------------------- tags and slots

  /** The id of the first list that holds `guid`. */
  ghost function FirstTag(lists: seq<seq<nat>>, size: nat, guid: nat): (id: int) {
    if i: nat :| i < |lists| && guid in lists[i] && forall j :: 0 <= j < i ==> guid !in lists[j]
    then i + 1 - size
    else 0
  }

  lemma FirstTagIs(lists: seq<seq<nat>>, size: nat, guid: nat, i: nat)
    requires i < |lists| && guid in lists[i] && forall j :: 0 <= j < i ==> guid !in lists[j]
    ensures FirstTag(lists, size, guid) == i + 1 - size
  {
    var k: nat :| k < |lists| && guid in lists[k] && forall j :: 0 <= j < k ==> guid !in lists[j];
    assert k == i;
  }
}
