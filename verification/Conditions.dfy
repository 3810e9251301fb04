/** The condition evaluator: entries of a table that combine other entries by NOT, OR and AND, with
    flags that reverse a result or swap target and source. */
module Conditions {
  import opened Bytes

  const CONDITION_NOT: int := -3
  const CONDITION_OR: int := -2
  const CONDITION_AND: int := -1
  const CONDITION_NONE: int := 0
  const LAST_CONDITION: int := 61

  type ConditionType = x: int | CONDITION_NOT <= x <= LAST_CONDITION

  type int32 = x: int | -0x8000_0000 <= x < 0x8000_0000

  /** A row of the condition table. `reverse` and `swap` are the bits of `m_flags`. */
  datatype Entry = Entry(
    entry: nat, condition: ConditionType, value1: int32, value2: int32, value3: int32, value4: int32,
    reverse: bool, swap: bool)

  datatype ObjectKind = GameObject | Creature | Player | OtherObject

  datatype WorldObject = WorldObject(guid: nat, kind: ObjectKind)

  type Ref = Option<WorldObject>
  type MapRef = Option<nat>

  type Table = map<nat, Entry>

  /** The leaf predicates: auras, quests, maps and the rest. Nothing is known about them. */
  type Oracle = (Entry, Ref, MapRef, Ref) -> bool

  datatype Requirement =
    | ReqNone
    | TargetWorldObject | TargetGameObject | TargetUnit | TargetPlayer
    | SourceWorldObject | SourceUnit | SourceCreature
    | AnyWorldObject | MapOrWorldObject | BothWorldObjects

  /** `ConditionTargetsInternal`. */
  function RequirementOf(c: ConditionType): (r: Requirement) {
    if c <= CONDITION_NONE || c in {11, 12, 24, 25, 26, 53} then ReqNone
    else if c in {1, 6, 15, 40, 41, 42, 43, 46, 60} then TargetUnit
    else if c in {20, 21, 27, 28, 39, 54, 56} then TargetWorldObject
    else if c in {48, 49, 55} then TargetGameObject
    else if c in {16, 31, 52} then SourceWorldObject
    else if c in {13, 32} then SourceUnit
    else if c in {57, 58} then SourceCreature
    else if c == 4 then AnyWorldObject
    else if c in {18, 33, 34, 35, 36, 47, 50, 59} then MapOrWorldObject
    else if c in {37, 38, 44} then BothWorldObjects
    else TargetPlayer
  }

  predicate IsA(r: Ref, k: ObjectKind) { r.Some? && r.value.kind == k }

  predicate IsUnit(r: Ref) { IsA(r, Creature) || IsA(r, Player) }

  /** `CheckParamRequirements`. */
  predicate CheckParams(c: ConditionType, target: Ref, m: MapRef, source: Ref) {
    match RequirementOf(c)
    case ReqNone => true
    case TargetWorldObject => target.Some?
    case TargetGameObject => IsA(target, GameObject)
    case TargetUnit => IsUnit(target)
    case TargetPlayer => IsA(target, Player)
    case SourceWorldObject => source.Some?
    case SourceUnit => IsUnit(source)
    case SourceCreature => IsA(source, Creature)
    case AnyWorldObject => source.Some? || target.Some?
    case MapOrWorldObject => m.Some? || source.Some? || target.Some?
    case BothWorldObjects => source.Some? && target.Some?
  }

  predicate Combines(c: ConditionType) {
    c == CONDITION_NOT || c == CONDITION_OR || c == CONDITION_AND
  }

  /** An `int32` value used as an unsigned entry number. */
  function Key(v: int): (k: nat) {
    v % TWO_32
  }

  /** The rows a row may follow, its main references first. */
  function Parts(e: Entry): (r: seq<nat>)
    ensures Combines(e.condition) ==> |r| >= 1
  {
    if !Combines(e.condition) then []
    else
      [Key(e.value1)]
      + (if e.condition != CONDITION_NOT then [Key(e.value2)] else [])
      + (if e.value3 != 0 then [Key(e.value3)] else [])
      + (if e.value4 != 0 then [Key(e.value4)] else [])
  }

  // ------------------------------------------------------------------ evaluation

  type Answer = Option<bool>

  /** `||` and `&&` on results of calls that may not come back. */
  function OrElse(a: Answer, b: Answer): (r: Answer) { if a == Some(false) then b else a }

  function AndThen(a: Answer, b: Answer): (r: Answer) { if a == Some(true) then b else a }

  function Negate(a: Answer): (r: Answer) { if a.Some? then Some(!a.value) else None }

  /** `Meets` with room for `depth` nested calls, on any table: None when that is not enough, or when
      a row that does not exist is followed. */
  function Meets(depth: nat, t: Table, leaf: Oracle, id: nat, target: Ref, m: MapRef, source: Ref): (r: Answer)
    decreases depth, 1
  {
    if depth == 0 || id !in t then None
    else
      var e := t[id];
      var target', source' := if e.swap then source else target, if e.swap then target else source;
      if !CheckParams(e.condition, target', m, source') then Some(false)
      else
        var result := Evaluate(depth - 1, t, leaf, e, target', m, source');
        if e.reverse then Negate(result) else result
  }

  /** `Evaluate`, with its early returns. */
  function Evaluate(depth: nat, t: Table, leaf: Oracle, e: Entry, target: Ref, m: MapRef, source: Ref): (r: Answer)
    decreases depth, 2
  {
    if Combines(e.condition) then
      var third, fourth := Meets(depth, t, leaf, Key(e.value3), target, m, source), Meets(depth, t, leaf, Key(e.value4), target, m, source);
      var first, second := Meets(depth, t, leaf, Key(e.value1), target, m, source), Meets(depth, t, leaf, Key(e.value2), target, m, source);
      if e.condition == CONDITION_NOT then
        OrElse(if e.value3 != 0 then third else Some(false),
        OrElse(if e.value4 != 0 then fourth else Some(false), Negate(first)))
      else if e.condition == CONDITION_OR then
        OrElse(if e.value3 != 0 then third else Some(false),
        OrElse(if e.value4 != 0 then fourth else Some(false), OrElse(first, second)))
      else
        AndThen(if e.value3 != 0 then third else Some(true),
        AndThen(if e.value4 != 0 then fourth else Some(true), AndThen(first, second)))
    else if e.condition == CONDITION_NONE then Some(true)
    else Some(leaf(e, target, m, source))
  }

  /** The call comes back. */
  ghost predicate Returns(t: Table, leaf: Oracle, id: nat, target: Ref, m: MapRef, source: Ref) {
    exists depth :: Meets(depth, t, leaf, id, target, m, source).Some?
  }

  /** Rows whose references, followed as far as they go, reach no missing row and no cycle: `rank`
      goes down along each. */
  ghost predicate Ranked(t: Table, rank: map<nat, nat>) {
    forall id :: id in rank ==> id in t && PartsBelow(t[id], rank, rank[id])
  }

  predicate PartsBelow(e: Entry, rank: map<nat, nat>, bound: nat) {
    forall i :: 0 <= i < |Parts(e)| ==> Parts(e)[i] in rank && rank[Parts(e)[i]] < bound
  }

  // ------------------------------------------------------- the plain Boolean tree

  /** What an entry means: a tree of all its parts. */
  datatype Tree =
    | Leaf(e: Entry)
    | Node(op: ConditionType, reverse: bool, swap: bool, parts: seq<Tree>)

  ghost function Expand(t: Table, rank: map<nat, nat>, id: nat): (r: Tree)
    requires Ranked(t, rank) && id in rank
    decreases rank[id], 1, 0
  {
    var e := t[id];
    if Combines(e.condition) then
      Node(e.condition, e.reverse, e.swap, ExpandAll(t, rank, Parts(e), rank[id]))
    else Leaf(e)
  }

  ghost function ExpandAll(t: Table, rank: map<nat, nat>, ids: seq<nat>, bound: nat): (r: seq<Tree>)
    requires Ranked(t, rank) && forall i :: 0 <= i < |ids| ==> ids[i] in rank && rank[ids[i]] < bound
    ensures |r| == |ids|
    ensures forall i :: 0 <= i < |ids| ==> r[i] == Expand(t, rank, ids[i])
    decreases bound, 0, |ids|
  {
    if ids == [] then [] else [Expand(t, rank, ids[0])] + ExpandAll(t, rank, ids[1..], bound)
  }

  /** What each type of leaf asks of target, map and source. */
  predicate Given(c: ConditionType, target: Ref, m: MapRef, source: Ref) {
    && (c in {20, 21, 27, 28, 39, 54, 56} ==> target.Some?)
    && (c in {48, 49, 55} ==> target.Some? && target.value.kind == GameObject)
    && (c in {1, 6, 15, 40, 41, 42, 43, 46, 60} ==> target.Some? && target.value.kind in {Creature, Player})
    && (c in {2, 3, 5, 7, 8, 9, 10, 14, 17, 19, 22, 23, 29, 30, 45, 51, 61} ==>
          target.Some? && target.value.kind == Player)
    && (c in {16, 31, 52} ==> source.Some?)
    && (c in {13, 32} ==> source.Some? && source.value.kind in {Creature, Player})
    && (c in {57, 58} ==> source.Some? && source.value.kind == Creature)
    && (c == 4 ==> target.Some? || source.Some?)
    && (c in {18, 33, 34, 35, 36, 47, 50, 59} ==> m.Some? || target.Some? || source.Some?)
    && (c in {37, 38, 44} ==> target.Some? && source.Some?)
  }

  /** The table of requirements and its reading say just that, for every type. */
  lemma ParamsGiven(c: ConditionType, target: Ref, m: MapRef, source: Ref)
    ensures CheckParams(c, target, m, source) <==> Given(c, target, m, source)
  {
  }

  /** The meaning of a tree, all parts evaluated, where `swaps` swap flags lie above: a leaf sees
      target and source exchanged when the flags on its path are odd in number, and a leaf whose
      parameters are missing is false whatever its own reverse flag. */
  ghost predicate Holds(tree: Tree, swaps: nat, leaf: Oracle, target: Ref, m: MapRef, source: Ref)
    decreases tree
  {
    match tree
    case Leaf(e) =>
      var odd := (swaps + (if e.swap then 1 else 0)) % 2 == 1;
      var a, b := if odd then source else target, if odd then target else source;
      Given(e.condition, a, m, b) && (e.condition == 0 || leaf(e, a, m, b)) != e.reverse
    case Node(op, reverse, swap, parts) =>
      var below := swaps + (if swap then 1 else 0);
      reverse != (
        if op == -1 then forall i :: 0 <= i < |parts| ==> Holds(parts[i], below, leaf, target, m, source)
        else if op == -2 then exists i :: 0 <= i < |parts| && Holds(parts[i], below, leaf, target, m, source)
        else |parts| == 0 || !Holds(parts[0], below, leaf, target, m, source)
             || exists i :: 1 <= i < |parts| && Holds(parts[i], below, leaf, target, m, source))
  }

  function First(swaps: nat, target: Ref, source: Ref): (r: Ref) {
    if swaps % 2 == 1 then source else target
  }

  /** On ranked rows `Meets` returns, for every oracle and all arguments, and its result is that of the
      plain tree: the order of evaluation and the early returns do not matter. */
  lemma {:induction false} MeetsIsTree(depth: nat, t: Table, rank: map<nat, nat>, leaf: Oracle, id: nat, swaps: nat,
                                       target: Ref, m: MapRef, source: Ref)
    requires Ranked(t, rank) && id in rank && rank[id] < depth
    ensures Meets(depth, t, leaf, id, First(swaps, target, source), m, First(swaps, source, target))
            == Some(Holds(Expand(t, rank, id), swaps, leaf, target, m, source))
    decreases depth
  {
    hide Meets, Evaluate, Holds, Expand, Combined, Parts;
    var e := t[id];
    assert PartsBelow(e, rank, rank[id]);
    if Combines(e.condition) {
      var below := swaps + (if e.swap then 1 else 0);
      var ids := Parts(e);
      var sub := ExpandAll(t, rank, ids, rank[id]);
      var holds := seq(|ids|, i requires 0 <= i < |ids| => Holds(sub[i], below, leaf, target, m, source));
      forall i | 0 <= i < |ids|
        ensures Meets(depth - 1, t, leaf, ids[i], First(below, target, source), m, First(below, source, target)) == Some(holds[i])
      {
        MeetsIsTree(depth - 1, t, rank, leaf, ids[i], below, target, m, source);
      }
      EvaluateParts(depth - 1, t, leaf, e, First(below, target, source), m, First(below, source, target), holds);
      NodeHolds(t, rank, leaf, id, swaps, target, m, source, sub, holds);
      MeetsCombination(depth, t, leaf, id, First(swaps, target, source), m, First(swaps, source, target));
    } else {
      LeafHolds(depth, t, rank, leaf, id, swaps, target, m, source);
    }
  }

  lemma LeafHolds(depth: nat, t: Table, rank: map<nat, nat>, leaf: Oracle, id: nat, swaps: nat, target: Ref, m: MapRef, source: Ref)
    requires Ranked(t, rank) && id in rank && !Combines(t[id].condition) && depth > 0
    ensures Meets(depth, t, leaf, id, First(swaps, target, source), m, First(swaps, source, target))
            == Some(Holds(Expand(t, rank, id), swaps, leaf, target, m, source))
  {
    hide CheckParams, Given;
    assert Expand(t, rank, id) == Leaf(t[id]);
    var odd := (swaps + (if t[id].swap then 1 else 0)) % 2 == 1;
    ParamsGiven(t[id].condition, if odd then source else target, m, if odd then target else source);
  }

  /** What a combination makes of the results of all its parts. */
  ghost predicate Combined(c: ConditionType, holds: seq<bool>)
    requires |holds| >= 1
  {
    if c == CONDITION_AND then forall i :: 0 <= i < |holds| ==> holds[i]
    else if c == CONDITION_OR then exists i :: 0 <= i < |holds| && holds[i]
    else !holds[0] || exists i :: 1 <= i < |holds| && holds[i]
  }

  /** The same by early returns: `h3` and `h4` are the results of the optional parts, where there are. */
  function InTurn(c: ConditionType, h1: bool, h2: bool, h3: Answer, h4: Answer): (r: bool) {
    if c == CONDITION_AND then (h3.Some? ==> h3.value) && (h4.Some? ==> h4.value) && h1 && h2
    else (h3.Some? && h3.value) || (h4.Some? && h4.value) || (if c == CONDITION_OR then h1 || h2 else !h1)
  }

  /** The early returns of `Evaluate` give the combination of all parts. */
  lemma EvaluateParts(depth: nat, t: Table, leaf: Oracle, e: Entry, target: Ref, m: MapRef, source: Ref, holds: seq<bool>)
    requires Combines(e.condition) && |holds| == |Parts(e)|
    requires forall i :: 0 <= i < |holds| ==> Meets(depth, t, leaf, Parts(e)[i], target, m, source) == Some(holds[i])
    ensures Evaluate(depth, t, leaf, e, target, m, source) == Some(Combined(e.condition, holds))
  {
    hide Meets, Combined;
    var ids := Parts(e);
    var k := if e.condition == CONDITION_NOT then 1 else 2;
    var n := if e.value3 != 0 then k + 1 else k;
    assert ids[0] == Key(e.value1) && (k == 2 ==> ids[1] == Key(e.value2));
    assert e.value3 != 0 ==> ids[k] == Key(e.value3);
    assert e.value4 != 0 ==> ids[n] == Key(e.value4);
    var h2 := if k == 2 then holds[1] else false;
    var h3, h4 := if e.value3 != 0 then Some(holds[k]) else None, if e.value4 != 0 then Some(holds[n]) else None;
    CombinedInTurn(e.condition, holds, h2, h3, h4);
    var r := Evaluate(depth, t, leaf, e, target, m, source);
    assert r.Some?;
    assert r.value == InTurn(e.condition, holds[0], h2, h3, h4);
  }

  lemma CombinedInTurn(c: ConditionType, holds: seq<bool>, h2: bool, h3: Answer, h4: Answer)
    requires Combines(c) && |holds| >= 1
    requires holds == [holds[0]] + (if c == CONDITION_NOT then [] else [h2])
                      + (if h3.Some? then [h3.value] else []) + (if h4.Some? then [h4.value] else [])
    ensures Combined(c, holds) == InTurn(c, holds[0], h2, h3, h4)
  {
    var k := if c == CONDITION_NOT then 1 else 2;
    var n := if h3.Some? then k + 1 else k;
    assert h3.Some? ==> holds[k] == h3.value;
    assert h4.Some? ==> holds[n] == h4.value;
    assert k == 2 ==> holds[1] == h2;
    assert |holds| == if h4.Some? then n + 1 else n;
  }

  lemma MeetsCombination(depth: nat, t: Table, leaf: Oracle, id: nat, target: Ref, m: MapRef, source: Ref)
    requires id in t && Combines(t[id].condition) && depth > 0
    ensures var e := t[id];
            var result := Evaluate(depth - 1, t, leaf, e, if e.swap then source else target, m, if e.swap then target else source);
            Meets(depth, t, leaf, id, target, m, source) == if e.reverse then Negate(result) else result
  {
    hide Evaluate;
  }

  lemma NodeHolds(t: Table, rank: map<nat, nat>, leaf: Oracle, id: nat, swaps: nat, target: Ref, m: MapRef, source: Ref,
                  sub: seq<Tree>, holds: seq<bool>)
    requires Ranked(t, rank) && id in rank && Combines(t[id].condition) && PartsBelow(t[id], rank, rank[id])
    requires sub == ExpandAll(t, rank, Parts(t[id]), rank[id]) && |holds| == |sub|
    requires forall i :: 0 <= i < |sub| ==>
               holds[i] == Holds(sub[i], swaps + (if t[id].swap then 1 else 0), leaf, target, m, source)
    ensures Holds(Expand(t, rank, id), swaps, leaf, target, m, source) <==> Combined(t[id].condition, holds) != t[id].reverse
  {
    hide Parts, ExpandAll;
    assert Expand(t, rank, id).parts == sub;
  }

  /** The row number that a value stands for, as an unsigned 32-bit number. */
  predicate RefersTo(v: int32, id: nat) {
    id == if v >= 0 then v else v + 4_294_967_296
  }

  ghost predicate RowHolds(t: Table, rank: map<nat, nat>, id: nat, swaps: nat, leaf: Oracle, target: Ref, m: MapRef, source: Ref)
    requires Ranked(t, rank)
  {
    id in rank && Holds(Expand(t, rank, id), swaps, leaf, target, m, source)
  }

  /** What the tree of a combining row is made of: `h1` to `h4` are what the rows that its four values
      stand for mean, under the swap flag of the row. */
  lemma TreeLaw(t: Table, rank: map<nat, nat>, leaf: Oracle, id: nat, swaps: nat, target: Ref, m: MapRef, source: Ref,
                i1: nat, i2: nat, i3: nat, i4: nat)
    requires Ranked(t, rank) && id in rank && t[id].condition in {-3, -2, -1}
    requires RefersTo(t[id].value1, i1) && RefersTo(t[id].value2, i2)
    requires RefersTo(t[id].value3, i3) && RefersTo(t[id].value4, i4)
    ensures var e := t[id];
            var below := if e.swap then swaps + 1 else swaps;
            var h1 := RowHolds(t, rank, i1, below, leaf, target, m, source);
            var h2 := RowHolds(t, rank, i2, below, leaf, target, m, source);
            var h3 := RowHolds(t, rank, i3, below, leaf, target, m, source);
            var h4 := RowHolds(t, rank, i4, below, leaf, target, m, source);
            Holds(Expand(t, rank, id), swaps, leaf, target, m, source) <==>
            e.reverse != (if e.condition == -3 then (e.value3 != 0 && h3) || (e.value4 != 0 && h4) || !h1
                          else if e.condition == -2 then h1 || h2 || (e.value3 != 0 && h3) || (e.value4 != 0 && h4)
                          else h1 && h2 && (e.value3 != 0 ==> h3) && (e.value4 != 0 ==> h4))
  {
    hide Holds, Expand, Combined, Parts, RefersTo;
    var e := t[id];
    assert PartsBelow(e, rank, rank[id]);
    PartsLayout(e, i1, i2, i3, i4);
    var below := swaps + (if e.swap then 1 else 0);
    var holds := PartsHold(t, rank, leaf, id, swaps, below, target, m, source);
    hide Ranked, RowHolds, PartsBelow;
    var k := if e.condition == -3 then 1 else 2;
    var n := if e.value3 != 0 then k + 1 else k;
    var h2 := if k == 2 then holds[1] else false;
    var h3, h4 := if e.value3 != 0 then Some(holds[k]) else None, if e.value4 != 0 then Some(holds[n]) else None;
    CombinedInTurn(e.condition, holds, h2, h3, h4);
  }

  lemma PartsHold(t: Table, rank: map<nat, nat>, leaf: Oracle, id: nat, swaps: nat, below: nat, target: Ref, m: MapRef, source: Ref)
      returns (holds: seq<bool>)
    requires Ranked(t, rank) && id in rank && Combines(t[id].condition) && below == swaps + (if t[id].swap then 1 else 0)
    ensures |holds| == |Parts(t[id])| >= 1
    ensures forall i :: 0 <= i < |holds| ==> holds[i] == RowHolds(t, rank, Parts(t[id])[i], below, leaf, target, m, source)
    ensures Holds(Expand(t, rank, id), swaps, leaf, target, m, source) <==> Combined(t[id].condition, holds) != t[id].reverse
  {
    hide Holds, Expand, Combined, Parts;
    assert PartsBelow(t[id], rank, rank[id]);
    var sub := ExpandAll(t, rank, Parts(t[id]), rank[id]);
    holds := seq(|sub|, i requires 0 <= i < |sub| => Holds(sub[i], below, leaf, target, m, source));
    NodeHolds(t, rank, leaf, id, swaps, target, m, source, sub, holds);
  }

  lemma PartsLayout(e: Entry, i1: nat, i2: nat, i3: nat, i4: nat)
    requires e.condition in {-3, -2, -1}
    requires RefersTo(e.value1, i1) && RefersTo(e.value2, i2) && RefersTo(e.value3, i3) && RefersTo(e.value4, i4)
    ensures var k := if e.condition == -3 then 1 else 2;
            var n := if e.value3 != 0 then k + 1 else k;
            && |Parts(e)| == (if e.value4 != 0 then n + 1 else n)
            && Parts(e)[0] == i1 && (k == 2 ==> Parts(e)[1] == i2)
            && (e.value3 != 0 ==> Parts(e)[k] == i3) && (e.value4 != 0 ==> Parts(e)[n] == i4)
  {
    KeyOf(e.value1, i1);
    KeyOf(e.value2, i2);
    KeyOf(e.value3, i3);
    KeyOf(e.value4, i4);
    hide Key;
  }

  lemma KeyOf(v: int32, id: nat)
    requires RefersTo(v, id)
    ensures Key(v) == id
  {
  }

  // --------------------------------------------------------- when evaluation ends

  /** More room changes no result. */
  lemma {:induction false} MoreRoom(k: nat, n: nat, t: Table, leaf: Oracle, id: nat, target: Ref, m: MapRef, source: Ref)
    requires Meets(k, t, leaf, id, target, m, source).Some? && k <= n
    ensures Meets(n, t, leaf, id, target, m, source) == Meets(k, t, leaf, id, target, m, source)
    decreases k
  {
    hide Meets, Evaluate;
    UnfoldMeets(k, t, leaf, id, target, m, source);
    UnfoldMeets(n, t, leaf, id, target, m, source);
    var e := t[id];
    var target', source' := if e.swap then source else target, if e.swap then target else source;
    if CheckParams(e.condition, target', m, source') {
      var k', n' := k - 1, n - 1;
      forall r: nat | Meets(k', t, leaf, r, target', m, source').Some?
        ensures Meets(n', t, leaf, r, target', m, source') == Meets(k', t, leaf, r, target', m, source')
      {
        MoreRoom(k', n', t, leaf, r, target', m, source');
      }
      EvaluateKept(k', n', t, leaf, e, target', m, source');
    }
  }

  lemma UnfoldMeets(depth: nat, t: Table, leaf: Oracle, id: nat, target: Ref, m: MapRef, source: Ref)
    ensures depth == 0 || id !in t ==> Meets(depth, t, leaf, id, target, m, source) == None
    ensures depth > 0 && id in t ==>
              var e := t[id];
              var target', source' := if e.swap then source else target, if e.swap then target else source;
              var result := Evaluate(depth - 1, t, leaf, e, target', m, source');
              Meets(depth, t, leaf, id, target, m, source)
              == if !CheckParams(e.condition, target', m, source') then Some(false)
                 else if e.reverse then Negate(result) else result
  {
    hide Evaluate, CheckParams;
  }

  lemma EvaluateKept(k: nat, n: nat, t: Table, leaf: Oracle, e: Entry, target: Ref, m: MapRef, source: Ref)
    requires Evaluate(k, t, leaf, e, target, m, source).Some?
    requires forall r :: Meets(k, t, leaf, r, target, m, source).Some? ==>
               Meets(n, t, leaf, r, target, m, source) == Meets(k, t, leaf, r, target, m, source)
    ensures Evaluate(n, t, leaf, e, target, m, source) == Evaluate(k, t, leaf, e, target, m, source)
  {
    hide Meets;
  }

  lemma EvaluateSame(k: nat, n: nat, t: Table, leaf: Oracle, e: Entry, target: Ref, m: MapRef, source: Ref)
    requires forall r :: Meets(n, t, leaf, r, target, m, source) == Meets(k, t, leaf, r, target, m, source)
    ensures Evaluate(n, t, leaf, e, target, m, source) == Evaluate(k, t, leaf, e, target, m, source)
  {
    hide Meets;
  }

  /** A call within an evaluation: a row, and whether target and source are exchanged. */
  type Call = (nat, bool)

  ghost function Calls(keys: set<nat>): (r: set<Call>) {
    set id, b | id in keys && b in {false, true} :: (id, b)
  }

  lemma {:induction false} CountCalls(keys: set<nat>)
    ensures |Calls(keys)| == 2 * |keys|
  {
    if keys == {} {
      assert Calls(keys) == {};
    } else {
      var x :| x in keys;
      CountCalls(keys - {x});
      assert Calls(keys) == Calls(keys - {x}) + {(x, false), (x, true)};
    }
  }

  /** The calls that come back within `depth`. */
  ghost function Back(depth: nat, t: Table, leaf: Oracle, target: Ref, m: MapRef, source: Ref): (r: set<Call>) {
    set c | c in Calls(t.Keys) && CallOf(depth, t, leaf, c, target, m, source).Some?
  }

  function CallOf(depth: nat, t: Table, leaf: Oracle, c: Call, target: Ref, m: MapRef, source: Ref): (r: Answer) {
    Meets(depth, t, leaf, c.0, if c.1 then source else target, m, if c.1 then target else source)
  }

  lemma BackGrows(depth: nat, t: Table, leaf: Oracle, target: Ref, m: MapRef, source: Ref)
    ensures Back(depth, t, leaf, target, m, source) <= Back(depth + 1, t, leaf, target, m, source)
  {
    hide Meets;
    forall c | c in Back(depth, t, leaf, target, m, source)
      ensures c in Back(depth + 1, t, leaf, target, m, source)
    {
      MoreRoom(depth, depth + 1, t, leaf, c.0, if c.1 then source else target, m, if c.1 then target else source);
    }
  }

  /** Once one more level brings no further call back, no further level does. */
  lemma BackStays(depth: nat, t: Table, leaf: Oracle, target: Ref, m: MapRef, source: Ref)
    requires Back(depth, t, leaf, target, m, source) == Back(depth + 1, t, leaf, target, m, source)
    ensures Back(depth + 1, t, leaf, target, m, source) == Back(depth + 2, t, leaf, target, m, source)
  {
    hide Meets, Evaluate, CheckParams;
    forall c | c in Calls(t.Keys)
      ensures CallOf(depth + 1, t, leaf, c, target, m, source) == CallOf(depth + 2, t, leaf, c, target, m, source)
    {
      var e := t[c.0];
      var swapped := c.1 != e.swap;
      var a, b := if swapped then source else target, if swapped then target else source;
      forall r: nat ensures Meets(depth + 1, t, leaf, r, a, m, b) == Meets(depth, t, leaf, r, a, m, b) {
        SameAnswer(depth, t, leaf, (r, swapped), target, m, source);
      }
      EvaluateSame(depth, depth + 1, t, leaf, e, a, m, b);
      UnfoldMeets(depth + 1, t, leaf, c.0, if c.1 then source else target, m, if c.1 then target else source);
      UnfoldMeets(depth + 2, t, leaf, c.0, if c.1 then source else target, m, if c.1 then target else source);
    }
  }

  lemma SameAnswer(depth: nat, t: Table, leaf: Oracle, c: Call, target: Ref, m: MapRef, source: Ref)
    requires Back(depth, t, leaf, target, m, source) == Back(depth + 1, t, leaf, target, m, source)
    ensures CallOf(depth, t, leaf, c, target, m, source) == CallOf(depth + 1, t, leaf, c, target, m, source)
  {
    hide Meets;
    var a, b := if c.1 then source else target, if c.1 then target else source;
    if c.0 !in t {
      UnfoldMeets(depth, t, leaf, c.0, a, m, b);
      UnfoldMeets(depth + 1, t, leaf, c.0, a, m, b);
    } else {
      assert c in Calls(t.Keys);
      assert c in Back(depth, t, leaf, target, m, source) <==> c in Back(depth + 1, t, leaf, target, m, source);
      if CallOf(depth, t, leaf, c, target, m, source).Some? {
        MoreRoom(depth, depth + 1, t, leaf, c.0, a, m, b);
      }
    }
  }

  /** Step `i` of a growing chain of subsets of `all`, which stays once it pauses. */
  ghost predicate ChainStep<T(!new)>(f: nat -> set<T>, all: set<T>, i: nat) {
    f(i) <= f(i + 1) <= all && (f(i) == f(i + 1) ==> f(i + 1) == f(i + 2))
  }

  /** Such a chain has paused after |all| steps. */
  lemma ChainSettles<T(!new)>(f: nat -> set<T>, all: set<T>, n: nat)
    requires forall i: nat :: ChainStep(f, all, i)
    requires n >= |all|
    ensures f(n) == f(|all|)
  {
    hide ChainStep;
    var k := ChainPauses(f, all, |all|);
    if f(k) != f(k + 1) {
      assert ChainStep(f, all, |all|);
      FullChain(f, all, |all|);
    }
    var k' := if f(k) == f(k + 1) then k else |all|;
    PauseLasts(f, all, k', n);
    PauseLasts(f, all, k', |all|);
  }

  lemma FullChain<T(!new)>(f: nat -> set<T>, all: set<T>, n: nat)
    requires ChainStep(f, all, n) && |f(n)| >= |all|
    ensures f(n) == f(n + 1)
  {
    SubsetCount(f(n), all);
  }

  lemma {:induction false} PauseLasts<T(!new)>(f: nat -> set<T>, all: set<T>, k: nat, n: nat)
    requires forall i: nat :: ChainStep(f, all, i)
    requires f(k) == f(k + 1) && k <= n
    ensures f(n) == f(k) && f(n) == f(n + 1)
    decreases n - k
  {
    if k < n {
      PauseLasts(f, all, k, n - 1);
      assert ChainStep(f, all, n - 1);
    }
  }

  /** In `n` steps a chain pauses, or has grown by `n`. */
  lemma {:induction false} ChainPauses<T(!new)>(f: nat -> set<T>, all: set<T>, n: nat) returns (k: nat)
    requires forall i: nat :: ChainStep(f, all, i)
    ensures k <= n && (f(k) == f(k + 1) || |f(n)| >= n)
  {
    k := 0;
    if n > 0 {
      k := ChainPauses(f, all, n - 1);
      assert ChainStep(f, all, n - 1);
      if f(k) != f(k + 1) {
        SubsetCount(f(n - 1), f(n));
        k := if f(n - 1) == f(n) then n - 1 else n;
      }
    }
  }

  lemma {:induction false} SubsetCount<T>(a: set<T>, b: set<T>)
    requires a <= b
    ensures a == b || |a| < |b|
  {
    if a != b {
      assert b == a + (b - a);
      assert b - a != {};
    }
  }

  /** Whether evaluation comes back is decided before it starts: it does exactly when it needs no more
      nested calls than twice the number of rows. */
  lemma ReturnsExactly(t: Table, leaf: Oracle, id: nat, target: Ref, m: MapRef, source: Ref)
    ensures Returns(t, leaf, id, target, m, source) <==> Meets(2 * |t|, t, leaf, id, target, m, source).Some?
  {
    hide Meets, CallOf;
    if Returns(t, leaf, id, target, m, source) {
      var depth: nat :| Meets(depth, t, leaf, id, target, m, source).Some?;
      if depth <= 2 * |t| {
        MoreRoom(depth, 2 * |t|, t, leaf, id, target, m, source);
      } else {
        BackSettles(depth, t, leaf, target, m, source);
        InBack(depth, t, leaf, id, target, m, source);
        InBack(2 * |t|, t, leaf, id, target, m, source);
      }
    }
  }

  lemma InBack(depth: nat, t: Table, leaf: Oracle, id: nat, target: Ref, m: MapRef, source: Ref)
    ensures (id, false) in Back(depth, t, leaf, target, m, source) <==> Meets(depth, t, leaf, id, target, m, source).Some?
  {
    hide Meets;
    UnfoldMeets(depth, t, leaf, id, target, m, source);
  }

  lemma BackSettles(depth: nat, t: Table, leaf: Oracle, target: Ref, m: MapRef, source: Ref)
    requires depth >= 2 * |t|
    ensures Back(depth, t, leaf, target, m, source) == Back(2 * |t|, t, leaf, target, m, source)
  {
    hide CallOf, Back;
    var f := (n: nat) => Back(n, t, leaf, target, m, source);
    forall i: nat
      ensures ChainStep(f, Calls(t.Keys), i)
    {
      BackGrows(i, t, leaf, target, m, source);
      BackAmong(i + 1, t, leaf, target, m, source);
      if f(i) == f(i + 1) {
        BackStays(i, t, leaf, target, m, source);
      }
    }
    CountCalls(t.Keys);
    assert |t.Keys| == |t|;
    ChainSettles(f, Calls(t.Keys), depth);
  }

  lemma BackAmong(depth: nat, t: Table, leaf: Oracle, target: Ref, m: MapRef, source: Ref)
    ensures Back(depth, t, leaf, target, m, source) <= Calls(t.Keys)
  {
  }

  // ------------------------------------------------------- references of the table

  /** No reference followed from `id` is missing, and no path of them is longer than `n`. */
  predicate Grounded(n: nat, t: Table, id: nat) {
    id in t && (Parts(t[id]) != [] ==> n > 0 && forall i :: 0 <= i < |Parts(t[id])| ==> Grounded(n - 1, t, Parts(t[id])[i]))
  }

  ghost function GroundedRows(n: nat, t: Table): (r: set<nat>) {
    set id | id in t.Keys && Grounded(n, t, id)
  }

  lemma {:induction false} GroundedMore(n: nat, k: nat, t: Table, id: nat)
    requires Grounded(n, t, id) && n <= k
    ensures Grounded(k, t, id)
    decreases n
  {
    forall i | 0 <= i < |Parts(t[id])|
      ensures Grounded(k - 1, t, Parts(t[id])[i])
    {
      GroundedMore(n - 1, k - 1, t, Parts(t[id])[i]);
    }
  }

  lemma GroundedSettles(n: nat, t: Table, id: nat)
    requires Grounded(n, t, id)
    ensures Grounded(|t|, t, id)
  {
    hide Parts;
    var f := (k: nat) => GroundedRows(k, t);
    forall i: nat
      ensures ChainStep(f, t.Keys, i)
    {
      GroundedGrows(i, t);
      if f(i) == f(i + 1) {
        GroundedStays(i, t);
      }
    }
    assert |t.Keys| == |t|;
    if n >= |t| {
      ChainSettles(f, t.Keys, n);
      assert id in f(n);
    } else {
      GroundedMore(n, |t|, t, id);
    }
  }

  lemma GroundedGrows(n: nat, t: Table)
    ensures GroundedRows(n, t) <= GroundedRows(n + 1, t)
  {
    forall id | id in GroundedRows(n, t)
      ensures Grounded(n + 1, t, id)
    {
      GroundedMore(n, n + 1, t, id);
    }
  }

  lemma GroundedStays(n: nat, t: Table)
    requires GroundedRows(n, t) == GroundedRows(n + 1, t)
    ensures GroundedRows(n + 1, t) == GroundedRows(n + 2, t)
  {
    hide Parts;
    GroundedGrows(n + 1, t);
    var n' := n + 2;
    forall id | id in GroundedRows(n', t)
      ensures Grounded(n + 1, t, id)
    {
      forall i | 0 <= i < |Parts(t[id])|
        ensures Grounded(n, t, Parts(t[id])[i])
      {
        assert Grounded(n + 1, t, Parts(t[id])[i]);
        assert Parts(t[id])[i] in GroundedRows(n + 1, t);
      }
    }
  }

  /** A rank reaching `id` exists exactly when no path of references from it is longer than the table
      has rows, so that a loader could look for one. */
  lemma RankExactly(t: Table, id: nat)
    ensures (exists rank :: Ranked(t, rank) && id in rank) <==> Grounded(|t|, t, id)
  {
    hide Parts;
    if rank :| Ranked(t, rank) && id in rank {
      RankedIsGrounded(t, rank, id);
      GroundedSettles(rank[id], t, id);
    }
    if Grounded(|t|, t, id) {
      var rank := Heights(t);
      HeightsRank(t);
      assert id in rank;
    }
  }

  lemma {:induction false} RankedIsGrounded(t: Table, rank: map<nat, nat>, id: nat)
    requires Ranked(t, rank) && id in rank
    ensures Grounded(rank[id], t, id)
    decreases rank[id]
  {
    hide Parts;
    assert PartsBelow(t[id], rank, rank[id]);
    forall i | 0 <= i < |Parts(t[id])|
      ensures rank[id] > 0 && Grounded(rank[id] - 1, t, Parts(t[id])[i])
    {
      var r := Parts(t[id])[i];
      assert rank[r] < rank[id];
      RankedIsGrounded(t, rank, r);
      GroundedMore(rank[r], rank[id] - 1, t, r);
    }
    assert Parts(t[id]) != [] ==> rank[Parts(t[id])[0]] < rank[id];
  }

  /** The length of the longest path from a grounded row. */
  ghost function Height(n: nat, t: Table, id: nat): (h: nat)
    requires Grounded(n, t, id)
    ensures h <= n && Grounded(h, t, id)
    ensures h > 0 ==> !Grounded(h - 1, t, id)
  {
    if n > 0 && Grounded(n - 1, t, id) then Height(n - 1, t, id) else n
  }

  ghost function Heights(t: Table): (r: map<nat, nat>) {
    map id | id in t.Keys && Grounded(|t|, t, id) :: Height(|t|, t, id)
  }

  lemma HeightsRank(t: Table)
    ensures Ranked(t, Heights(t))
  {
    hide Parts;
    var rank := Heights(t);
    forall id | id in rank
      ensures PartsBelow(t[id], rank, rank[id])
    {
      forall i | 0 <= i < |Parts(t[id])|
        ensures Parts(t[id])[i] in rank && rank[Parts(t[id])[i]] < rank[id]
      {
        var r := Parts(t[id])[i];
        assert Grounded(rank[id], t, id);
        assert Grounded(rank[id] - 1, t, r);
        GroundedSettles(rank[id] - 1, t, r);
        if rank[r] >= rank[id] {
          GroundedMore(rank[id] - 1, rank[r] - 1, t, r);
        }
      }
    }
  }

  /** A row from which every path of references ends returns, for every oracle and all arguments. */
  lemma GroundedReturns(t: Table, leaf: Oracle, id: nat, target: Ref, m: MapRef, source: Ref)
    requires Grounded(|t|, t, id)
    ensures Returns(t, leaf, id, target, m, source)
  {
    hide Meets, Parts, Holds;
    RankExactly(t, id);
    var rank :| Ranked(t, rank) && id in rank;
    MeetsIsTree(rank[id] + 1, t, rank, leaf, id, 0, target, m, source);
  }

  /** The reference that a combination follows before any other. */
  function Foremost(e: Entry): (r: nat) {
    if e.value3 != 0 then Key(e.value3) else if e.value4 != 0 then Key(e.value4) else Key(e.value1)
  }

  /** Following foremost references from `id` leads to a leaf in at most `n` steps. */
  predicate ForemostEnds(n: nat, t: Table, id: nat) {
    id in t && (Combines(t[id].condition) ==> n > 0 && ForemostEnds(n - 1, t, Foremost(t[id])))
  }

  /** Foremost references are followed whatever the oracle says: where they run in a circle or to a
      missing row, evaluation never returns. */
  lemma {:induction false} ForemostDecides(depth: nat, t: Table, leaf: Oracle, id: nat, target: Ref, m: MapRef, source: Ref)
    requires Meets(depth, t, leaf, id, target, m, source).Some?
    ensures ForemostEnds(depth, t, id)
    decreases depth
  {
    hide Meets, Foremost;
    UnfoldMeets(depth, t, leaf, id, target, m, source);
    var e := t[id];
    if Combines(e.condition) {
      var a, b := if e.swap then source else target, if e.swap then target else source;
      ForemostFirst(depth - 1, t, leaf, e, a, m, b);
      ForemostDecides(depth - 1, t, leaf, Foremost(e), a, m, b);
    }
  }

  lemma ForemostFirst(depth: nat, t: Table, leaf: Oracle, e: Entry, target: Ref, m: MapRef, source: Ref)
    requires Combines(e.condition) && Evaluate(depth, t, leaf, e, target, m, source).Some?
    ensures Meets(depth, t, leaf, Foremost(e), target, m, source).Some?
  {
    hide Meets;
  }

  lemma NeverReturns(t: Table, leaf: Oracle, id: nat, target: Ref, m: MapRef, source: Ref)
    requires forall n: nat :: !ForemostEnds(n, t, id)
    ensures !Returns(t, leaf, id, target, m, source)
  {
    hide Meets, ForemostEnds;
    if depth: nat :| Meets(depth, t, leaf, id, target, m, source).Some? {
      ForemostDecides(depth, t, leaf, id, target, m, source);
    }
  }

  // ------------------------------------------------------------ loading the table

  /** A reference below `entry` to a row that exists. */
  predicate RefOk(t: Table, entry: nat, v: int) {
    Key(v) < entry && Key(v) in t
  }

  predicate OptionalOk(t: Table, entry: nat, v: int) {
    v != 0 ==> RefOk(t, entry, v)
  }

  /** The reference checks of `IsValid`: those of NOT stop at the first value. */
  predicate RefsValid(t: Table, e: Entry) {
    if e.condition == CONDITION_NOT then RefOk(t, e.entry, e.value1)
    else if e.condition == CONDITION_OR || e.condition == CONDITION_AND then
      && RefOk(t, e.entry, e.value1) && RefOk(t, e.entry, e.value2)
      && OptionalOk(t, e.entry, e.value3) && OptionalOk(t, e.entry, e.value4)
    else true
  }

  /** What the loader asks of a row, for the rows `i1` to `i4` that its values stand for: those that a
      combining row names must exist and be lower, the optional ones of OR and AND where they are not
      0; of the optional ones of NOT, and of all other rows, nothing. */
  lemma LoaderLaw(t: Table, e: Entry, i1: nat, i2: nat, i3: nat, i4: nat)
    requires RefersTo(e.value1, i1) && RefersTo(e.value2, i2) && RefersTo(e.value3, i3) && RefersTo(e.value4, i4)
    ensures RefsValid(t, e) <==>
            && (e.condition in {-3, -2, -1} ==> i1 < e.entry && i1 in t)
            && (e.condition in {-2, -1} ==>
                  && i2 < e.entry && i2 in t
                  && (e.value3 == 0 || (i3 < e.entry && i3 in t))
                  && (e.value4 == 0 || (i4 < e.entry && i4 in t)))
  {
    KeyOf(e.value1, i1);
    KeyOf(e.value2, i2);
    KeyOf(e.value3, i3);
    KeyOf(e.value4, i4);
    hide Key;
  }

  ghost predicate Checked(t: Table) {
    forall id :: id in t ==> t[id].entry == id && RefsValid(t, t[id])
  }

  /** The optional references of NOT rows, which evaluation follows and nothing checks, are in order. */
  ghost predicate NotRowsInOrder(t: Table) {
    forall id :: id in t && t[id].condition == CONDITION_NOT ==>
      OptionalOk(t, id, t[id].value3) && OptionalOk(t, id, t[id].value4)
  }

  /** A table that passes the checks, and whose NOT rows have no or lower optional references, can be
      evaluated at every row. */
  lemma CheckedReturns(t: Table, leaf: Oracle, id: nat, target: Ref, m: MapRef, source: Ref)
    requires Checked(t) && NotRowsInOrder(t) && id in t
    ensures Returns(t, leaf, id, target, m, source)
  {
    var rank := map i | i in t.Keys :: i;
    assert Ranked(t, rank) by {
      hide Key;
      forall i | i in rank
        ensures PartsBelow(t[i], rank, rank[i])
      {
        assert RefsValid(t, t[i]);
      }
    }
    hide Meets, Holds, Parts;
    MeetsIsTree(id + 1, t, rank, leaf, id, 0, target, m, source);
  }

  /** Being lower is not necessary: a NOT row may refer up to a row that leads nowhere back. */
  lemma UpwardReferenceReturns()
    ensures exists t: Table :: Checked(t) && !NotRowsInOrder(t) && forall id :: id in t ==> Grounded(|t|, t, id)
  {
    var t: Table := map[
      1 := Entry(1, CONDITION_NONE, 0, 0, 0, 0, false, false),
      2 := Entry(2, CONDITION_NOT, 1, 0, 3, 0, false, false),
      3 := Entry(3, CONDITION_NONE, 0, 0, 0, 0, false, false)];
    assert RefOk(t, 2, 1);
    assert Checked(t);
    assert !OptionalOk(t, 2, t[2].value3);
    assert Grounded(1, t, 1) && Grounded(1, t, 3);
    assert Parts(t[2]) == [1, 3];
    assert Grounded(2, t, 2);
    forall id | id in t
      ensures Grounded(|t|, t, id)
    {
      GroundedMore(if id == 2 then 2 else 1, |t|, t, id);
    }
  }

  function LoopTable(third: int32, fourth: int32, kind: ConditionType): (t: Table) {
    map[1 := Entry(1, kind, 0, 0, 0, 0, false, false),
        2 := Entry(2, CONDITION_NOT, 1, 0, third, fourth, false, false)]
  }

  /** A NOT row whose third value is itself passes the checks and never returns. */
  lemma SelfReferencePasses(leaf: Oracle, target: Ref, m: MapRef, source: Ref)
    ensures Checked(LoopTable(2, 0, CONDITION_NONE))
    ensures !Returns(LoopTable(2, 0, CONDITION_NONE), leaf, 2, target, m, source)
  {
    hide Meets;
    var t := LoopTable(2, 0, CONDITION_NONE);
    assert RefOk(t, 2, 1);
    forall n: nat ensures !ForemostEnds(n, t, 2) {
      SelfLoop(n, t, 2);
    }
    NeverReturns(t, leaf, 2, target, m, source);
  }

  lemma {:induction false} SelfLoop(n: nat, t: Table, id: nat)
    requires id in t && Combines(t[id].condition) && Foremost(t[id]) == id
    ensures !ForemostEnds(n, t, id)
  {
    if n > 0 {
      SelfLoop(n - 1, t, id);
    }
  }

  /** A circle through the fourth value is entered or not as the third says: here the oracle alone
      decides. */
  lemma OracleDecides(leaf: Oracle, target: Ref, m: MapRef, source: Ref)
    ensures var t := LoopTable(1, 2, 11);
            Checked(t) && (Returns(t, leaf, 2, target, m, source) <==> leaf(t[1], target, m, source))
  {
    var t := LoopTable(1, 2, 11);
    assert RefOk(t, 2, 1);
    if leaf(t[1], target, m, source) {
      assert Meets(1, t, leaf, 1, target, m, source) == Some(true);
      assert Meets(2, t, leaf, 2, target, m, source) == Some(true);
    } else {
      hide Meets;
      if depth: nat :| Meets(depth, t, leaf, 2, target, m, source).Some? {
        FourthLoop(depth, leaf, target, m, source);
      }
    }
  }

  lemma {:induction false} FourthLoop(depth: nat, leaf: Oracle, target: Ref, m: MapRef, source: Ref)
    requires !leaf(LoopTable(1, 2, 11)[1], target, m, source)
    ensures Meets(depth, LoopTable(1, 2, 11), leaf, 2, target, m, source) == None
  {
    var t := LoopTable(1, 2, 11);
    if depth > 1 {
      FourthLoop(depth - 1, leaf, target, m, source);
      hide Meets;
      UnfoldMeets(depth, t, leaf, 2, target, m, source);
      UnfoldMeets(depth - 1, t, leaf, 1, target, m, source);
    }
  }
}
