/** The voice jitter buffer: the order in which parked RTP payloads leave it, with 16-bit sequence
    numbers that wrap (section 5.1 of RFC 3550), and the flush that conceals the missing ones. */
module Voice {
  import opened Bytes

  const SEQ_MOD: int := 65536
  const BOUNDARY: int := 5000

  type u16 = x: int | 0 <= x < SEQ_MOD

  /** A `voice_payload`; `audio` stands for what it carries. */
  datatype Payload = Payload(seqNo: u16, timestamp: nat, audio: nat)

  /** `voice_payload::operator<`: true when `a` leaves the queue after `b`. */
  predicate Less(a: Payload, b: Payload) {
    if a.timestamp != b.timestamp then a.timestamp > b.timestamp
    else if (a.seqNo < BOUNDARY) != (b.seqNo < BOUNDARY) then
      (a.seqNo + BOUNDARY) % SEQ_MOD > (b.seqNo + BOUNDARY) % SEQ_MOD
    else a.seqNo > b.seqNo
  }

  /** How far `s` lies after `base`, going round. */
  function Offset(s: u16, base: u16): (d: u16) {
    (s - base) % SEQ_MOD
  }

  // --------------------------------------------------------------------- the order

  /** The largest cyclic window on which the comparison is right. */
  const WINDOW: int := 5001

  /** The serial order of section 3.2 of RFC 1982 on 16-bit numbers: `s` comes after `t`. */
  predicate SerialAfter(s: u16, t: u16) {
    0 < (s - t) % SEQ_MOD < SEQ_MOD / 2
  }

  /** Within a window the comparison is the reverse of the serial order, and of the order by distance
      from the window's start. */
  lemma LessIsReverseSerial(a: Payload, b: Payload, base: u16)
    requires a.timestamp == b.timestamp && Offset(a.seqNo, base) < WINDOW && Offset(b.seqNo, base) < WINDOW
    ensures Less(a, b) <==> Offset(a.seqNo, base) > Offset(b.seqNo, base)
    ensures Less(a, b) <==> SerialAfter(a.seqNo, b.seqNo)
  {
    OffsetCases(a.seqNo, b.seqNo);
    assert Offset(a.seqNo, b.seqNo) == (a.seqNo - b.seqNo) % SEQ_MOD;
    OffsetCases(a.seqNo, base);
    OffsetCases(b.seqNo, base);
    ShiftCases(a.seqNo);
    ShiftCases(b.seqNo);
  }

  lemma OffsetCases(s: u16, base: u16)
    ensures Offset(s, base) == if s >= base then s - base else s - base + SEQ_MOD
  {
  }

  lemma ShiftCases(s: u16)
    ensures (s + BOUNDARY) % SEQ_MOD == if s + BOUNDARY < SEQ_MOD then s + BOUNDARY else s + BOUNDARY - SEQ_MOD
  {
  }

  ghost predicate RightOnWindow(n: int, base: u16, a: Payload, b: Payload) {
    a.timestamp == b.timestamp && Offset(a.seqNo, base) < n && Offset(b.seqNo, base) < n ==>
      (Less(a, b) <==> Offset(a.seqNo, base) > Offset(b.seqNo, base))
  }

  /** The window is exact: the comparison is right on all cyclic windows of `n` numbers if and only if
      `n` is at most 5001. */
  lemma WindowIsExact(n: int)
    ensures (forall base, a, b :: RightOnWindow(n, base, a, b)) <==> n <= WINDOW
  {
    if n <= WINDOW {
      forall base, a, b
        ensures RightOnWindow(n, base, a, b)
      {
        if a.timestamp == b.timestamp && Offset(a.seqNo, base) < n && Offset(b.seqNo, base) < n {
          LessIsReverseSerial(a, b, base);
        }
      }
    } else {
      var a, b := Payload(60535, 0, 0), Payload(0, 0, 0);
      assert Offset(60535, 60535) == 0 && Offset(0, 60535) == 5001;
      assert !RightOnWindow(n, 60535, a, b);
    }
  }

  /** Every group of equal timestamps among the payloads lies in one window; `base` says where. */
  ghost predicate Windowed(ps: seq<Payload>, base: nat -> u16) {
    forall p :: p in ps ==> Offset(p.seqNo, base(p.timestamp)) < WINDOW
  }

  /** `a` is strictly before `b`: earlier timestamp, or the same and earlier in the window. */
  predicate Before(a: Payload, b: Payload, base: nat -> u16) {
    a.timestamp < b.timestamp
    || (a.timestamp == b.timestamp && Offset(a.seqNo, base(a.timestamp)) < Offset(b.seqNo, base(b.timestamp)))
  }

  lemma LessMeansAfter(ps: seq<Payload>, base: nat -> u16, a: Payload, b: Payload)
    requires Windowed(ps, base) && a in ps && b in ps
    ensures Less(a, b) <==> Before(b, a, base)
  {
    if a.timestamp == b.timestamp {
      LessIsReverseSerial(a, b, base(a.timestamp));
    }
  }

  /** What `std::priority_queue` asks of its comparison holds on windowed payloads: it is irreflexive
      and transitive, and so is "neither before the other". */
  lemma StrictWeakOrder(ps: seq<Payload>, base: nat -> u16, a: Payload, b: Payload, c: Payload)
    requires Windowed(ps, base) && a in ps && b in ps && c in ps
    ensures !Less(a, a)
    ensures Less(a, b) && Less(b, c) ==> Less(a, c)
    ensures !Less(a, b) && !Less(b, a) && !Less(b, c) && !Less(c, b) ==> !Less(a, c) && !Less(c, a)
  {
    hide Less, Offset;
    LessMeansAfter(ps, base, a, a);
    LessMeansAfter(ps, base, a, b);
    LessMeansAfter(ps, base, b, a);
    LessMeansAfter(ps, base, b, c);
    LessMeansAfter(ps, base, c, b);
    LessMeansAfter(ps, base, a, c);
    LessMeansAfter(ps, base, c, a);
  }

  /** Without a window it is not an order at all: three payloads, each before the next. */
  lemma CycleWithoutWindow()
    ensures exists a, b, c :: Less(a, b) && Less(b, c) && Less(c, a)
  {
    var a, b, c := Payload(60536, 0, 0), Payload(5000, 0, 0), Payload(10, 0, 0);
    assert Less(a, b) && Less(b, c) && Less(c, a);
  }

  /** `ps` is an order in which a priority queue may give them up: no payload leaves before one that
      the comparison puts ahead of it. */
  ghost predicate PopOrder(ps: seq<Payload>) {
    forall i, j :: 0 <= i < j < |ps| ==> !Less(ps[i], ps[j])
  }

  /** Windowed payloads leave in order of time. */
  lemma PopsInTime(ps: seq<Payload>, base: nat -> u16, i: nat, j: nat)
    requires Windowed(ps, base) && PopOrder(ps) && i < j < |ps|
    ensures !Before(ps[j], ps[i], base)
  {
    LessMeansAfter(ps, base, ps[i], ps[j]);
  }

  // --------------------------------------------------------------------- the flush

  /** What a listener is told: a guess for a missing number, or a payload. */
  datatype Event = Conceal(missing: u16) | Deliver(payload: Payload)

  function Numbers(ev: Event): (s: u16) {
    match ev
    case Conceal(m) => m
    case Deliver(p) => p.seqNo
  }

  function Guesses(from: u16, n: nat): (r: seq<Event>)
    ensures |r| == n
    decreases n
  {
    if n == 0 then [] else [Conceal(from)] + Guesses((from + 1) % SEQ_MOD, n - 1)
  }

  /** Before each payload, one guess for every number skipped, going round if need be. */
  function FlushSpec(from: u16, parked: seq<Payload>): (r: seq<Event>)
    decreases parked
  {
    if parked == [] then []
    else
      var p := parked[0];
      Guesses(from, Offset(p.seqNo, from)) + [Deliver(p)] + FlushSpec((p.seqNo + 1) % SEQ_MOD, parked[1..])
  }

  /** The per-user flush loop of `voice_courier_loop`. `parked` lists the queue in the order its
      `top` and `pop` give. The loop ends for every starting number and every queue. */
  method Flush(minSeq: u16, parked: seq<Payload>) returns (told: seq<Event>)
    ensures told == FlushSpec(minSeq, parked)
  {
    told := [];
    var queue := parked;
    var seqNo: u16 := minSeq;
    hide FlushSpec;
    FlushNothing(seqNo);
    while queue != []
      invariant told + FlushSpec(seqNo, queue) == FlushSpec(minSeq, parked)
      decreases |queue|, if queue != [] then Offset(queue[0].seqNo, seqNo) else 0
    {
      ghost var next := (seqNo + 1) % SEQ_MOD;
      if queue[0].seqNo != seqNo {
        SkipOne(seqNo, queue);
        ConcatAssoc(told, [Conceal(seqNo)], FlushSpec(next, queue));
        told := told + [Conceal(seqNo)];
      } else {
        TakeOne(seqNo, queue);
        ConcatAssoc(told, [Deliver(queue[0])], FlushSpec(next, queue[1..]));
        told := told + [Deliver(queue[0])];
        queue := queue[1..];
      }
      seqNo := (seqNo + 1) % SEQ_MOD;
    }
    FlushNothing(seqNo);
  }

  lemma FlushNothing(from: u16)
    ensures FlushSpec(from, []) == []
  {
  }

  /** The first payload's share of the flush, for any number of guesses equal to its distance. */
  lemma FlushUnfold(from: u16, parked: seq<Payload>, n: nat, after: u16)
    requires parked != [] && n == Offset(parked[0].seqNo, from) && after == (parked[0].seqNo + 1) % SEQ_MOD
    ensures FlushSpec(from, parked) == Guesses(from, n) + [Deliver(parked[0])] + FlushSpec(after, parked[1..])
  {
    hide Offset, Guesses;
  }

  lemma NoGuesses(from: u16)
    ensures Guesses(from, 0) == []
  {
  }

  lemma TakeOne(from: u16, parked: seq<Payload>)
    requires parked != [] && parked[0].seqNo == from
    ensures FlushSpec(from, parked) == [Deliver(parked[0])] + FlushSpec((from + 1) % SEQ_MOD, parked[1..])
  {
    hide FlushSpec, Guesses, Offset;
    OffsetCases(from, from);
    FlushUnfold(from, parked, 0, (from + 1) % SEQ_MOD);
    NoGuesses(from);
    assert [] + [Deliver(parked[0])] == [Deliver(parked[0])];
  }

  lemma SkipOne(from: u16, parked: seq<Payload>)
    requires parked != [] && parked[0].seqNo != from
    ensures FlushSpec(from, parked) == [Conceal(from)] + FlushSpec((from + 1) % SEQ_MOD, parked)
    ensures Offset(parked[0].seqNo, (from + 1) % SEQ_MOD) == Offset(parked[0].seqNo, from) - 1
  {
    hide FlushSpec, Offset;
    var p, next := parked[0], (from + 1) % SEQ_MOD;
    OffsetStep(p.seqNo, from);
    var n, after := Offset(p.seqNo, from), (p.seqNo + 1) % SEQ_MOD;
    var tail := FlushSpec(after, parked[1..]);
    FlushUnfold(from, parked, n, after);
    FlushUnfold(next, parked, n - 1, after);
    assert Guesses(from, n) == [Conceal(from)] + Guesses(next, n - 1);
    ConcatAssoc([Conceal(from)], Guesses(next, n - 1), [Deliver(p)]);
    ConcatAssoc([Conceal(from)], Guesses(next, n - 1) + [Deliver(p)], tail);
  }

  lemma OffsetStep(s: u16, from: u16)
    requires s != from
    ensures Offset(s, (from + 1) % SEQ_MOD) == Offset(s, from) - 1
  {
    OffsetCases(s, from);
    OffsetCases(s, (from + 1) % SEQ_MOD);
  }

  function Delivered(told: seq<Event>): (r: seq<Payload>) {
    if told == [] then []
    else (if told[0].Deliver? then [told[0].payload] else []) + Delivered(told[1..])
  }

  lemma {:induction false} DeliveredConcat(a: seq<Event>, b: seq<Event>)
    ensures Delivered(a + b) == Delivered(a) + Delivered(b)
  {
    if a == [] {
      assert a + b == b;
    } else {
      DeliveredConcat(a[1..], b);
      assert (a + b)[1..] == a[1..] + b;
      ConcatAssoc(if a[0].Deliver? then [a[0].payload] else [], Delivered(a[1..]), Delivered(b));
    }
  }

  lemma {:induction false} GuessesDeliverNothing(from: u16, n: nat)
    ensures Delivered(Guesses(from, n)) == []
    decreases n
  {
    if n > 0 {
      GuessesDeliverNothing((from + 1) % SEQ_MOD, n - 1);
      assert Guesses(from, n)[1..] == Guesses((from + 1) % SEQ_MOD, n - 1);
    }
  }

  /** Every parked payload is delivered, once, in the order the queue gives them. */
  lemma {:induction false} FlushDeliversAll(from: u16, parked: seq<Payload>)
    ensures Delivered(FlushSpec(from, parked)) == parked
    decreases parked
  {
    if parked != [] {
      var p := parked[0];
      var guesses, next := Guesses(from, Offset(p.seqNo, from)), FlushSpec((p.seqNo + 1) % SEQ_MOD, parked[1..]);
      GuessesDeliverNothing(from, Offset(p.seqNo, from));
      DeliveredConcat(guesses + [Deliver(p)], next);
      DeliveredConcat(guesses, [Deliver(p)]);
      assert Delivered([Deliver(p)]) == [p] + Delivered([]);
      FlushDeliversAll((p.seqNo + 1) % SEQ_MOD, parked[1..]);
    }
  }

  /** The numbers run upwards from `from`. */
  ghost predicate Consecutive(told: seq<Event>, from: int) {
    forall i :: 0 <= i < |told| ==> Numbers(told[i]) == (from + i) % SEQ_MOD
  }

  lemma ConsecutiveConcat(a: seq<Event>, b: seq<Event>, from: int, next: int)
    requires Consecutive(a, from) && Consecutive(b, next) && next % SEQ_MOD == (from + |a|) % SEQ_MOD
    ensures Consecutive(a + b, from)
  {
    forall i | 0 <= i < |a + b|
      ensures Numbers((a + b)[i]) == (from + i) % SEQ_MOD
    {
      if i >= |a| {
        assert (a + b)[i] == b[i - |a|];
        AddMod(next, from + |a|, i - |a|);
      }
    }
  }

  lemma AddMod(a: int, b: int, d: int)
    requires a % SEQ_MOD == b % SEQ_MOD
    ensures (a + d) % SEQ_MOD == (b + d) % SEQ_MOD
  {
  }

  lemma {:induction false} GuessesConsecutive(from: u16, n: nat)
    ensures Consecutive(Guesses(from, n), from)
    decreases n
  {
    if n > 0 {
      var next := (from + 1) % SEQ_MOD;
      GuessesConsecutive(next, n - 1);
      ConsecutiveConcat([Conceal(from)], Guesses(next, n - 1), from, next);
    }
  }

  /** Whatever is parked, the numbers told run upwards from the first without a gap. */
  lemma {:induction false} FlushConsecutive(from: u16, parked: seq<Payload>)
    ensures Consecutive(FlushSpec(from, parked), from)
    decreases parked
  {
    hide Consecutive, Guesses;
    if parked == [] {
      NothingConsecutive(from);
    } else {
      var p := parked[0];
      var n := Offset(p.seqNo, from);
      var next := (p.seqNo + 1) % SEQ_MOD;
      GuessesConsecutive(from, n);
      FlushConsecutive(next, parked[1..]);
      OneConsecutive(p);
      OffsetCases(p.seqNo, from);
      ConsecutiveConcat(Guesses(from, n), [Deliver(p)], from, p.seqNo);
      ConsecutiveConcat(Guesses(from, n) + [Deliver(p)], FlushSpec(next, parked[1..]), from, next);
    }
  }

  lemma NothingConsecutive(from: int)
    ensures Consecutive([], from)
  {
  }

  lemma OneConsecutive(p: Payload)
    ensures Consecutive([Deliver(p)], p.seqNo)
  {
  }

  /** The batch the design has in mind: distinct numbers within one window after `minSeq`, and later
      timestamps on later numbers. */
  ghost predicate OrderlyBatch(minSeq: u16, parked: seq<Payload>) {
    && (forall p :: p in parked ==> Offset(p.seqNo, minSeq) < WINDOW)
    && (forall i, j :: 0 <= i < j < |parked| ==> parked[i].seqNo != parked[j].seqNo)
    && (forall p, q :: p in parked && q in parked && p.timestamp < q.timestamp ==>
          Offset(p.seqNo, minSeq) < Offset(q.seqNo, minSeq))
  }

  /** How often `s` is told. */
  function Times(told: seq<Event>, s: u16): (n: nat) {
    if told == [] then 0 else (if Numbers(told[0]) == s then 1 else 0) + Times(told[1..], s)
  }

  /** Then the flush tells every number from `minSeq` to the last payload exactly once, in order, and
      no other number. */
  lemma FlushVisitsOnce(minSeq: u16, parked: seq<Payload>, s: u16)
    requires parked != [] && OrderlyBatch(minSeq, parked) && PopOrder(parked)
    ensures Consecutive(FlushSpec(minSeq, parked), minSeq)
    ensures |FlushSpec(minSeq, parked)| == Offset(parked[|parked| - 1].seqNo, minSeq) + 1 <= WINDOW
    ensures Times(FlushSpec(minSeq, parked), s)
            == if Offset(s, minSeq) <= Offset(parked[|parked| - 1].seqNo, minSeq) then 1 else 0
  {
    FlushConsecutive(minSeq, parked);
    var base := (t: nat) => minSeq;
    assert Windowed(parked, base);
    forall i, j | 0 <= i < j < |parked|
      ensures Offset(parked[i].seqNo, minSeq) < Offset(parked[j].seqNo, minSeq)
    {
      PopsInTime(parked, base, i, j);
      OffsetInjective(parked[i].seqNo, parked[j].seqNo, minSeq);
    }
    FlushLength(minSeq, parked);
    hide FlushSpec, Consecutive, Times;
    ConsecutiveTimes(FlushSpec(minSeq, parked), minSeq, s);
  }

  /** Consecutive numbers that do not go all the way round are told once each. */
  lemma {:induction false} ConsecutiveTimes(told: seq<Event>, from: u16, s: u16)
    requires Consecutive(told, from) && |told| < SEQ_MOD
    ensures Times(told, s) == if Offset(s, from) < |told| then 1 else 0
    decreases told
  {
    if told != [] {
      var next := (from + 1) % SEQ_MOD;
      forall i | 0 <= i < |told[1..]|
        ensures Numbers(told[1..][i]) == (next + i) % SEQ_MOD
      {
        assert told[1..][i] == told[i + 1];
        AddMod(next, from + 1, i);
      }
      ConsecutiveTimes(told[1..], next, s);
      assert Numbers(told[0]) == (from + 0) % SEQ_MOD == from;
      if s == from {
        OffsetCases(s, from);
        OffsetCases(s, next);
      } else {
        OffsetStep(s, from);
        OffsetCases(s, from);
      }
    }
  }

  lemma OffsetInjective(s: u16, t: u16, base: u16)
    ensures Offset(s, base) == Offset(t, base) ==> s == t
  {
    OffsetCases(s, base);
    OffsetCases(t, base);
  }

  lemma {:induction false} FlushLength(from: u16, parked: seq<Payload>)
    requires parked != []
    requires forall i, j :: 0 <= i < j < |parked| ==> Offset(parked[i].seqNo, from) < Offset(parked[j].seqNo, from)
    ensures |FlushSpec(from, parked)| == Offset(parked[|parked| - 1].seqNo, from) + 1
    decreases parked
  {
    var p, tail := parked[0], parked[1..];
    var next := (p.seqNo + 1) % SEQ_MOD;
    if tail == [] {
      assert FlushSpec(next, tail) == [];
    } else {
      forall k | 0 <= k < |tail|
        ensures Offset(tail[k].seqNo, next) == Offset(tail[k].seqNo, from) - Offset(p.seqNo, from) - 1
      {
        assert tail[k] == parked[k + 1];
        OffsetRebase(tail[k].seqNo, p.seqNo, from);
      }
      FlushLength(next, tail);
    }
  }

  lemma OffsetRebase(s: u16, p: u16, from: u16)
    requires Offset(p, from) < Offset(s, from)
    ensures Offset(s, (p + 1) % SEQ_MOD) == Offset(s, from) - Offset(p, from) - 1
  {
    OffsetCases(s, from);
    OffsetCases(p, from);
    OffsetCases(s, (p + 1) % SEQ_MOD);
  }
}
