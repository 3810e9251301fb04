/** What every run of the request queue keeps: no request is lost, run twice or called back twice,
    each endpoint is served in posting order, and no endpoint is sent to before its limit allows. */
module RequestQueueProofs {
  import opened Bytes
  import opened RequestQueue

  // ---------------------------------------------------------------- invariant

  /** The list of `e` at worker `k`. */
  function QueueAt(k: Worker, e: Endpoint): (r: seq<Request>) {
    if e in k.requestsIn then k.requestsIn[e] else []
  }

  /** The request for `e` that worker `k` is running, if any. */
  function InFlightAt(k: Worker, e: Endpoint): (r: seq<Request>) {
    if k.phase.Running? && k.phase.todo != [] && k.phase.todo[0].endpoint == e && k.phase.todo[0].reqs != []
    then [k.phase.todo[0].reqs[0]]
    else []
  }

  function BucketAt(k: Worker, e: Endpoint): (r: Option<Bucket>) {
    if e in k.buckets then Some(k.buckets[e]) else None
  }

  /** Endpoint `e` at its worker `k`: everything posted has been run or is still to be run, in
      order; the runs begun are the runs ended and the one in flight; the bucket is the last
      answer. */
  ghost predicate EndpointOk(posted: seq<Request>, log: seq<Event>, completed: set<nat>, k: Worker, e: Endpoint) {
    && For(posted, e) == For(RunsOf(log), e) + Unfinished(QueueAt(k, e), completed)
    && For(StartsOf(log), e) == For(RunsOf(log), e) + InFlightAt(k, e)
    && LastReply(log, e) == BucketAt(k, e)
  }

  /** Worker `k` at place `w` holds only endpoints routed to it, and what it is about to run is the
      front of what is pending. */
  ghost predicate WorkerOk(posted: seq<Request>, completed: set<nat>, pool: nat, w: nat, k: Worker)
    requires pool > 0
  {
    && (forall e :: e in k.requestsIn ==> Route(e, pool) == w && ListOk(posted, k.requestsIn[e], e))
    && (k.phase.Idle? ==> forall e :: e in k.requestsIn ==> NoneDone(k.requestsIn[e], completed))
    && (!k.phase.Idle? ==> TodoOk(k.requestsIn, completed, k.phase.todo))
    && (k.phase.Running? ==> k.phase.todo != [] && k.phase.todo[0].reqs != [])
  }

  ghost predicate ListOk(posted: seq<Request>, list: seq<Request>, e: Endpoint) {
    DistinctIds(list) && forall q :: q in list ==> q.endpoint == e && q in posted
  }

  ghost predicate NoneDone(list: seq<Request>, completed: set<nat>) {
    forall q :: q in list ==> q.id !in completed
  }

  ghost predicate TodoOk(m: map<Endpoint, seq<Request>>, completed: set<nat>, todo: seq<Entry>) {
    && (forall i, j :: 0 <= i < j < |todo| ==> todo[i].endpoint != todo[j].endpoint)
    && (forall i :: 0 <= i < |todo| ==>
          todo[i].endpoint in m && todo[i].reqs <= Unfinished(m[todo[i].endpoint], completed))
  }

  /** No run begins before the last answer for its endpoint allows it. */
  ghost predicate RateSafe(log: seq<Event>) {
    forall j :: 0 <= j < |log| && log[j].Started? ==> StartAllowed(log[..j], log[j].req.endpoint, log[j].at)
  }

  ghost predicate StartAllowed(before: seq<Event>, e: Endpoint, at: nat) {
    var last := LastReply(before, e);
    last.Some? && last.value.reply.remaining < 1 ==> at > last.value.timestamp + WaitOf(last.value.reply)
  }

  function Hand(s: State): (r: seq<Request>) {
    if s.inHand.Some? then [s.inHand.value] else []
  }

  ghost predicate GlobalOk(s: State) {
    && DistinctIds(s.posted)
    && (forall id :: id in s.completed <==> exists q :: q in RunsOf(s.log) && q.id == id)
    && (forall q :: q in RunsOf(s.log) ==> q in s.posted)
    && RunsOf(s.log) == s.called + Hand(s) + s.responsesOut
    && RateSafe(s.log)
  }

  ghost predicate WorkerInv(s: State, w: nat)
    requires w < |s.workers|
  {
    WorkerOk(s.posted, s.completed, |s.workers|, w, s.workers[w])
  }

  ghost predicate EndpointInv(s: State, e: Endpoint)
    requires |s.workers| > 0
  {
    EndpointOk(s.posted, s.log, s.completed, s.workers[Route(e, |s.workers|)], e)
  }

  ghost predicate Inv(s: State) {
    && |s.workers| > 0
    && GlobalOk(s)
    && (forall w :: 0 <= w < |s.workers| ==> WorkerInv(s, w))
    && (forall e :: EndpointInv(s, e))
  }

  // ------------------------------------------------------------- list lemmas

  lemma ForAppend(rs: seq<Request>, r: Request, e: Endpoint)
    ensures For(rs + [r], e) == if r.endpoint == e then For(rs, e) + [r] else For(rs, e)
  {
    assert (rs + [r])[..|rs|] == rs;
  }

  lemma LogAppend(log: seq<Event>, ev: Event)
    ensures StartsOf(log + [ev]) == if ev.Started? then StartsOf(log) + [ev.req] else StartsOf(log)
    ensures RunsOf(log + [ev]) == if ev.Replied? then RunsOf(log) + [ev.req] else RunsOf(log)
    ensures forall e :: LastReply(log + [ev], e)
              == if ev.Replied? && ev.req.endpoint == e then Some(Bucket(ev.reply, ev.at)) else LastReply(log, e)
  {
    assert (log + [ev])[..|log|] == log;
  }

  lemma {:induction false} UnfinishedAppend(rs: seq<Request>, r: Request, completed: set<nat>)
    requires r.id !in completed
    ensures Unfinished(rs + [r], completed) == Unfinished(rs, completed) + [r]
  {
    if rs != [] {
      UnfinishedAppend(rs[1..], r, completed);
      assert (rs + [r])[1..] == rs[1..] + [r];
      var head := if rs[0].id in completed then [] else [rs[0]];
      ConcatAssoc(head, Unfinished(rs[1..], completed), [r]);
    } else {
      assert [r][1..] == [];
    }
  }

  /** Completing the first pending request takes it, and only it, off the front. */
  lemma {:induction false} UnfinishedComplete(rs: seq<Request>, r: Request, completed: set<nat>)
    requires DistinctIds(rs) && Unfinished(rs, completed) != [] && Unfinished(rs, completed)[0] == r
    ensures Unfinished(rs, completed + {r.id}) == Unfinished(rs, completed)[1..]
  {
    if rs[0].id in completed {
      assert forall i :: 0 <= i < |rs[1..]| ==> rs[1..][i] == rs[i + 1];
      UnfinishedComplete(rs[1..], r, completed);
    } else {
      assert rs[0] == r;
      forall q | q in rs[1..]
        ensures q.id != r.id
      {
        var i :| 0 <= i < |rs[1..]| && rs[1..][i] == q;
        assert rs[i + 1] == q;
      }
      UnfinishedOther(rs[1..], r, completed);
    }
  }

  lemma {:induction false} UnfinishedOther(rs: seq<Request>, r: Request, completed: set<nat>)
    requires forall q :: q in rs ==> q.id != r.id
    ensures Unfinished(rs, completed + {r.id}) == Unfinished(rs, completed)
  {
    if rs != [] {
      UnfinishedOther(rs[1..], r, completed);
    }
  }

  lemma {:induction false} UnfinishedTwice(rs: seq<Request>, completed: set<nat>)
    ensures Unfinished(Unfinished(rs, completed), completed) == Unfinished(rs, completed)
  {
    NothingToErase(Unfinished(rs, completed), completed);
  }

  lemma {:induction false} UnfinishedDistinct(rs: seq<Request>, completed: set<nat>)
    requires DistinctIds(rs)
    ensures DistinctIds(Unfinished(rs, completed))
  {
    if rs != [] {
      assert forall i :: 0 <= i < |rs[1..]| ==> rs[1..][i] == rs[i + 1];
      UnfinishedDistinct(rs[1..], completed);
      var t := Unfinished(rs[1..], completed);
      forall i | 0 <= i < |t|
        ensures t[i].id != rs[0].id
      {
        assert t[i] in rs[1..];
      }
    }
  }

  lemma SamePosted(posted: seq<Request>, a: Request, b: Request)
    requires DistinctIds(posted) && a in posted && b in posted && a.id == b.id
    ensures a == b
  {
    var i :| 0 <= i < |posted| && posted[i] == a;
    var j :| 0 <= j < |posted| && posted[j] == b;
  }

  // ------------------------------------------------------------------- initially

  lemma InitInv(pool: nat)
    requires pool > 0
    ensures Inv(Init(pool))
  {
  }

  // ------------------------------------- steps of the callback thread and the clock

  lemma OutStep(s: State, step: Step)
    requires Inv(s) && Enabled(s, step) && (step.Pop? || step.Callback? || step.Tick?)
    ensures Inv(Apply(s, step))
  {
    hide WorkerOk, EndpointOk, GlobalOk;
    var s' := Apply(s, step);
    OutGlobal(s, step);
    forall w | 0 <= w < |s.workers|
      ensures WorkerInv(s', w)
    {
      assert WorkerInv(s, w);
    }
    forall e
      ensures EndpointInv(s', e)
    {
      assert EndpointInv(s, e);
    }
  }

  lemma OutGlobal(s: State, step: Step)
    requires GlobalOk(s) && Enabled(s, step) && (step.Pop? || step.Callback? || step.Tick?)
    ensures GlobalOk(Apply(s, step))
  {
    hide RateSafe, DistinctIds, RunsOf;
    if step.Callback? {
      assert s.inHand.value in s.called + Hand(s) + s.responsesOut;
    } else if step.Pop? {
      assert s.responsesOut == [s.responsesOut[0]] + s.responsesOut[1..];
    }
  }

  // ------------------------------------------------ steps that change one worker

  /** Worker `w` became `k`; nothing else that the invariant speaks of changed. */
  lemma ReplaceWorker(s: State, w: nat, k: Worker)
    requires Inv(s) && w < |s.workers|
    requires WorkerOk(s.posted, s.completed, |s.workers|, w, k)
    requires forall e :: Route(e, |s.workers|) == w && EndpointOk(s.posted, s.log, s.completed, s.workers[w], e) ==>
               EndpointOk(s.posted, s.log, s.completed, k, e)
    ensures Inv(SetWorker(s, w, k))
  {
    hide WorkerOk, EndpointOk, RateSafe, DistinctIds;
    var s' := SetWorker(s, w, k);
    assert GlobalOk(s');
    forall v | 0 <= v < |s'.workers|
      ensures WorkerInv(s', v)
    {
      assert WorkerInv(s, v);
    }
    forall e
      ensures EndpointInv(s', e)
    {
      assert EndpointInv(s, e);
    }
  }

  /** Steps that move only the worker's place in its copy. */
  lemma WalkStep(s: State, step: Step)
    requires Inv(s) && Enabled(s, step) && (step.Snapshot? || step.NextBucket? || step.Break?)
    ensures Inv(Apply(s, step))
  {
    hide Inv, Unfinished, RunsOf, StartsOf, LastReply;
    var w := step.w;
    var k := s.workers[w];
    var todo := if step.Snapshot? then step.todo else k.phase.todo[1..];
    assert WorkerInv(s, w) by { WorkerOfInv(s, w); }
    if step.Snapshot? {
      SnapshotTodo(k.requestsIn, s.completed, todo);
    }
    var k' := k.(phase := Walking(todo));
    ReplaceWorker(s, w, k');
  }

  lemma WorkerOfInv(s: State, w: nat)
    requires Inv(s) && w < |s.workers|
    ensures WorkerInv(s, w)
  {
  }

  lemma SnapshotTodo(m: map<Endpoint, seq<Request>>, completed: set<nat>, todo: seq<Entry>)
    requires Lists(todo, m) && forall e :: e in m ==> NoneDone(m[e], completed)
    ensures TodoOk(m, completed, todo)
  {
    forall i | 0 <= i < |todo|
      ensures todo[i].reqs <= Unfinished(m[todo[i].endpoint], completed)
    {
      assert NoneDone(m[todo[i].endpoint], completed);
      NothingToErase(todo[i].reqs, completed);
    }
  }

  lemma CleanupStep(s: State, w: nat)
    requires Inv(s) && Enabled(s, Cleanup(w))
    ensures Inv(Apply(s, Cleanup(w)))
  {
    hide Inv, WorkerOk, EndpointOk;
    var k := s.workers[w];
    assert WorkerInv(s, w) by { WorkerOfInv(s, w); }
    var k' := Cleaned(k, s.completed);
    CleanWorker(s.posted, s.completed, |s.workers|, w, k);
    forall e | EndpointOk(s.posted, s.log, s.completed, k, e)
      ensures EndpointOk(s.posted, s.log, s.completed, k', e)
    {
      CleanEndpoint(s.posted, s.log, s.completed, k, e);
    }
    ReplaceWorker(s, w, k');
  }

  lemma CleanWorker(posted: seq<Request>, completed: set<nat>, pool: nat, w: nat, k: Worker)
    requires pool > 0 && WorkerOk(posted, completed, pool, w, k)
    ensures WorkerOk(posted, completed, pool, w, Cleaned(k, completed))
  {
    hide Route;
    var k' := Cleaned(k, completed);
    forall e | e in k'.requestsIn
      ensures ListOk(posted, k'.requestsIn[e], e) && NoneDone(k'.requestsIn[e], completed)
    {
      assert ListOk(posted, k.requestsIn[e], e);
      UnfinishedDistinct(k.requestsIn[e], completed);
    }
  }

  lemma CleanEndpoint(posted: seq<Request>, log: seq<Event>, completed: set<nat>, k: Worker, e: Endpoint)
    requires EndpointOk(posted, log, completed, k, e) && !k.phase.Running?
    ensures EndpointOk(posted, log, completed, Cleaned(k, completed), e)
  {
    hide RunsOf, StartsOf, LastReply, For;
    UnfinishedTwice(QueueAt(k, e), completed);
  }

  // ------------------------------------------------------------------------ post

  lemma PostStep(s: State, req: Request)
    requires Inv(s) && Enabled(s, Post(req))
    ensures Inv(Apply(s, Post(req)))
  {
    hide WorkerOk, EndpointOk, RateSafe;
    var s' := Apply(s, Post(req));
    var r := Route(req.endpoint, |s.workers|);
    assert req.id !in s.completed;
    assert GlobalOk(s');
    forall w | 0 <= w < |s'.workers|
      ensures WorkerInv(s', w)
    {
      assert WorkerInv(s, w);
      PostOther(s.posted, req, s.completed, |s.workers|, w, s.workers[w]);
      if w == r {
        PostOwner(s.posted, req, s.completed, |s.workers|, w, s.workers[w]);
      }
    }
    forall e
      ensures EndpointInv(s', e)
    {
      assert EndpointInv(s, e);
      PostEndpoint(s.posted, req, s.log, s.completed, s.workers[Route(e, |s.workers|)], e);
    }
  }

  lemma PostOther(posted: seq<Request>, req: Request, completed: set<nat>, pool: nat, w: nat, k: Worker)
    requires pool > 0 && WorkerOk(posted, completed, pool, w, k)
    ensures WorkerOk(posted + [req], completed, pool, w, k)
  {
    hide TodoOk, NoneDone, DistinctIds;
    forall e | e in k.requestsIn
      ensures ListOk(posted + [req], k.requestsIn[e], e)
    {
      assert ListOk(posted, k.requestsIn[e], e);
    }
  }

  lemma PostOwner(posted: seq<Request>, req: Request, completed: set<nat>, pool: nat, w: nat, k: Worker)
    requires pool > 0 && WorkerOk(posted, completed, pool, w, k) && Route(req.endpoint, pool) == w
    requires req.id !in completed && forall q :: q in posted ==> q.id != req.id
    ensures WorkerOk(posted + [req], completed, pool, w, Posted(k, req))
  {
    hide Route, Unfinished;
    var k' := Posted(k, req);
    var list := QueueAt(k, req.endpoint);
    UnfinishedAppend(list, req, completed);
    assert ListOk(posted, list, req.endpoint);
    assert ListOk(posted + [req], list + [req], req.endpoint) by {
      forall i | 0 <= i < |list|
        ensures list[i].id != req.id
      {
        assert list[i] in posted;
      }
    }
    forall e | e in k'.requestsIn
      ensures ListOk(posted + [req], k'.requestsIn[e], e)
    {
      if e != req.endpoint {
        assert ListOk(posted, k.requestsIn[e], e);
      }
    }
    if !k.phase.Idle? {
      var todo := k.phase.todo;
      forall i | 0 <= i < |todo|
        ensures todo[i].reqs <= Unfinished(k'.requestsIn[todo[i].endpoint], completed)
      {
      }
    }
  }

  lemma PostEndpoint(posted: seq<Request>, req: Request, log: seq<Event>, completed: set<nat>, k: Worker, e: Endpoint)
    requires EndpointOk(posted, log, completed, k, e) && req.id !in completed
    ensures req.endpoint != e ==> EndpointOk(posted + [req], log, completed, k, e)
    ensures EndpointOk(posted + [req], log, completed, Posted(k, req), e)
  {
    hide Unfinished, For, RunsOf, StartsOf, LastReply;
    ForAppend(posted, req, e);
    if e == req.endpoint {
      UnfinishedAppend(QueueAt(k, e), req, completed);
      ConcatAssoc(For(RunsOf(log), e), Unfinished(QueueAt(k, e), completed), [req]);
    }
  }

  // ------------------------------------------------------------------------ send

  lemma SendStep(s: State, w: nat)
    requires Inv(s) && Enabled(s, Send(w))
    ensures Inv(Apply(s, Send(w)))
  {
    hide WorkerOk, EndpointOk, RateSafe, DistinctIds, MaySend, StartsOf, RunsOf, LastReply, StartAllowed;
    var s' := Apply(s, Send(w));
    var k := s.workers[w];
    var req := k.phase.todo[0].reqs[0];
    var ev := Started(req, s.now);
    LogAppend(s.log, ev);
    assert WorkerInv(s, w);
    FrontOfTodo(s.posted, s.completed, |s.workers|, w, k);
    assert EndpointInv(s, req.endpoint);
    SendAllowed(s.posted, s.log, s.completed, k, req.endpoint, s.now);
    LogSafe(s.log, ev);
    assert GlobalOk(s');
    SendWorker(s.posted, s.completed, |s.workers|, w, k);
    forall v | 0 <= v < |s'.workers|
      ensures WorkerInv(s', v)
    {
      assert WorkerInv(s, v);
    }
    forall e
      ensures EndpointInv(s', e)
    {
      assert EndpointInv(s, e);
      SendEndpoint(s.posted, s.log, s.completed, s.workers[Route(e, |s.workers|)], req, s.now, e);
    }
  }

  /** The request a worker turns to next: routed here, posted, not yet run, first in line. */
  lemma FrontOfTodo(posted: seq<Request>, completed: set<nat>, pool: nat, w: nat, k: Worker)
    requires pool > 0 && WorkerOk(posted, completed, pool, w, k)
    requires !k.phase.Idle? && k.phase.todo != [] && k.phase.todo[0].reqs != []
    ensures var e, req := k.phase.todo[0].endpoint, k.phase.todo[0].reqs[0];
            && req.endpoint == e && e in k.requestsIn && Route(e, pool) == w
            && req in posted && req.id !in completed
            && Unfinished(k.requestsIn[e], completed) != [] && Unfinished(k.requestsIn[e], completed)[0] == req
  {
    var e, req := k.phase.todo[0].endpoint, k.phase.todo[0].reqs[0];
    assert ListOk(posted, k.requestsIn[e], e);
    assert req in Unfinished(k.requestsIn[e], completed);
  }

  lemma SendAllowed(posted: seq<Request>, log: seq<Event>, completed: set<nat>, k: Worker, e: Endpoint, now: nat)
    requires EndpointOk(posted, log, completed, k, e) && MaySend(k.buckets, e, now)
    ensures StartAllowed(log, e, now)
  {
    hide Unfinished, For, RunsOf, StartsOf, LastReply;
  }

  lemma SendWorker(posted: seq<Request>, completed: set<nat>, pool: nat, w: nat, k: Worker)
    requires pool > 0 && WorkerOk(posted, completed, pool, w, k)
    requires k.phase.Walking? && k.phase.todo != [] && k.phase.todo[0].reqs != []
    ensures WorkerOk(posted, completed, pool, w, k.(phase := Running(k.phase.todo)))
  {
    hide ListOk, TodoOk;
  }

  lemma SendEndpoint(posted: seq<Request>, log: seq<Event>, completed: set<nat>, k: Worker, req: Request, now: nat,
                     e: Endpoint)
    requires EndpointOk(posted, log, completed, k, e)
    ensures req.endpoint != e ==> EndpointOk(posted, log + [Started(req, now)], completed, k, e)
    ensures k.phase.Walking? && k.phase.todo != [] && k.phase.todo[0].reqs != []
            && k.phase.todo[0].endpoint == req.endpoint && k.phase.todo[0].reqs[0] == req ==>
              EndpointOk(posted, log + [Started(req, now)], completed, k.(phase := Running(k.phase.todo)), e)
  {
    hide Unfinished, For, RunsOf, StartsOf, LastReply;
    LogAppend(log, Started(req, now));
    ForAppend(StartsOf(log), req, e);
  }

  lemma LogSafe(log: seq<Event>, ev: Event)
    requires RateSafe(log) && (ev.Started? ==> StartAllowed(log, ev.req.endpoint, ev.at))
    ensures RateSafe(log + [ev])
  {
    hide StartAllowed;
    var log' := log + [ev];
    forall j | 0 <= j < |log'| && log'[j].Started?
      ensures StartAllowed(log'[..j], log'[j].req.endpoint, log'[j].at)
    {
      assert log'[..j] == log[..j];
      assert log[..|log|] == log;
    }
  }

  // ---------------------------------------------------------------------- answer

  lemma AnswerStep(s: State, w: nat, reply: Reply)
    requires Inv(s) && Enabled(s, Answer(w, reply))
    ensures Inv(Apply(s, Answer(w, reply)))
  {
    hide WorkerOk, EndpointOk, RateSafe, DistinctIds;
    var s' := Apply(s, Answer(w, reply));
    var k := s.workers[w];
    var req := k.phase.todo[0].reqs[0];
    var ev := Replied(req, s.now, reply);
    assert WorkerInv(s, w);
    FrontOfTodo(s.posted, s.completed, |s.workers|, w, k);
    LogAppend(s.log, ev);
    LogSafe(s.log, ev);
    AnswerGlobal(s, s', req);
    forall v | 0 <= v < |s'.workers|
      ensures WorkerInv(s', v)
    {
      assert WorkerInv(s, v);
      if v == w {
        AnswerOwner(s.posted, s.completed, |s.workers|, w, k, Bucket(reply, s.now));
      } else {
        AnswerOther(s.posted, s.completed, |s.workers|, v, s.workers[v], req);
      }
    }
    forall e
      ensures EndpointInv(s', e)
    {
      assert EndpointInv(s, e);
      var v := Route(e, |s.workers|);
      assert WorkerInv(s, v);
      if e == req.endpoint {
        AnswerEndpoint(s.posted, s.log, s.completed, |s.workers|, w, k, s.now, reply);
      } else {
        QueueOther(s.posted, s.completed, |s.workers|, v, s.workers[v], e, req);
        AnswerOtherEndpoint(s.posted, s.log, s.completed, s.workers[v], req, s.now, reply, e);
      }
    }
  }

  lemma AnswerGlobal(s: State, s': State, req: Request)
    requires GlobalOk(s) && req in s.posted
    requires s'.posted == s.posted && s'.called == s.called && s'.inHand == s.inHand
    requires s'.completed == s.completed + {req.id} && s'.responsesOut == s.responsesOut + [req]
    requires RunsOf(s'.log) == RunsOf(s.log) + [req] && RateSafe(s'.log)
    ensures GlobalOk(s')
  {
    hide RateSafe, RunsOf, DistinctIds;
    ConcatAssoc(s.called + Hand(s), s.responsesOut, [req]);
    var runs, runs' := RunsOf(s.log), RunsOf(s'.log);
    assert forall q :: q in runs' <==> q in runs || q == req;
    forall id
      ensures id in s'.completed <==> exists q :: q in runs' && q.id == id
    {
      if id == req.id { assert req in runs'; }
      if id in s.completed {
        var q :| q in runs && q.id == id;
        assert q in runs';
      }
    }
  }

  /** A posted request is in no other endpoint's list. */
  lemma QueueOther(posted: seq<Request>, completed: set<nat>, pool: nat, w: nat, k: Worker, e: Endpoint, req: Request)
    requires pool > 0 && WorkerOk(posted, completed, pool, w, k)
    requires DistinctIds(posted) && req in posted && req.endpoint != e
    ensures forall q :: q in QueueAt(k, e) ==> q.id != req.id
    ensures Unfinished(QueueAt(k, e), completed + {req.id}) == Unfinished(QueueAt(k, e), completed)
  {
    hide Unfinished, TodoOk, DistinctIds;
    forall q | q in QueueAt(k, e)
      ensures q.id != req.id
    {
      assert ListOk(posted, k.requestsIn[e], e);
      if q.id == req.id { SamePosted(posted, q, req); }
    }
    UnfinishedOther(QueueAt(k, e), req, completed);
  }

  lemma AnswerOther(posted: seq<Request>, completed: set<nat>, pool: nat, w: nat, k: Worker, req: Request)
    requires pool > 0 && WorkerOk(posted, completed, pool, w, k)
    requires DistinctIds(posted) && req in posted && Route(req.endpoint, pool) != w
    ensures WorkerOk(posted, completed + {req.id}, pool, w, k)
  {
    hide Unfinished, ListOk, DistinctIds;
    forall e | e in k.requestsIn
      ensures Unfinished(k.requestsIn[e], completed + {req.id}) == Unfinished(k.requestsIn[e], completed)
      ensures NoneDone(k.requestsIn[e], completed) ==> NoneDone(k.requestsIn[e], completed + {req.id})
    {
      QueueOther(posted, completed, pool, w, k, e, req);
      assert k.requestsIn[e] == QueueAt(k, e);
    }
  }

  lemma AnswerOwner(posted: seq<Request>, completed: set<nat>, pool: nat, w: nat, k: Worker, b: Bucket)
    requires pool > 0 && WorkerOk(posted, completed, pool, w, k) && DistinctIds(posted) && k.phase.Running?
    ensures WorkerOk(posted, completed + {k.phase.todo[0].reqs[0].id}, pool, w, Answered(k, b))
  {
    hide Unfinished, DistinctIds;
    FrontOfTodo(posted, completed, pool, w, k);
    var todo, req := k.phase.todo, k.phase.todo[0].reqs[0];
    var todo' := Answered(k, b).phase.todo;
    assert ListOk(posted, k.requestsIn[req.endpoint], req.endpoint);
    UnfinishedComplete(k.requestsIn[req.endpoint], req, completed);
    forall i | 0 <= i < |todo'|
      ensures todo'[i].reqs <= Unfinished(k.requestsIn[todo'[i].endpoint], completed + {req.id})
    {
      assert todo[i].reqs <= Unfinished(k.requestsIn[todo[i].endpoint], completed);
      if i > 0 {
        assert todo[0].endpoint != todo[i].endpoint;
        QueueOther(posted, completed, pool, w, k, todo[i].endpoint, req);
      }
    }
  }

  lemma AnswerEndpoint(posted: seq<Request>, log: seq<Event>, completed: set<nat>, pool: nat, w: nat, k: Worker,
                       now: nat, reply: Reply)
    requires pool > 0 && WorkerOk(posted, completed, pool, w, k) && k.phase.Running?
    requires EndpointOk(posted, log, completed, k, k.phase.todo[0].endpoint)
    ensures var req := k.phase.todo[0].reqs[0];
            EndpointOk(posted, log + [Replied(req, now, reply)], completed + {req.id},
                       Answered(k, Bucket(reply, now)), req.endpoint)
  {
    hide Unfinished, For, RunsOf, StartsOf, LastReply, TodoOk;
    FrontOfTodo(posted, completed, pool, w, k);
    var req := k.phase.todo[0].reqs[0];
    var e := req.endpoint;
    assert ListOk(posted, k.requestsIn[e], e);
    LogAppend(log, Replied(req, now, reply));
    ForAppend(RunsOf(log), req, e);
    UnfinishedComplete(k.requestsIn[e], req, completed);
    var pending := Unfinished(k.requestsIn[e], completed);
    assert pending == [req] + pending[1..];
    ConcatAssoc(For(RunsOf(log), e), [req], pending[1..]);
  }

  lemma AnswerOtherEndpoint(posted: seq<Request>, log: seq<Event>, completed: set<nat>, k: Worker,
                            req: Request, now: nat, reply: Reply, e: Endpoint)
    requires EndpointOk(posted, log, completed, k, e) && req.endpoint != e
    requires Unfinished(QueueAt(k, e), completed + {req.id}) == Unfinished(QueueAt(k, e), completed)
    ensures var ev := Replied(req, now, reply);
            && EndpointOk(posted, log + [ev], completed + {req.id}, k, e)
            && (k.phase.Running? && k.phase.todo != [] && k.phase.todo[0].reqs != []
                && k.phase.todo[0].endpoint == req.endpoint && k.phase.todo[0].reqs[0] == req ==>
                  EndpointOk(posted, log + [ev], completed + {req.id}, Answered(k, Bucket(reply, now)), e))
  {
    hide Unfinished, For, RunsOf, StartsOf, LastReply;
    LogAppend(log, Replied(req, now, reply));
    ForAppend(RunsOf(log), req, e);
  }

  // ------------------------------------------------------------------- whole runs

  /** Every step of every thread keeps the invariant. */
  lemma StepKeepsInv(s: State, step: Step)
    requires Inv(s) && Enabled(s, step)
    ensures Inv(Apply(s, step))
  {
    hide Inv, Enabled, Apply;
    match step
    case Post(req) => PostStep(s, req);
    case Send(w) => SendStep(s, w);
    case Answer(w, reply) => AnswerStep(s, w, reply);
    case Cleanup(w) => CleanupStep(s, w);
    case Pop => OutStep(s, step);
    case Callback => OutStep(s, step);
    case Tick => OutStep(s, step);
    case _ => WalkStep(s, step);
  }

  lemma {:induction false} RunKeepsInv(trace: seq<State>, pool: nat, i: nat)
    requires pool > 0 && IsRun(trace, pool) && i < |trace|
    ensures Inv(trace[i])
  {
    hide Inv, Enabled, Apply;
    if i == 0 {
      InitInv(pool);
    } else {
      RunKeepsInv(trace, pool, i - 1);
      assert Next(trace[i - 1], trace[i - 1 + 1]);
      var step :| Enabled(trace[i - 1], step) && Apply(trace[i - 1], step) == trace[i];
      StepKeepsInv(trace[i - 1], step);
    }
  }

  // -------------------------------------------------------------------- theorems

  /** Order: on each endpoint the callbacks made are an initial part of the runs ended, those of the
      runs begun, and those of the posts. */
  lemma PostingOrder(trace: seq<State>, pool: nat, i: nat, e: Endpoint)
    requires pool > 0 && IsRun(trace, pool) && i < |trace|
    ensures For(trace[i].called, e) <= For(RunsOf(trace[i].log), e)
    ensures For(RunsOf(trace[i].log), e) <= For(StartsOf(trace[i].log), e)
    ensures For(StartsOf(trace[i].log), e) <= For(trace[i].posted, e)
  {
    hide IsRun, For, RunsOf, StartsOf, RateSafe, WorkerOk, EndpointOk;
    RunKeepsInv(trace, pool, i);
    var s := trace[i];
    assert EndpointInv(s, e);
    ForConcat(s.called, Hand(s) + s.responsesOut, e);
    ConcatAssoc(s.called, Hand(s), s.responsesOut);
    var w := Route(e, |s.workers|);
    assert WorkerInv(s, w);
    StartsPrefix(s.posted, s.log, s.completed, |s.workers|, w, s.workers[w], e);
  }

  lemma StartsPrefix(posted: seq<Request>, log: seq<Event>, completed: set<nat>, pool: nat, w: nat, k: Worker,
                     e: Endpoint)
    requires pool > 0 && WorkerOk(posted, completed, pool, w, k) && EndpointOk(posted, log, completed, k, e)
    ensures For(RunsOf(log), e) <= For(StartsOf(log), e) <= For(posted, e)
  {
    hide For, RunsOf, StartsOf, LastReply, Unfinished, WorkerOk;
    var runs, pending := For(RunsOf(log), e), Unfinished(QueueAt(k, e), completed);
    if InFlightAt(k, e) != [] {
      FrontOfTodo(posted, completed, pool, w, k);
      PrefixOfFirst(runs, pending);
    }
  }

  lemma PrefixOfFirst(a: seq<Request>, b: seq<Request>)
    requires b != []
    ensures a + [b[0]] <= a + b
  {
  }

  lemma {:induction false} ForConcat(a: seq<Request>, b: seq<Request>, e: Endpoint)
    ensures For(a + b, e) == For(a, e) + For(b, e)
  {
    if b == [] {
      assert a + b == a;
    } else {
      var last := b[|b| - 1];
      assert (a + b)[..|a + b| - 1] == a + b[..|b| - 1];
      ForConcat(a, b[..|b| - 1], e);
    }
  }

  /** Conservation: a posted request either has been run, once, or stands in the list of its
      endpoint's worker, and what has been run is called back, in the callback thread's hand, or in
      the response queue. */
  lemma NothingLost(trace: seq<State>, pool: nat, i: nat, r: Request)
    requires pool > 0 && IsRun(trace, pool) && i < |trace|
    ensures var s := trace[i];
            && r in s.posted ==>
                 (r in RunsOf(s.log) <==> r.id in s.completed)
                 && (r !in RunsOf(s.log) ==>
                       |s.workers| > 0 && r in QueueAt(s.workers[Route(r.endpoint, |s.workers|)], r.endpoint))
    ensures RunsOf(trace[i].log) == trace[i].called + Hand(trace[i]) + trace[i].responsesOut
  {
    hide IsRun;
    RunKeepsInv(trace, pool, i);
    var s := trace[i];
    if r in s.posted {
      var e := r.endpoint;
      assert EndpointInv(s, e);
      ForMembers(s.posted, e);
      ForMembers(RunsOf(s.log), e);
      assert r in For(s.posted, e);
      if r.id in s.completed {
        var q :| q in RunsOf(s.log) && q.id == r.id;
        SamePosted(s.posted, q, r);
      }
    }
  }

  lemma {:induction false} ForMembers(rs: seq<Request>, e: Endpoint)
    ensures forall q :: q in For(rs, e) <==> q in rs && q.endpoint == e
  {
    if rs != [] {
      ForMembers(rs[..|rs| - 1], e);
      assert rs == rs[..|rs| - 1] + [rs[|rs| - 1]];
    }
  }

  /** No request is begun, run or called back twice. */
  lemma NothingTwice(trace: seq<State>, pool: nat, i: nat, e: Endpoint)
    requires pool > 0 && IsRun(trace, pool) && i < |trace|
    ensures DistinctIds(For(StartsOf(trace[i].log), e))
    ensures DistinctIds(For(RunsOf(trace[i].log), e))
    ensures DistinctIds(For(trace[i].called, e))
  {
    hide IsRun, StartsOf, RunsOf;
    PostingOrder(trace, pool, i, e);
    RunKeepsInv(trace, pool, i);
    ForDistinct(trace[i].posted, e);
    var posted := For(trace[i].posted, e);
    PrefixDistinct(For(StartsOf(trace[i].log), e), posted);
    PrefixDistinct(For(RunsOf(trace[i].log), e), For(StartsOf(trace[i].log), e));
    PrefixDistinct(For(trace[i].called, e), For(RunsOf(trace[i].log), e));
  }

  lemma PrefixDistinct(a: seq<Request>, b: seq<Request>)
    requires a <= b && DistinctIds(b)
    ensures DistinctIds(a)
  {
  }

  lemma {:induction false} ForDistinct(rs: seq<Request>, e: Endpoint)
    requires DistinctIds(rs)
    ensures DistinctIds(For(rs, e))
  {
    if rs != [] {
      var front, last := rs[..|rs| - 1], rs[|rs| - 1];
      ForDistinct(front, e);
      ForMembers(front, e);
      forall i | 0 <= i < |For(front, e)|
        ensures For(front, e)[i].id != last.id
      {
        assert For(front, e)[i] in front;
      }
    }
  }

  /** Rate limits: between an answer that leaves no budget and the next send to its endpoint, more
      than the announced wait passes. */
  lemma RateLimitRespected(trace: seq<State>, pool: nat, i: nat, a: nat, b: nat)
    requires pool > 0 && IsRun(trace, pool) && i < |trace|
    requires a < b < |trace[i].log| && trace[i].log[a].Replied? && trace[i].log[b].Started?
    requires trace[i].log[a].req.endpoint == trace[i].log[b].req.endpoint
    requires trace[i].log[a].reply.remaining < 1
    requires forall j :: a < j < b && trace[i].log[j].Replied? ==>
               trace[i].log[j].req.endpoint != trace[i].log[b].req.endpoint
    ensures var last := trace[i].log[a];
            && (last.reply.retryAfter != 0 ==> trace[i].log[b].at > last.at + last.reply.retryAfter)
            && (last.reply.retryAfter == 0 ==> trace[i].log[b].at > last.at + last.reply.resetAfter)
  {
    hide IsRun;
    RunKeepsInv(trace, pool, i);
    var log := trace[i].log;
    LastReplyIs(log[..b], a, log[b].req.endpoint);
    assert StartAllowed(log[..b], log[b].req.endpoint, log[b].at);
  }

  lemma {:induction false} LastReplyIs(log: seq<Event>, a: nat, e: Endpoint)
    requires a < |log| && log[a].Replied? && log[a].req.endpoint == e
    requires forall j :: a < j < |log| && log[j].Replied? ==> log[j].req.endpoint != e
    ensures LastReply(log, e) == Some(Bucket(log[a].reply, log[a].at))
  {
    if a < |log| - 1 {
      LastReplyIs(log[..|log| - 1], a, e);
    }
  }

  /** A worker with a request at the head of its line sends it, and does not skip it, exactly when the
      endpoint was never answered, or its last answer left budget, or the wait that answer asked for
      is over. `a` is the place of the last answer in the log, if any. */
  lemma SendsExactlyWhenAllowed(trace: seq<State>, pool: nat, i: nat, w: nat, a: int)
    requires pool > 0 && IsRun(trace, pool) && i < |trace|
    requires Walks(trace[i], w) && trace[i].workers[w].phase.todo[0].reqs != []
    requires LastAnswerAt(trace[i].log, trace[i].workers[w].phase.todo[0].endpoint, a)
    ensures Enabled(trace[i], Send(w)) <==>
            || a < 0
            || trace[i].log[a].reply.remaining >= 1
            || (if trace[i].log[a].reply.retryAfter != 0
                then trace[i].now > trace[i].log[a].at + trace[i].log[a].reply.retryAfter
                else trace[i].now > trace[i].log[a].at + trace[i].log[a].reply.resetAfter)
    ensures Enabled(trace[i], Break(w)) <==> !Enabled(trace[i], Send(w))
  {
    hide IsRun, RateSafe, GlobalOk, Unfinished, For, RunsOf, StartsOf;
    var s := trace[i];
    var e := s.workers[w].phase.todo[0].endpoint;
    RunKeepsInv(trace, pool, i);
    assert WorkerInv(s, w);
    FrontOfTodo(s.posted, s.completed, |s.workers|, w, s.workers[w]);
    assert EndpointInv(s, e);
    if a >= 0 {
      LastReplyIs(s.log, a, e);
    } else {
      NoReplyYet(s.log, e);
    }
  }

  /** The last answer for `e` stands at `a` in the log; below 0, there is none. */
  ghost predicate LastAnswerAt(log: seq<Event>, e: Endpoint, a: int) {
    && a < |log|
    && (a >= 0 ==> log[a].Replied? && log[a].req.endpoint == e)
    && forall j :: 0 <= j < |log| && j > a && log[j].Replied? ==> log[j].req.endpoint != e
  }

  lemma {:induction false} NoReplyYet(log: seq<Event>, e: Endpoint)
    requires forall j :: 0 <= j < |log| && log[j].Replied? ==> log[j].req.endpoint != e
    ensures LastReply(log, e) == None
  {
    if log != [] {
      NoReplyYet(log[..|log| - 1], e);
    }
  }

  /** What endpoint `e` still waits for. */
  ghost function Pending(s: State, e: Endpoint): (r: seq<Request>)
    requires |s.workers| > 0
  {
    Unfinished(QueueAt(s.workers[Route(e, |s.workers|)], e), s.completed)
  }

  lemma {:induction false} HistoryGrows(trace: seq<State>, pool: nat, i: nat, j: nat)
    requires IsRun(trace, pool) && i <= j < |trace|
    ensures trace[i].posted <= trace[j].posted && trace[i].log <= trace[j].log
    decreases j
  {
    hide Enabled, Apply;
    if i < j {
      HistoryGrows(trace, pool, i, j - 1);
      assert Next(trace[j - 1], trace[j - 1 + 1]);
      var step :| Enabled(trace[j - 1], step) && Apply(trace[j - 1], step) == trace[j];
      StepGrows(trace[j - 1], step);
    }
  }

  lemma StepGrows(s: State, step: Step)
    requires Enabled(s, step)
    ensures s.posted <= Apply(s, step).posted && s.log <= Apply(s, step).log
  {
    hide Posted, Answered, Cleaned, MaySend, Lists;
  }

  lemma ForPrefix(a: seq<Request>, b: seq<Request>, e: Endpoint)
    requires a <= b
    ensures For(a, e) <= For(b, e)
  {
    ForConcat(a, b[|a|..], e);
    assert b == a + b[|a|..];
  }

  lemma {:induction false} RunsPrefix(a: seq<Event>, b: seq<Event>)
    requires a <= b
    ensures RunsOf(a) <= RunsOf(b) && StartsOf(a) <= StartsOf(b)
    decreases b
  {
    if a != b {
      RunsPrefix(a, b[..|b| - 1]);
    }
  }

  /** The pending requests are what follows the runs among the posts. */
  lemma PendingSplit(trace: seq<State>, pool: nat, i: nat, e: Endpoint)
    requires pool > 0 && IsRun(trace, pool) && i < |trace|
    ensures |trace[i].workers| > 0
    ensures For(trace[i].posted, e) == For(RunsOf(trace[i].log), e) + Pending(trace[i], e)
  {
    hide IsRun, For, RunsOf, StartsOf, Unfinished, Route, GlobalOk, WorkerOk;
    RunKeepsInv(trace, pool, i);
    assert EndpointInv(trace[i], e);
  }

  /** Before a break no run of its endpoint is under way, and the request skipped heads its line. */
  lemma BreakAtFront(s: State, w: nat, e: Endpoint)
    requires Inv(s) && Enabled(s, Break(w)) && e == s.workers[w].phase.todo[0].endpoint
    ensures For(StartsOf(s.log), e) == For(RunsOf(s.log), e)
    ensures Pending(s, e) != [] && Pending(s, e)[0] == s.workers[w].phase.todo[0].reqs[0]
  {
    hide For, RunsOf, StartsOf, Unfinished, GlobalOk, MaySend, LastReply;
    assert WorkerInv(s, w);
    FrontOfTodo(s.posted, s.completed, |s.workers|, w, s.workers[w]);
    assert EndpointInv(s, e);
  }

  /** Skipping a limited bucket loses nothing: until the next send to its endpoint, the requests
      pending at the break stay in line, in order and ahead of all later posts, and the request sent
      then is the one that was skipped. */
  lemma SkippedGoesNext(trace: seq<State>, pool: nat, i: nat, w: nat, e: Endpoint, j: nat, r: Request, at: nat)
    requires pool > 0 && IsRun(trace, pool) && i <= j < |trace|
    requires Enabled(trace[i], Break(w)) && e == trace[i].workers[w].phase.todo[0].endpoint
    requires For(StartsOf(trace[j].log), e) == For(StartsOf(trace[i].log), e)
    ensures |trace[i].workers| > 0 && |trace[j].workers| > 0
    ensures Pending(trace[i], e) <= Pending(trace[j], e)
    ensures j + 1 < |trace| && trace[j + 1].log == trace[j].log + [Started(r, at)] && r.endpoint == e ==>
              r == trace[i].workers[w].phase.todo[0].reqs[0]
  {
    hide Enabled, For, RunsOf, StartsOf, Pending, Inv;
    var a, b := trace[i], trace[j];
    RunKeepsInv(trace, pool, i);
    BreakAtFront(a, w, e);
    PendingSplit(trace, pool, i, e);
    PendingSplit(trace, pool, j, e);
    HistoryGrows(trace, pool, i, j);
    ForPrefix(a.posted, b.posted, e);
    RunsPrefix(a.log, b.log);
    ForPrefix(RunsOf(a.log), RunsOf(b.log), e);
    PostingOrder(trace, pool, j, e);
    assert For(RunsOf(b.log), e) == For(RunsOf(a.log), e);
    PrefixTail(For(RunsOf(a.log), e), Pending(a, e), Pending(b, e));
    if j + 1 < |trace| && trace[j + 1].log == b.log + [Started(r, at)] && r.endpoint == e {
      SentIsFront(trace, pool, j, e, r, at);
    }
  }

  lemma PrefixTail(front: seq<Request>, a: seq<Request>, b: seq<Request>)
    requires front + a <= front + b
    ensures a <= b
  {
    assert (front + a)[|front|..] == a;
    assert (front + b)[|front|..] == b;
  }

  /** What is sent heads the line. */
  lemma SentIsFront(trace: seq<State>, pool: nat, j: nat, e: Endpoint, r: Request, at: nat)
    requires pool > 0 && IsRun(trace, pool) && j + 1 < |trace|
    requires trace[j + 1].log == trace[j].log + [Started(r, at)] && r.endpoint == e
    requires For(StartsOf(trace[j].log), e) == For(RunsOf(trace[j].log), e)
    ensures |trace[j].workers| > 0 && Pending(trace[j], e) != [] && Pending(trace[j], e)[0] == r
  {
    hide For, RunsOf, StartsOf, Pending, Enabled, Apply, LastReply, IsRun;
    PendingSplit(trace, pool, j, e);
    PostsStay(trace, pool, j);
    PostingOrder(trace, pool, j + 1, e);
    LogAppend(trace[j].log, Started(r, at));
    ForAppend(StartsOf(trace[j].log), r, e);
    var n := |For(RunsOf(trace[j].log), e)|;
    assert For(StartsOf(trace[j + 1].log), e)[n] == r;
  }

  /** A step that writes to the log posts nothing. */
  lemma PostsStay(trace: seq<State>, pool: nat, j: nat)
    requires IsRun(trace, pool) && j + 1 < |trace| && |trace[j + 1].log| != |trace[j].log|
    ensures trace[j + 1].posted == trace[j].posted
  {
    assert Next(trace[j], trace[j + 1]);
    var step :| Enabled(trace[j], step) && Apply(trace[j], step) == trace[j + 1];
  }

  /** Once all queues are empty, every endpoint's callbacks are exactly its posts, in order. */
  lemma QuiescentMeansAllServed(trace: seq<State>, pool: nat, i: nat, e: Endpoint)
    requires pool > 0 && IsRun(trace, pool) && i < |trace|
    requires trace[i].responsesOut == [] && trace[i].inHand.None?
    requires forall w :: 0 <= w < |trace[i].workers| ==> QueueAt(trace[i].workers[w], e) == []
    ensures For(trace[i].called, e) == For(trace[i].posted, e)
  {
    hide IsRun;
    RunKeepsInv(trace, pool, i);
    var s := trace[i];
    assert EndpointInv(s, e);
    assert s.called + Hand(s) + s.responsesOut == s.called;
  }
}
