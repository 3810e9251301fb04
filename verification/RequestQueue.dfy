/** The REST request queue: posting threads, a fixed pool of worker threads (`in_thread::in_loop`)
    and one callback thread (`request_queue::out_loop`), as a machine that takes one atomic step of
    one thread at a time. A step is what a thread does under one lock, or between two looks at
    shared state. */
module RequestQueue {
  import opened Bytes

  type Endpoint = seq<byte>

  /** An `http_request` object; `id` is its address. */
  datatype Request = Request(id: nat, endpoint: Endpoint)

  /** The rate-limit numbers of one answer from the server. */
  datatype Reply = Reply(remaining: nat, resetAfter: nat, retryAfter: nat)

  /** A `bucket_t`: the last answer for an endpoint and when it came. */
  datatype Bucket = Bucket(reply: Reply, timestamp: nat)

  /** One entry of the worker's private copy of `requests_in`. */
  datatype Entry = Entry(endpoint: Endpoint, reqs: seq<Request>)

  /** Where a worker is in its loop: waiting, walking its copy, or inside `http_request::run` for
      the first request of the first entry. */
  datatype Phase =
    | Idle
    | Walking(todo: seq<Entry>)
    | Running(todo: seq<Entry>)

  datatype Worker = Worker(requestsIn: map<Endpoint, seq<Request>>, buckets: map<Endpoint, Bucket>, phase: Phase)

  /** What happened on the wire, in order. */
  datatype Event =
    | Started(req: Request, at: nat)
    | Replied(req: Request, at: nat, reply: Reply)

  /** `posted`, `log` and `called` are history: every request posted, every run begun and ended,
      every callback made. */
  datatype State = State(
    workers: seq<Worker>,
    completed: set<nat>,
    responsesOut: seq<Request>,
    inHand: Option<Request>,
    now: nat,
    posted: seq<Request>,
    log: seq<Event>,
    called: seq<Request>)

  datatype Step =
    | Post(req: Request)
    | Snapshot(w: nat, todo: seq<Entry>)
    | NextBucket(w: nat)
    | Send(w: nat)
    | Break(w: nat)
    | Answer(w: nat, reply: Reply)
    | Cleanup(w: nat)
    | Pop
    | Callback
    | Tick

  // ------------------------------------------------------------------- routing

  /** A `char` is signed. */
  function SignedChar(c: byte): (r: int) {
    if c < 128 then c else c - 256
  }

  /** The hash of a C string, from the running value `h`. */
  function HashFrom(h: nat, s: Endpoint): (r: nat)
    requires h < TWO_32
    ensures r < TWO_32
    decreases s
  {
    if s == [] || s[0] == 0 then h else HashFrom((SignedChar(s[0]) + 31 * h) % TWO_32, s[1..])
  }

  function Route(e: Endpoint, pool: nat): (w: nat)
    requires pool > 0
    ensures w < pool
  {
    HashFrom(17, e) % pool
  }

  /** `hash`. */
  method Hash(s: Endpoint) returns (hashval: nat)
    ensures hashval == HashFrom(17, s)
  {
    hashval := 17;
    var i := 0;
    while i < |s| && s[i] != 0
      invariant 0 <= i <= |s| && hashval < TWO_32
      invariant HashFrom(hashval, s[i..]) == HashFrom(17, s)
    {
      assert s[i..][0] == s[i] && s[i..][1..] == s[i + 1..];
      hashval := (SignedChar(s[i]) + 31 * hashval) % TWO_32;
      i := i + 1;
    }
  }

  function Pow31(n: nat): (p: nat) {
    if n == 0 then 1 else 31 * Pow31(n - 1)
  }

  /** The characters, signed, as a polynomial in 31. */
  function Polynomial(s: Endpoint): (p: int) {
    if s == [] then 0
    else
      var c: int := s[|s| - 1];
      31 * Polynomial(s[..|s| - 1]) + (if c <= 127 then c else c - 256)
  }

  /** The hash of a text: its polynomial, above 17 times the next power, modulo 2^32; a NUL ends it. */
  lemma HashMeans(s: Endpoint, rest: Endpoint)
    requires 0 !in s
    ensures HashFrom(17, s) == (17 * Pow31(|s|) + Polynomial(s)) % 4_294_967_296
    ensures HashFrom(17, s + [0] + rest) == HashFrom(17, s)
    ensures forall pool: nat :: pool > 0 ==>
              Route(s, pool) == (17 * Pow31(|s|) + Polynomial(s)) % 4_294_967_296 % pool
  {
    HashPolynomial(17, s);
    HashEnds(17, s, rest);
  }

  lemma {:induction false} HashEnds(h: nat, s: Endpoint, rest: Endpoint)
    requires h < TWO_32 && 0 !in s
    ensures HashFrom(h, s + [0] + rest) == HashFrom(h, s)
    decreases s
  {
    if s != [] {
      assert (s + [0] + rest)[1..] == s[1..] + [0] + rest;
      HashEnds((SignedChar(s[0]) + 31 * h) % TWO_32, s[1..], rest);
    }
  }

  lemma {:induction false} HashPolynomial(h: nat, s: Endpoint)
    requires h < TWO_32 && 0 !in s
    ensures HashFrom(h, s) == (h * Pow31(|s|) + Polynomial(s)) % TWO_32
    decreases s
  {
    if s == [] {
      assert h * Pow31(0) == h;
    } else {
      var front, c := s[..|s| - 1], s[|s| - 1];
      HashPolynomial(h, front);
      HashLast(h, s);
      hide HashFrom, Pow31, Polynomial;
      HashStep(h, Pow31(|front|), Polynomial(front), SignedChar(c));
      PolynomialLast(s);
    }
  }

  lemma PolynomialLast(s: Endpoint)
    requires s != []
    ensures Polynomial(s) == 31 * Polynomial(s[..|s| - 1]) + SignedChar(s[|s| - 1])
    ensures Pow31(|s|) == 31 * Pow31(|s| - 1)
  {
  }

  lemma HashStep(h: nat, p: nat, q: int, c: int)
    ensures (c + 31 * ((h * p + q) % TWO_32)) % TWO_32 == (h * (31 * p) + (31 * q + c)) % TWO_32
  {
    var x := h * p + q;
    assert h * (31 * p) == 31 * (h * p);
    assert h * (31 * p) + (31 * q + c) == c + 31 * x;
    var k := x / TWO_32;
    assert x == k * TWO_32 + x % TWO_32;
    assert c + 31 * x == (31 * k) * TWO_32 + (c + 31 * (x % TWO_32));
    SameRemainder(c + 31 * (x % TWO_32), 31 * k);
  }

  lemma SameRemainder(x: int, k: int)
    ensures (k * TWO_32 + x) % TWO_32 == x % TWO_32
  {
    DivModUnique(k * TWO_32 + x, TWO_32, k + x / TWO_32, x % TWO_32);
  }

  /** The last character is hashed last. */
  lemma {:induction false} HashLast(h: nat, s: Endpoint)
    requires h < TWO_32 && s != [] && 0 !in s
    ensures HashFrom(h, s) == (SignedChar(s[|s| - 1]) + 31 * HashFrom(h, s[..|s| - 1])) % TWO_32
    decreases s
  {
    var h' := (SignedChar(s[0]) + 31 * h) % TWO_32;
    if |s| == 1 {
      assert s[1..] == [] && s[..0] == [];
    } else {
      HashLast(h', s[1..]);
      assert s[1..][..|s| - 2] == s[..|s| - 1][1..];
    }
  }

  // -------------------------------------------------------------- list helpers

  /** The requests of `rs` that have not been run, in order. */
  function Unfinished(rs: seq<Request>, completed: set<nat>): (r: seq<Request>)
    ensures forall q :: q in r <==> q in rs && q.id !in completed
  {
    if rs == [] then []
    else (if rs[0].id in completed then [] else [rs[0]]) + Unfinished(rs[1..], completed)
  }

  /** The requests of `rs` for endpoint `e`, in order. */
  function For(rs: seq<Request>, e: Endpoint): (r: seq<Request>) {
    if rs == [] then []
    else
      var last := rs[|rs| - 1];
      For(rs[..|rs| - 1], e) + (if last.endpoint == e then [last] else [])
  }

  function StartsOf(log: seq<Event>): (r: seq<Request>) {
    if log == [] then []
    else
      var last := log[|log| - 1];
      StartsOf(log[..|log| - 1]) + (if last.Started? then [last.req] else [])
  }

  function RunsOf(log: seq<Event>): (r: seq<Request>) {
    if log == [] then []
    else
      var last := log[|log| - 1];
      RunsOf(log[..|log| - 1]) + (if last.Replied? then [last.req] else [])
  }

  /** The last answer seen for `e`. */
  function LastReply(log: seq<Event>, e: Endpoint): (r: Option<Bucket>) {
    if log == [] then None
    else
      var last := log[|log| - 1];
      if last.Replied? && last.req.endpoint == e then Some(Bucket(last.reply, last.at))
      else LastReply(log[..|log| - 1], e)
  }

  ghost predicate DistinctIds(rs: seq<Request>) {
    forall i, j :: 0 <= i < j < |rs| ==> rs[i].id != rs[j].id
  }

  // ---------------------------------------------------------------- the machine

  function Init(pool: nat): (s: State) {
    State(seq(pool, _ => Worker(map[], map[], Idle)), {}, [], None, 0, [], [], [])
  }

  /** `todo` lists the map `m`, each key once. */
  ghost predicate Lists(todo: seq<Entry>, m: map<Endpoint, seq<Request>>) {
    && (forall i, j :: 0 <= i < j < |todo| ==> todo[i].endpoint != todo[j].endpoint)
    && (forall i :: 0 <= i < |todo| ==> todo[i].endpoint in m && todo[i].reqs == m[todo[i].endpoint])
    && (forall e :: e in m ==> exists i :: 0 <= i < |todo| && todo[i].endpoint == e)
  }

  function WaitOf(r: Reply): (w: nat) {
    if r.retryAfter != 0 then r.retryAfter else r.resetAfter
  }

  /** The test that lets the first request of an endpoint go out at time `now`. */
  predicate MaySend(buckets: map<Endpoint, Bucket>, e: Endpoint, now: nat) {
    e in buckets && buckets[e].reply.remaining < 1 ==> now > buckets[e].timestamp + WaitOf(buckets[e].reply)
  }

  /** `requests_in[req->endpoint].push_back(req)`. */
  function PushBack(m: map<Endpoint, seq<Request>>, req: Request): (r: map<Endpoint, seq<Request>>) {
    m[req.endpoint := (if req.endpoint in m then m[req.endpoint] else []) + [req]]
  }

  function EraseCompleted(m: map<Endpoint, seq<Request>>, completed: set<nat>): (r: map<Endpoint, seq<Request>>)
    ensures r.Keys == m.Keys
  {
    map e | e in m :: Unfinished(m[e], completed)
  }

  /** A worker after a post, after an answer to the request it runs, and after its cleanup. */
  function Posted(k: Worker, req: Request): (k': Worker) {
    k.(requestsIn := PushBack(k.requestsIn, req))
  }

  function Answered(k: Worker, b: Bucket): (k': Worker)
    requires k.phase.Running? && k.phase.todo != [] && k.phase.todo[0].reqs != []
  {
    var todo := k.phase.todo;
    k.(phase := Walking([Entry(todo[0].endpoint, todo[0].reqs[1..])] + todo[1..]),
       buckets := k.buckets[todo[0].reqs[0].endpoint := b])
  }

  function Cleaned(k: Worker, completed: set<nat>): (k': Worker) {
    k.(phase := Idle, requestsIn := EraseCompleted(k.requestsIn, completed))
  }

  ghost predicate Enabled(s: State, step: Step) {
    match step
    case Post(req) => |s.workers| > 0 && forall q :: q in s.posted ==> q.id != req.id
    case Snapshot(w, todo) =>
      w < |s.workers| && s.workers[w].phase.Idle?
      && s.workers[w].requestsIn != map[] && Lists(todo, s.workers[w].requestsIn)
    case NextBucket(w) => Walks(s, w) && s.workers[w].phase.todo[0].reqs == []
    case Send(w) =>
      Walks(s, w) && s.workers[w].phase.todo[0].reqs != []
      && MaySend(s.workers[w].buckets, s.workers[w].phase.todo[0].endpoint, s.now)
    case Break(w) =>
      Walks(s, w) && s.workers[w].phase.todo[0].reqs != []
      && !MaySend(s.workers[w].buckets, s.workers[w].phase.todo[0].endpoint, s.now)
    case Answer(w, _) =>
      w < |s.workers| && s.workers[w].phase.Running?
      && s.workers[w].phase.todo != [] && s.workers[w].phase.todo[0].reqs != []
    case Cleanup(w) => w < |s.workers| && s.workers[w].phase == Walking([])
    case Pop => s.inHand.None? && s.responsesOut != []
    case Callback => s.inHand.Some?
    case Tick => true
  }

  ghost predicate Walks(s: State, w: nat) {
    w < |s.workers| && s.workers[w].phase.Walking? && s.workers[w].phase.todo != []
  }

  ghost function Apply(s: State, step: Step): (s': State)
    requires Enabled(s, step)
  {
    match step
    case Post(req) =>
      var w := Route(req.endpoint, |s.workers|);
      SetWorker(s, w, Posted(s.workers[w], req)).(posted := s.posted + [req])
    case Snapshot(w, todo) => SetWorker(s, w, s.workers[w].(phase := Walking(todo)))
    case NextBucket(w) => SetWorker(s, w, s.workers[w].(phase := Walking(s.workers[w].phase.todo[1..])))
    case Send(w) =>
      SetWorker(s, w, s.workers[w].(phase := Running(s.workers[w].phase.todo)))
        .(log := s.log + [Started(s.workers[w].phase.todo[0].reqs[0], s.now)])
    case Break(w) => SetWorker(s, w, s.workers[w].(phase := Walking(s.workers[w].phase.todo[1..])))
    case Answer(w, reply) =>
      var req := s.workers[w].phase.todo[0].reqs[0];
      SetWorker(s, w, Answered(s.workers[w], Bucket(reply, s.now)))
        .(completed := s.completed + {req.id}, responsesOut := s.responsesOut + [req],
          log := s.log + [Replied(req, s.now, reply)])
    case Cleanup(w) => SetWorker(s, w, Cleaned(s.workers[w], s.completed))
    case Pop => s.(inHand := Some(s.responsesOut[0]), responsesOut := s.responsesOut[1..])
    case Callback =>
      s.(inHand := None,
         called := s.called + (if s.inHand.value.id in s.completed then [s.inHand.value] else []))
    case Tick => s.(now := s.now + 1)
  }

  function SetWorker(s: State, w: nat, worker: Worker): (s': State)
    requires w < |s.workers|
  {
    s.(workers := s.workers[w := worker])
  }

  /** `trace` is a run of a pool of `pool` workers: it starts empty and each state is one step on. */
  ghost predicate IsRun(trace: seq<State>, pool: nat) {
    && trace != [] && trace[0] == Init(pool)
    && forall i :: 0 <= i < |trace| - 1 ==> Next(trace[i], trace[i + 1])
  }

  ghost predicate Next(s: State, s': State) {
    exists step :: Enabled(s, step) && Apply(s, step) == s'
  }

  // ---------------------------------------------------------- the cleanup loop

  /** The places of a map of lists. */
  ghost function Slots(m: map<Endpoint, seq<Request>>): (r: set<(Endpoint, int)>) {
    set e, i | e in m && 0 <= i < |m[e]| :: (e, i)
  }

  /** The cleanup of `in_loop`: look through all lists for a completed request, erase it, and start
      again from the first list, until a whole pass finds none. */
  method EraseLoop(requestsIn: map<Endpoint, seq<Request>>, completed: set<nat>)
      returns (r: map<Endpoint, seq<Request>>)
    ensures r == EraseCompleted(requestsIn, completed)
  {
    r := requestsIn;
    var again := true;
    while again
      invariant EraseCompleted(r, completed) == EraseCompleted(requestsIn, completed)
      invariant !again ==> forall e :: e in r ==> forall q :: q in r[e] ==> q.id !in completed
      decreases Slots(r), again
    {
      again, r := EraseFirst(r, completed);
    }
    forall e | e in r
      ensures Unfinished(r[e], completed) == r[e]
    {
      NothingToErase(r[e], completed);
    }
  }

  /** One pass, up to the first completed request. */
  method EraseFirst(m: map<Endpoint, seq<Request>>, completed: set<nat>)
      returns (again: bool, r: map<Endpoint, seq<Request>>)
    ensures EraseCompleted(r, completed) == EraseCompleted(m, completed)
    ensures again ==> Slots(r) < Slots(m)
    ensures !again ==> r == m && forall e :: e in m ==> forall q :: q in m[e] ==> q.id !in completed
  {
    var keys := m.Keys;
    while keys != {}
      invariant keys <= m.Keys
      invariant forall e :: e in m.Keys - keys ==> forall q :: q in m[e] ==> q.id !in completed
    {
      var e :| e in keys;
      for i := 0 to |m[e]|
        invariant forall j :: 0 <= j < i ==> m[e][j].id !in completed
      {
        if m[e][i].id in completed {
          EraseOne(m[e], i, completed);
          var shorter := m[e][..i] + m[e][i + 1..];
          SlotsShrink(m, e, shorter);
          return true, m[e := shorter];
        }
      }
      keys := keys - {e};
    }
    return false, m;
  }

  lemma SlotsShrink(m: map<Endpoint, seq<Request>>, e: Endpoint, shorter: seq<Request>)
    requires e in m && |shorter| == |m[e]| - 1
    ensures Slots(m[e := shorter]) < Slots(m)
  {
    var gone := (e, |shorter|);
    assert gone in Slots(m) && gone !in Slots(m[e := shorter]);
    forall p | p in Slots(m[e := shorter])
      ensures p in Slots(m)
    {
    }
  }

  lemma {:induction false} EraseOne(rs: seq<Request>, i: nat, completed: set<nat>)
    requires i < |rs| && rs[i].id in completed
    ensures Unfinished(rs[..i] + rs[i + 1..], completed) == Unfinished(rs, completed)
  {
    if i == 0 {
      assert rs[..0] + rs[1..] == rs[1..];
    } else {
      EraseOne(rs[1..], i - 1, completed);
      var shorter := rs[..i] + rs[i + 1..];
      assert shorter[1..] == rs[1..][..i - 1] + rs[1..][i..];
    }
  }

  lemma {:induction false} NothingToErase(rs: seq<Request>, completed: set<nat>)
    requires forall q :: q in rs ==> q.id !in completed
    ensures Unfinished(rs, completed) == rs
  {
    if rs != [] {
      NothingToErase(rs[1..], completed);
    }
  }

  // -------------------------------------------------------- the atomic sections

  /** An `in_thread`: what it does to its own fields under its lock. */
  class InThread {
    var requestsIn: map<Endpoint, seq<Request>>
    var buckets: map<Endpoint, Bucket>

    constructor ()
      ensures requestsIn == map[] && buckets == map[]
    {
      requestsIn, buckets := map[], map[];
    }

    /** `in_thread::post_request`. */
    method PostRequest(req: Request)
      modifies this`requestsIn
      ensures requestsIn == PushBack(old(requestsIn), req)
    {
      if req.endpoint !in requestsIn {
        requestsIn := requestsIn[req.endpoint := []];
      }
      requestsIn := requestsIn[req.endpoint := requestsIn[req.endpoint] + [req]];
    }

    /** The nested test of the bucket before a request is run. */
    method BucketAllows(e: Endpoint, now: nat) returns (ok: bool)
      ensures ok == MaySend(buckets, e, now)
      ensures e !in buckets ==> ok
      ensures e in buckets && buckets[e].reply.remaining >= 1 ==> ok
      ensures e in buckets && buckets[e].reply.remaining == 0 && buckets[e].reply.retryAfter != 0 ==>
                ok == (now > buckets[e].timestamp + buckets[e].reply.retryAfter)
      ensures e in buckets && buckets[e].reply.remaining == 0 && buckets[e].reply.retryAfter == 0 ==>
                ok == (now > buckets[e].timestamp + buckets[e].reply.resetAfter)
    {
      if e in buckets {
        if buckets[e].reply.remaining < 1 {
          var wait := if buckets[e].reply.retryAfter != 0 then buckets[e].reply.retryAfter
                      else buckets[e].reply.resetAfter;
          return now > buckets[e].timestamp + wait;
        }
      }
      return true;
    }

    /** The bucket made from an answer. */
    method StoreReply(req: Request, reply: Reply, now: nat)
      modifies this`buckets
      ensures buckets == old(buckets)[req.endpoint := Bucket(reply, now)]
    {
      buckets := buckets[req.endpoint := Bucket(reply, now)];
    }

    /** The cleanup at the end of a pass. */
    method Cleanup(completed: set<nat>)
      modifies this`requestsIn
      ensures requestsIn == EraseCompleted(old(requestsIn), completed)
    {
      requestsIn := EraseLoop(requestsIn, completed);
    }
  }

  /** `request_queue::post_request`: only the worker that the endpoint hashes to is touched. */
  method PostToPool(pool: seq<InThread>, req: Request)
    requires |pool| > 0
    modifies pool[Route(req.endpoint, |pool|)]
    ensures pool[Route(req.endpoint, |pool|)].requestsIn == PushBack(old(pool[Route(req.endpoint, |pool|)].requestsIn), req)
    ensures pool[Route(req.endpoint, |pool|)].buckets == old(pool[Route(req.endpoint, |pool|)].buckets)
  {
    var h := Hash(req.endpoint);
    var worker: InThread := pool[h % |pool|];
    worker.PostRequest(req);
  }
}
