/** Two sliding-window limits of an account: instances entered per hour, and mails to new people. */
module AccountLimits {

  const HOUR: int := 3600

  /** Instance id to the time it was last entered. */
  type EnterTimes = map<nat, int>

  predicate Expired(m: EnterTimes, inst: nat, now: int) {
    inst in m && m[inst] + HOUR < now
  }

  /** The entry a walk in key order finds first. */
  ghost predicate FirstExpired(m: EnterTimes, inst: nat, now: int) {
    Expired(m, inst, now) && forall k: nat :: k < inst ==> !Expired(m, k, now)
  }

  /** `CheckInstanceCount` on one account's map: it passes for a known instance, or below the limit,
      or after dropping the first entry that is over an hour old. */
  ghost predicate CheckRel(m: EnterTimes, inst: nat, maxCount: nat, now: int, passed: bool, m': EnterTimes) {
    if inst in m || |m| < maxCount then passed && m' == m
    else if exists k :: Expired(m, k, now) then passed && exists k :: FirstExpired(m, k, now) && m' == m - {k}
    else !passed && m' == m
  }

  class AccountMgr {
    var instanceEnterTimes: map<nat, EnterTimes>

    constructor ()
      ensures instanceEnterTimes == map[]
    {
      instanceEnterTimes := map[];
    }

    /** The map of an account, empty when it has none yet. */
    ghost function Of(account: nat): (m: EnterTimes)
      reads this
    {
      if account in instanceEnterTimes then instanceEnterTimes[account] else map[]
    }

    method CheckInstanceCount(account: nat, inst: nat, maxCount: nat, now: int) returns (passed: bool)
      modifies this
      ensures account in old(instanceEnterTimes) || maxCount >= 1 ==>
                CheckRel(old(Of(account)), inst, maxCount, now, passed, Of(account))
      ensures account !in old(instanceEnterTimes) ==> passed && Of(account) == map[]
      ensures forall a :: a != account ==> Of(a) == old(Of(a))
    {
      if account !in instanceEnterTimes {
        return true;
      }
      var enterTimes := instanceEnterTimes[account];
      if inst in enterTimes {
        return true;
      }
      if |enterTimes| < maxCount {
        return true;
      }
      var left := enterTimes.Keys;
      while left != {}
        invariant left <= enterTimes.Keys
        invariant forall k :: Expired(enterTimes, k, now) ==> k in left
        invariant instanceEnterTimes == old(instanceEnterTimes)
      {
        ghost var least := Least(left);
        var k :| k in left && IsLeast(left, k);
        if enterTimes[k] + HOUR < now {
          forall j: nat | Expired(enterTimes, j, now) ensures k <= j {
            assert j in left;
            assert IsLeast(left, k);
          }
          assert FirstExpired(enterTimes, k, now);
          instanceEnterTimes := instanceEnterTimes[account := enterTimes - {k}];
          return true;
        }
        left := left - {k};
      }
      return false;
    }

    method AddInstanceEnterTime(account: nat, inst: nat, enterTime: int)
      modifies this
      ensures Of(account) == old(Of(account))[inst := enterTime]
      ensures forall a :: a != account ==> Of(a) == old(Of(a))
    {
      if account !in instanceEnterTimes {
        instanceEnterTimes := instanceEnterTimes[account := map[inst := enterTime]];
        return;
      }
      var times: EnterTimes := instanceEnterTimes[account];
      times := times[inst := enterTime];
      instanceEnterTimes := instanceEnterTimes[account := times];
    }
  }

  predicate IsLeast(s: set<nat>, k: nat) {
    k in s && forall j :: j in s ==> k <= j
  }

  lemma {:induction false} Least(s: set<nat>) returns (k: nat)
    requires s != {}
    ensures IsLeast(s, k)
  {
    k :| k in s;
    if s != {k} {
      var rest := s - {k};
      var y := Least(rest);
      assert forall j :: j in s ==> j == k || j in rest;
      k := if k < y then k else y;
    }
  }

  // ----------------------------------------------------- runs of one account: instances

  datatype Op =
    | Check(inst: nat, now: int, passed: bool)
    | Enter(inst: nat, now: int)

  ghost predicate StepOk(m: EnterTimes, op: Op, m': EnterTimes, maxCount: nat) {
    match op
    case Check(inst, now, passed) => CheckRel(m, inst, maxCount, now, passed, m')
    case Enter(inst, now) => m' == m[inst := now]
  }

  /** The entry at `i` follows a passing check, with no other entry since. The check was for its
      instance, or for one not entered before: the caller checks number 0 when it has yet to create
      the instance. */
  ghost predicate Guarded(ops: seq<Op>, ms: seq<EnterTimes>, i: nat)
    requires i < |ops| < |ms| && ops[i].Enter?
  {
    exists j :: 0 <= j < i && Admits(ops, ms, j, i)
  }

  ghost predicate Admits(ops: seq<Op>, ms: seq<EnterTimes>, j: nat, i: nat)
    requires j < i < |ops| < |ms| && ops[i].Enter?
  {
    && ops[j].Check? && ops[j].passed
    && (ops[j].inst == ops[i].inst || ops[j].inst !in ms[j])
    && forall k :: j < k < i ==> !ops[k].Enter?
  }

  /** `ms` are the maps before and after each operation of a run in which time does not go back and
      nobody enters unchecked. */
  ghost predicate IsRun(ops: seq<Op>, ms: seq<EnterTimes>, maxCount: nat) {
    && |ms| == |ops| + 1 && ms[0] == map[]
    && (forall i :: 0 <= i < |ops| ==> StepOk(ms[i], ops[i], ms[i + 1], maxCount))
    && (forall i, j :: 0 <= i < j < |ops| ==> ops[i].now <= ops[j].now)
    && (forall i :: 0 <= i < |ops| && ops[i].Enter? ==> Guarded(ops, ms, i))
  }

  /** The instances entered from `lo` to `hi`. */
  ghost function Entered(ops: seq<Op>, lo: int, hi: int): (r: set<nat>) {
    set i | 0 <= i < |ops| && ops[i].Enter? && lo <= ops[i].now <= hi :: ops[i].inst
  }

  /** There is room for `inst`: it is known, or one more fits. */
  ghost predicate Room(m: EnterTimes, inst: nat, maxCount: nat) {
    inst in m || |m| < maxCount
  }

  lemma RemoveOne(m: EnterTimes, k: nat)
    requires k in m
    ensures |m - {k}| == |m| - 1
  {
    assert (m - {k}).Keys == m.Keys - {k};
    assert |m - {k}| == |(m - {k}).Keys| && |m| == |m.Keys|;
  }

  lemma AddOne(m: EnterTimes, k: nat, v: int)
    ensures |m[k := v]| == if k in m then |m| else |m| + 1
  {
    assert m[k := v].Keys == m.Keys + {k};
    assert |m[k := v]| == |m[k := v].Keys| && |m| == |m.Keys|;
  }

  /** A check never makes the map larger, and keeps whatever room there was. */
  lemma CheckKeeps(m: EnterTimes, inst: nat, maxCount: nat, now: int, passed: bool, m': EnterTimes, other: nat)
    requires CheckRel(m, inst, maxCount, now, passed, m') && |m| <= maxCount
    ensures |m'| <= maxCount
    ensures Room(m, other, maxCount) ==> Room(m', other, maxCount)
    ensures passed ==> Room(m', inst, maxCount) && (inst !in m ==> |m'| < maxCount)
    ensures |m'| <= |m|
  {
    if m' != m {
      var k :| FirstExpired(m, k, now) && m' == m - {k};
      RemoveOne(m, k);
    }
  }

  /** Room made by a passing check lasts until somebody enters. */
  lemma {:induction false} RoomLasts(ops: seq<Op>, ms: seq<EnterTimes>, maxCount: nat, j: nat, i: nat, inst: nat)
    requires IsRun(ops, ms, maxCount) && j < i < |ops|
    requires ops[j].Check? && ops[j].passed && (ops[j].inst == inst || ops[j].inst !in ms[j])
    requires forall k :: j < k < i ==> !ops[k].Enter?
    requires forall k :: 0 <= k <= i ==> |ms[k]| <= maxCount
    ensures Room(ms[i], inst, maxCount)
    decreases i
  {
    hide CheckRel;
    var op := ops[i - 1];
    assert StepOk(ms[i - 1], op, ms[i - 1 + 1], maxCount);
    if i - 1 > j {
      RoomLasts(ops, ms, maxCount, j, i - 1, inst);
    }
    CheckKeeps(ms[i - 1], op.inst, maxCount, op.now, op.passed, ms[i], inst);
  }

  /** The map never holds more than the limit. */
  lemma {:induction false} SizeBounded(ops: seq<Op>, ms: seq<EnterTimes>, maxCount: nat, i: nat)
    requires IsRun(ops, ms, maxCount) && maxCount >= 1 && i <= |ops|
    ensures forall k :: 0 <= k <= i ==> |ms[k]| <= maxCount
  {
    hide CheckRel;
    if i > 0 {
      SizeBounded(ops, ms, maxCount, i - 1);
      var op := ops[i - 1];
      assert StepOk(ms[i - 1], op, ms[i - 1 + 1], maxCount);
      match op
      case Check(inst, now, passed) => CheckKeeps(ms[i - 1], inst, maxCount, now, passed, ms[i], inst);
      case Enter(inst, now) =>
        assert Guarded(ops, ms, i - 1);
        var j :| 0 <= j < i - 1 && Admits(ops, ms, j, i - 1);
        RoomLasts(ops, ms, maxCount, j, i - 1, inst);
        AddOne(ms[i - 1], inst, now);
    }
  }

  /** An entry stays in the map for its hour, whatever is evicted. */
  lemma {:induction false} EntryLasts(ops: seq<Op>, ms: seq<EnterTimes>, maxCount: nat, i: nat, n: nat, t: int)
    requires IsRun(ops, ms, maxCount) && i < n <= |ops| && ops[i].Enter?
    requires ops[n - 1].now <= t <= ops[i].now + HOUR
    ensures ops[i].inst in ms[n] && ms[n][ops[i].inst] >= ops[i].now
    decreases n
  {
    var op := ops[n - 1];
    assert StepOk(ms[n - 1], op, ms[n - 1 + 1], maxCount);
    if n - 1 > i {
      EntryLasts(ops, ms, maxCount, i, n - 1, t);
    }
  }

  lemma SubsetSize(a: set<nat>, b: set<nat>)
    requires a <= b
    ensures |a| <= |b|
  {
    assert b == a + (b - a);
  }

  /** How many operations happen no later than `t`. */
  ghost function CountUntil(ops: seq<Op>, t: int): (n: nat)
    ensures n <= |ops|
    ensures forall i :: 0 <= i < n ==> ops[i].now <= t
    ensures n < |ops| ==> ops[n].now > t
  {
    if ops == [] || ops[0].now > t then 0 else 1 + CountUntil(ops[1..], t)
  }

  /** The instance limit: in every run in which entries are checked, at most `maxCount` distinct
      instances are entered in any hour, although old entries are dropped one at a time and only when
      the map is full. */
  lemma InstanceLimit(ops: seq<Op>, ms: seq<EnterTimes>, maxCount: nat, t: int)
    requires IsRun(ops, ms, maxCount) && maxCount >= 1
    ensures |Entered(ops, t - 3600, t)| <= maxCount
  {
    hide CheckRel;
    var n := CountUntil(ops, t);
    SizeBounded(ops, ms, maxCount, n);
    forall inst | inst in Entered(ops, t - HOUR, t)
      ensures inst in ms[n].Keys
    {
      var i :| 0 <= i < |ops| && ops[i].Enter? && t - HOUR <= ops[i].now <= t && ops[i].inst == inst;
      assert i < n;
      EntryLasts(ops, ms, maxCount, i, n, t);
    }
    SubsetSize(Entered(ops, t - HOUR, t), ms[n].Keys);
  }

  /** What the map holds was entered, at the time it holds. */
  lemma {:induction false} EntryKnown(ops: seq<Op>, ms: seq<EnterTimes>, maxCount: nat, n: nat, inst: nat) returns (j: nat)
    requires IsRun(ops, ms, maxCount) && n <= |ops| && inst in ms[n]
    ensures j < n && ops[j] == Enter(inst, ms[n][inst])
  {
    var op := ops[n - 1];
    assert StepOk(ms[n - 1], op, ms[n - 1 + 1], maxCount);
    if op.Enter? && op.inst == inst {
      j := n - 1;
    } else {
      j := EntryKnown(ops, ms, maxCount, n - 1, inst);
    }
  }

  /** The check is exact: it refuses an instance if and only if it was not entered within the last hour
      and as many others as are allowed were. */
  lemma CheckExactly(ops: seq<Op>, ms: seq<EnterTimes>, maxCount: nat, i: nat)
    requires IsRun(ops, ms, maxCount) && maxCount >= 1 && i < |ops| && ops[i].Check?
    ensures var last := Entered(ops[..i], ops[i].now - 3600, ops[i].now);
            !ops[i].passed <==> ops[i].inst !in last && |last| >= maxCount
  {
    hide IsRun, CheckRel, Entered, Expired;
    CheckAt(ops, ms, maxCount, i);
    LastInMap(ops, ms, maxCount, i);
    RefusedWhenFull(ms[i], ops[i].inst, maxCount, ops[i].now, ops[i].passed, ms[i + 1],
                    Entered(ops[..i], ops[i].now - 3600, ops[i].now));
  }

  lemma CheckAt(ops: seq<Op>, ms: seq<EnterTimes>, maxCount: nat, i: nat)
    requires IsRun(ops, ms, maxCount) && maxCount >= 1 && i < |ops| && ops[i].Check?
    ensures |ms| == |ops| + 1 && |ms[i]| <= maxCount
    ensures CheckRel(ms[i], ops[i].inst, maxCount, ops[i].now, ops[i].passed, ms[i + 1])
  {
    hide CheckRel;
    assert StepOk(ms[i], ops[i], ms[i + 1], maxCount);
    SizeBounded(ops, ms, maxCount, i);
  }

  /** A check changes the map only to drop one entry: one of over an hour ago, all lower ones being
      later. */
  lemma DropsLowest(ops: seq<Op>, ms: seq<EnterTimes>, maxCount: nat, i: nat) returns (k: nat)
    requires IsRun(ops, ms, maxCount) && maxCount >= 1 && i < |ops| && ops[i].Check? && ms[i + 1] != ms[i]
    ensures k in ms[i] && ms[i][k] + 3600 < ops[i].now && ms[i + 1] == ms[i] - {k}
    ensures forall j :: j in ms[i] && j < k ==> ms[i][j] + 3600 >= ops[i].now
  {
    hide IsRun;
    CheckAt(ops, ms, maxCount, i);
    k :| FirstExpired(ms[i], k, ops[i].now) && ms[i + 1] == ms[i] - {k};
    assert forall j :: j in ms[i] && j < k ==> !Expired(ms[i], j, ops[i].now);
  }

  lemma RefusedWhenFull(m: EnterTimes, inst: nat, maxCount: nat, now: int, passed: bool, m': EnterTimes, last: set<nat>)
    requires CheckRel(m, inst, maxCount, now, passed, m') && |m| <= maxCount
    requires forall k :: k in last <==> k in m && !Expired(m, k, now)
    ensures !passed <==> inst !in last && |last| >= maxCount
  {
    assert last <= m.Keys && |m.Keys| == |m|;
    SubsetSize(last, m.Keys);
    if |last| >= maxCount {
      SameSize(last, m.Keys);
    }
    if !passed {
      assert forall k :: k in m.Keys ==> k in last;
      assert m.Keys <= last;
      SubsetSize(m.Keys, last);
    }
  }

  /** The instances of the last hour are in the map, not expired, and nothing else there is not. */
  lemma LastInMap(ops: seq<Op>, ms: seq<EnterTimes>, maxCount: nat, i: nat)
    requires IsRun(ops, ms, maxCount) && i < |ops|
    ensures |ms| == |ops| + 1
    ensures var last := Entered(ops[..i], ops[i].now - 3600, ops[i].now);
            forall k :: k in last <==> k in ms[i] && !Expired(ms[i], k, ops[i].now)
  {
    hide CheckRel;
    var m, now := ms[i], ops[i].now;
    var last := Entered(ops[..i], now - 3600, now);
    forall k | k in last
      ensures k in m && !Expired(m, k, now)
    {
      var j :| 0 <= j < |ops[..i]| && ops[..i][j].Enter? && now - 3600 <= ops[..i][j].now <= now && ops[..i][j].inst == k;
      assert ops[..i][j] == ops[j];
      EntryLasts(ops, ms, maxCount, j, i, now);
    }
    forall k | k in m && !Expired(m, k, now)
      ensures k in last
    {
      var j := EntryKnown(ops, ms, maxCount, i, k);
      assert ops[..i][j] == ops[j];
    }
  }

  lemma SameSize(a: set<nat>, b: set<nat>)
    requires a <= b && |a| >= |b|
    ensures a == b
  {
    assert b == a + (b - a);
    assert |b - a| == 0;
  }

  // ------------------------------------------------------------------------- mail

  /** Account to the time it was last mailed; entries are never removed. */
  type MailTimes = map<nat, int>

  /** The accounts mailed since `since`. */
  function Recent(m: MailTimes, since: int): (r: set<nat>) {
    set k | k in m && m[k] >= since
  }

  predicate MayMail(m: MailTimes, target: nat, now: int, expire: nat, maxMails: nat) {
    target in m || |Recent(m, now - expire)| < maxMails
  }

  class AccountPersistentData {
    var mailsSent: MailTimes

    constructor ()
      ensures mailsSent == map[]
    {
      mailsSent := map[];
    }

    method JustMailed(toAccount: nat, now: int)
      modifies this
      ensures mailsSent == old(mailsSent)[toAccount := now]
    {
      mailsSent := mailsSent[toAccount := now];
    }

    /** `CanMail`: a known target always, another while the score is below the limit. */
    method CanMail(target: nat, now: int, expire: nat, maxMails: nat) returns (ok: bool)
      ensures ok == MayMail(mailsSent, target, now, expire, maxMails)
    {
      if target in mailsSent {
        return true;
      }
      var totalScore := 0;
      var lastNonExpired := now - expire;
      var left := mailsSent.Keys;
      while left != {}
        invariant left <= mailsSent.Keys
        invariant totalScore == |Recent(mailsSent, lastNonExpired) - left|
      {
        var k :| k in left;
        CountOne(Recent(mailsSent, lastNonExpired), left, k);
        if mailsSent[k] >= lastNonExpired {
          totalScore := totalScore + 1;
        }
        left := left - {k};
      }
      assert Recent(mailsSent, lastNonExpired) - {} == Recent(mailsSent, lastNonExpired);
      ok := totalScore < maxMails;
    }
  }

  /** Taking `k` off what is left to look at counts it, if it is to be counted. */
  lemma CountOne(s: set<nat>, left: set<nat>, k: nat)
    requires k in left
    ensures |s - (left - {k})| == if k in s then |s - left| + 1 else |s - left|
  {
    if k in s {
      assert s - (left - {k}) == (s - left) + {k};
    } else {
      assert s - (left - {k}) == s - left;
    }
  }

  /** A mail, the time at which `CanMail` allowed it and the time at which `JustMailed` noted it. */
  datatype Mail = Mail(target: nat, checked: int, sent: int)

  /** A run of mails, each checked no later than it is sent and with no other mail in between. */
  ghost predicate IsMailRun(mails: seq<Mail>, ms: seq<MailTimes>, expire: nat, maxMails: nat) {
    && |ms| == |mails| + 1 && ms[0] == map[]
    && (forall i :: 0 <= i < |mails| ==> MailStep(ms[i], mails[i], ms[i + 1], expire, maxMails))
    && (forall i, j :: 0 <= i < j < |mails| ==> mails[i].sent <= mails[j].sent)
  }

  ghost predicate MailStep(m: MailTimes, mail: Mail, m': MailTimes, expire: nat, maxMails: nat) {
    && mail.checked <= mail.sent
    && MayMail(m, mail.target, mail.checked, expire, maxMails)
    && m' == m[mail.target := mail.sent]
  }

  /** The accounts first contacted from `lo` to `hi`. */
  ghost function FirstContacts(mails: seq<Mail>, ms: seq<MailTimes>, lo: int, hi: int): (r: set<nat>)
    requires |ms| == |mails| + 1
  {
    set i | 0 <= i < |mails| && mails[i].target !in ms[i] && lo <= mails[i].sent <= hi :: mails[i].target
  }

  /** Once contacted, known for good, with a time no earlier. */
  lemma {:induction false} ContactLasts(mails: seq<Mail>, ms: seq<MailTimes>, expire: nat, maxMails: nat, i: nat, n: nat)
    requires IsMailRun(mails, ms, expire, maxMails) && i < n <= |mails|
    ensures mails[i].target in ms[n] && ms[n][mails[i].target] >= mails[i].sent
    decreases n
  {
    hide MayMail;
    assert MailStep(ms[n - 1], mails[n - 1], ms[n - 1 + 1], expire, maxMails);
    if n - 1 > i {
      ContactLasts(mails, ms, expire, maxMails, i, n - 1);
    }
  }

  /** An account is first contacted at most once, so counting accounts counts first contacts. */
  lemma FirstContactOnce(mails: seq<Mail>, ms: seq<MailTimes>, expire: nat, maxMails: nat, i: nat, j: nat)
    requires IsMailRun(mails, ms, expire, maxMails) && i < j < |mails|
    requires mails[i].target !in ms[i] && mails[j].target !in ms[j]
    ensures mails[i].target != mails[j].target
  {
    ContactLasts(mails, ms, expire, maxMails, i, j);
  }

  /** The last first contact of a window, if there is one. */
  lemma {:induction false} LastFirstContact(mails: seq<Mail>, ms: seq<MailTimes>, lo: int, hi: int, n: nat)
      returns (l: int)
    requires |ms| == |mails| + 1 && n <= |mails|
    ensures -1 <= l < n
    ensures l >= 0 ==> mails[l].target !in ms[l] && lo <= mails[l].sent <= hi
    ensures forall i :: l < i < n ==> !(mails[i].target !in ms[i] && lo <= mails[i].sent <= hi)
  {
    l := n - 1;
    while l >= 0 && !(mails[l].target !in ms[l] && lo <= mails[l].sent <= hi)
      invariant -1 <= l < n
      invariant forall i :: l < i < n ==> !(mails[i].target !in ms[i] && lo <= mails[i].sent <= hi)
    {
      l := l - 1;
    }
  }

  /** The mail limit: in any window as long as the expiry, at most `maxMails` accounts are contacted
      for the first time, although known accounts are always allowed and refresh their time. */
  lemma MailLimit(mails: seq<Mail>, ms: seq<MailTimes>, expire: nat, maxMails: nat, t: int)
    requires IsMailRun(mails, ms, expire, maxMails)
    ensures |FirstContacts(mails, ms, t - expire, t)| <= maxMails
  {
    var f := FirstContacts(mails, ms, t - expire, t);
    var l := LastFirstContact(mails, ms, t - expire, t, |mails|);
    if l < 0 {
      assert f == {};
    } else {
      assert MailStep(ms[l], mails[l], ms[l + 1], expire, maxMails);
      var recent := Recent(ms[l], mails[l].checked - expire);
      forall x | x in f - {mails[l].target}
        ensures x in recent
      {
        var i :| 0 <= i < |mails| && mails[i].target !in ms[i] && t - expire <= mails[i].sent <= t && mails[i].target == x;
        assert i < l;
        ContactLasts(mails, ms, expire, maxMails, i, l);
      }
      SubsetSize(f - {mails[l].target}, recent);
      assert mails[l].target in f;
    }
  }

  /** The accounts mailed since `since`, by the mails themselves. */
  ghost function MailedSince(mails: seq<Mail>, since: int): (r: set<nat>) {
    set j | 0 <= j < |mails| && mails[j].sent >= since :: mails[j].target
  }

  lemma {:induction false} TimesOfMails(mails: seq<Mail>, ms: seq<MailTimes>, expire: nat, maxMails: nat, n: nat, k: nat, since: int)
    requires IsMailRun(mails, ms, expire, maxMails) && n <= |mails|
    ensures k in ms[n] <==> exists j :: 0 <= j < n && mails[j].target == k
    ensures k in ms[n] ==> (ms[n][k] >= since <==> exists j :: 0 <= j < n && mails[j].target == k && mails[j].sent >= since)
  {
    hide MayMail;
    if n > 0 {
      TimesOfMails(mails, ms, expire, maxMails, n - 1, k, since);
      assert MailStep(ms[n - 1], mails[n - 1], ms[n - 1 + 1], expire, maxMails);
    }
  }

  /** The check is exact: at any point of a run, a target is allowed if and only if it was mailed
      before, or fewer accounts than the limit were mailed within the expiry. */
  lemma MayMailExactly(mails: seq<Mail>, ms: seq<MailTimes>, expire: nat, maxMails: nat, n: nat, target: nat, now: int)
    requires IsMailRun(mails, ms, expire, maxMails) && n <= |mails|
    ensures MayMail(ms[n], target, now, expire, maxMails) <==>
            || (exists j :: 0 <= j < n && mails[j].target == target)
            || |MailedSince(mails[..n], now - expire)| < maxMails
  {
    TimesOfMails(mails, ms, expire, maxMails, n, target, now - expire);
    var a, b := Recent(ms[n], now - expire), MailedSince(mails[..n], now - expire);
    forall k: nat
      ensures k in a <==> k in b
    {
      TimesOfMails(mails, ms, expire, maxMails, n, k, now - expire);
      if j :| 0 <= j < n && mails[j].target == k && mails[j].sent >= now - expire {
        assert mails[..n][j] == mails[j];
      }
    }
    assert a == b;
  }
}
