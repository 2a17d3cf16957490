/**
 The safety gate in front of the agents: hard denials, tasks held for a human,
 and a rate limit per task type. The limiter opens a window at the first task
 after the previous window has lapsed; `AnyInterval` bounds what it lets through
 in any interval as long as a window, and `BoundIsReached` shows the bound tight.
 */
module PolicyGuard {
  import opened Prelude

  const MAX_TASKS_PER_WINDOW: nat := 50
  const RATE_WINDOW_MS: nat := 5 * 60 * 1_000
  const MAX_AUDIT_LOG: nat := 2_000

  datatype Decision = Allow | Deny | RequireHumanApproval

  datatype Policy = HardDeny | HumanApproval | RateLimit | AllPassed

  /** A task; None stands for an action that is absent or not a string. */
  datatype Task = Task(id: string, taskType: string, priority: string, action: Option<string>, treasuryDisbursement: bool)

  /** Why a decision was made: one for each message of the source, which puts it in words. */
  datatype Reason =
    | GovernanceExecution
    | ValidatorEjection
    | EmergencyHalt
    | ChainParameter
    | CriticalPriority
    | SecurityTask
    | BridgeConfiguration
    | TreasuryDisbursement
    | RateExceeded(taskType: string, count: nat)
    | ChecksPassed

  const L1_CHAIN_ID: nat := 14000101

  datatype AuditEntry = AuditEntry(
    taskId: string, taskType: string, decision: Decision, policy: Policy, reason: Reason, timestamp: int,
    chainId: nat, gasToken: string)

  datatype RateBucket = RateBucket(count: nat, windowStart: int)

  type Buckets = map<string, RateBucket>

  /** The first layer: what no agent may do. */
  function HardDenial(t: Task): Option<Reason> {
    if t.taskType == "GOVERNANCE" && t.action == Some("execute_proposal") then Some(GovernanceExecution)
    else if t.taskType == "VALIDATOR" && (t.action == Some("slash") || t.action == Some("eject")) then Some(ValidatorEjection)
    else if t.action == Some("emergency_halt") || t.action == Some("halt") then Some(EmergencyHalt)
    else if t.action == Some("set_chain_param") || t.action == Some("modify_gas_limit") then Some(ChainParameter)
    else None
  }

  /** The second layer: what a human must see. */
  function RequiresHuman(t: Task): Option<Reason> {
    if t.priority == "CRITICAL" then Some(CriticalPriority)
    else if t.taskType == "SECURITY" then Some(SecurityTask)
    else if t.taskType == "BRIDGE" && t.action == Some("update_bridge_config") then Some(BridgeConfiguration)
    else if t.treasuryDisbursement then Some(TreasuryDisbursement)
    else None
  }

  /** The tasks that come to the third layer, the rate limit. */
  predicate Ordinary(t: Task) { HardDenial(t).None? && RequiresHuman(t).None? }

  // ----- The limiter, on values -----

  predicate Lapsed(b: Buckets, taskType: string, now: int) {
    taskType !in b || now - b[taskType].windowStart > RATE_WINDOW_MS
  }

  /** The bucket a task leaves behind; it counts refused tasks too. */
  function Bump(b: Buckets, taskType: string, now: int): Buckets {
    if Lapsed(b, taskType, now) then b[taskType := RateBucket(1, now)]
    else b[taskType := b[taskType].(count := b[taskType].count + 1)]
  }

  datatype Request = Request(task: Task, now: int)

  datatype Verdict = Verdict(decision: Decision, policyId: Policy, reason: Reason)

  function Judge(b: Buckets, r: Request): Verdict {
    var (hard, human) := (HardDenial(r.task), RequiresHuman(r.task));
    if hard.Some? then Verdict(Deny, HardDeny, hard.value)
    else if human.Some? then Verdict(RequireHumanApproval, HumanApproval, human.value)
    else
      var count := Bump(b, r.task.taskType, r.now)[r.task.taskType].count;
      if count > MAX_TASKS_PER_WINDOW then Verdict(Deny, RateLimit, RateExceeded(r.task.taskType, count))
      else Verdict(Allow, AllPassed, ChecksPassed)
  }

  function After(b: Buckets, r: Request): Buckets {
    if Ordinary(r.task) then Bump(b, r.task.taskType, r.now) else b
  }

  // ----- The layers, in the tasks' own terms -----

  /** What is denied whatever else holds. */
  predicate Forbidden(t: Task) {
    || (t.taskType == "VALIDATOR" && t.action in {Some("slash"), Some("eject")})
    || (t.taskType == "GOVERNANCE" && t.action == Some("execute_proposal"))
    || t.action in {Some("halt"), Some("emergency_halt"), Some("set_chain_param"), Some("modify_gas_limit")}
  }

  /** What waits for a human unless it is denied. */
  predicate Sensitive(t: Task) {
    || t.priority == "CRITICAL" || t.taskType == "SECURITY" || t.treasuryDisbursement
    || (t.taskType == "BRIDGE" && t.action == Some("update_bridge_config"))
  }

  /** A forbidden task is denied in every state, and does not reach the limiter. */
  lemma ForbiddenIsDenied(b: Buckets, r: Request)
    requires Forbidden(r.task)
    ensures Judge(b, r).decision == Deny && Judge(b, r).policyId == HardDeny && After(b, r) == b
  {
  }

  /** Which prohibition is named: the special ones first. */
  lemma DenialReasons(b: Buckets, r: Request)
    requires Forbidden(r.task)
    ensures var (t, why) := (r.task, Judge(b, r).reason);
            && (t.action == Some("execute_proposal") ==> why == GovernanceExecution)
            && (t.action in {Some("slash"), Some("eject")} ==> why == ValidatorEjection)
            && (t.action in {Some("halt"), Some("emergency_halt")} ==> why == EmergencyHalt)
            && (t.action in {Some("set_chain_param"), Some("modify_gas_limit")} ==> why == ChainParameter)
  {
  }

  /** A sensitive task waits for a human in every state, unless it is denied; it is never allowed and never counted. */
  lemma SensitiveIsHeld(b: Buckets, r: Request)
    requires Sensitive(r.task)
    ensures Judge(b, r).decision == (if Forbidden(r.task) then Deny else RequireHumanApproval) && After(b, r) == b
    ensures !Forbidden(r.task) ==> Judge(b, r).policyId == HumanApproval
    ensures !Forbidden(r.task) ==>
      Judge(b, r).reason == if r.task.priority == "CRITICAL" then CriticalPriority
                            else if r.task.taskType == "SECURITY" then SecurityTask
                            else if r.task.taskType == "BRIDGE" && r.task.action == Some("update_bridge_config") then BridgeConfiguration
                            else TreasuryDisbursement
  {
  }

  /**
   Any other task is denied only by the limiter: it is allowed if its type has no
   window, or one that began more than five minutes ago, or one with fewer than
   50 tasks in it so far.
   */
  lemma OthersAreLimited(b: Buckets, r: Request)
    requires !Forbidden(r.task) && !Sensitive(r.task)
    ensures var (ty, v) := (r.task.taskType, Judge(b, r));
            var fresh' := ty !in b || r.now > b[ty].windowStart + 300_000;
            if fresh' || b[ty].count < 50 then v == Verdict(Allow, AllPassed, ChecksPassed)
            else v == Verdict(Deny, RateLimit, RateExceeded(ty, b[ty].count + 1))
  {
  }

  /** What the limiter remembers of it: a new window from now on, or one task more in the old one. */
  lemma OthersAreCounted(b: Buckets, r: Request, ty: string)
    requires !Forbidden(r.task) && !Sensitive(r.task)
    ensures ty != r.task.taskType ==> SameBucket(b, After(b, r), ty)
    ensures ty == r.task.taskType ==>
      && ty in After(b, r)
      && (ty !in b || r.now > b[ty].windowStart + 300_000 ==> After(b, r)[ty] == RateBucket(1, r.now))
      && (ty in b && r.now <= b[ty].windowStart + 300_000 ==>
        After(b, r)[ty] == RateBucket(b[ty].count + 1, b[ty].windowStart))
  {
  }

  // ----- Grants -----

  /** An allowed task of one type: when, and in the window opened when. */
  datatype Grant = Grant(time: int, start: int)

  function Granted(b: Buckets, r: Request, taskType: string): seq<Grant> {
    if r.task.taskType == taskType && Judge(b, r).decision.Allow?
    then [Grant(r.now, After(b, r)[taskType].windowStart)] else []
  }

  function Grants(b: Buckets, rs: seq<Request>, taskType: string): seq<Grant>
    decreases |rs|
  {
    if rs == [] then [] else Granted(b, rs[0], taskType) + Grants(After(b, rs[0]), rs[1..], taskType)
  }

  /** How many grants belong to the window opened at s. */
  function InWindow(gs: seq<Grant>, s: int): nat {
    if gs == [] then 0 else (if gs[0].start == s then 1 else 0) + InWindow(gs[1..], s)
  }

  /** How many of them came after it was opened. */
  function LateIn(gs: seq<Grant>, s: int): nat {
    if gs == [] then 0 else (if gs[0].start == s && gs[0].time > s then 1 else 0) + LateIn(gs[1..], s)
  }

  /** How many grants fall in the closed interval of a window's length that begins at x. */
  function InInterval(gs: seq<Grant>, x: int): nat {
    if gs == [] then 0
    else (if x <= gs[0].time <= x + RATE_WINDOW_MS then 1 else 0) + InInterval(gs[1..], x)
  }

  predicate NotBefore(rs: seq<Request>, now: int)
    decreases |rs|
  {
    rs == [] || (now <= rs[0].now && NotBefore(rs[1..], rs[0].now))
  }

  /** Grants lie in their windows, and windows follow one another without overlap. */
  ghost predicate Windowed(gs: seq<Grant>) {
    && (forall i :: 0 <= i < |gs| ==> gs[i].start <= gs[i].time <= gs[i].start + RATE_WINDOW_MS)
    && (forall i, j :: 0 <= i < j < |gs| ==> Follows(gs[i].start, gs[j].start))
  }

  predicate Follows(s: int, t: int) { s == t || s + RATE_WINDOW_MS < t }

  /** All that the rest of a run can still grant, given the bucket it starts from. */
  ghost predicate Bounded(gs: seq<Grant>, b: Buckets, taskType: string) {
    && Windowed(gs)
    && (forall s :: InWindow(gs, s) <= MAX_TASKS_PER_WINDOW && LateIn(gs, s) < MAX_TASKS_PER_WINDOW)
    && (taskType in b ==>
      var (c, s) := (b[taskType].count, b[taskType].windowStart);
      && (forall i :: 0 <= i < |gs| ==> Follows(s, gs[i].start))
      && InWindow(gs, s) + c <= (if c > MAX_TASKS_PER_WINDOW then c else MAX_TASKS_PER_WINDOW))
  }

  ghost predicate Opened(b: Buckets, taskType: string, now: int) {
    taskType in b ==> b[taskType].count >= 1 && b[taskType].windowStart <= now
  }

  lemma {:induction false} NoneInWindow(gs: seq<Grant>, s: int)
    requires forall i :: 0 <= i < |gs| ==> gs[i].start != s
    ensures InWindow(gs, s) == 0 && LateIn(gs, s) == 0
  {
    if gs != [] { NoneInWindow(gs[1..], s); }
  }

  lemma {:induction false} LateIsInWindow(gs: seq<Grant>, s: int)
    ensures LateIn(gs, s) <= InWindow(gs, s)
  {
    if gs != [] { LateIsInWindow(gs[1..], s); }
  }

  /** One grant more in front of a bounded rest. */
  lemma GrantInFront(b: Buckets, r: Request, taskType: string, rest: seq<Grant>)
    requires r.task.taskType == taskType && Opened(b, taskType, r.now)
    requires Judge(b, r).decision.Allow? && Bounded(rest, After(b, r), taskType)
    ensures Bounded(Granted(b, r, taskType) + rest, b, taskType)
  {
    hide HardDenial, RequiresHuman;
    var b' := After(b, r)[taskType];
    var g := Grant(r.now, b'.windowStart);
    var gs := [g] + rest;
    assert gs[1..] == rest;
    forall s
      ensures InWindow(gs, s) <= MAX_TASKS_PER_WINDOW && LateIn(gs, s) < MAX_TASKS_PER_WINDOW
    {
      LateIsInWindow(rest, s);
    }
    if taskType in b && Lapsed(b, taskType, r.now) {
      NoneInWindow(gs, b[taskType].windowStart);
    }
  }

  /** What a run grants is bounded. */
  lemma {:induction false} GrantsBounded(b: Buckets, rs: seq<Request>, taskType: string, now: int)
    requires NotBefore(rs, now) && Opened(b, taskType, now)
    ensures Bounded(Grants(b, rs, taskType), b, taskType)
    decreases |rs|
  {
    hide HardDenial, RequiresHuman;
    if rs != [] {
      var (r, b') := (rs[0], After(b, rs[0]));
      var rest := Grants(b', rs[1..], taskType);
      GrantsBounded(b', rs[1..], taskType, r.now);
      if r.task.taskType == taskType && Judge(b, r).decision.Allow? {
        GrantInFront(b, r, taskType, rest);
      } else {
        assert [] + rest == rest;
      }
    }
  }

  // ----- Any interval as long as a window -----

  predicate Within(g: Grant, x: int) { x <= g.time <= x + RATE_WINDOW_MS }

  /** Two windows that hold every grant of an interval, the first one late only, bound them. */
  lemma {:induction false} TwoWindows(gs: seq<Grant>, x: int, a: int, b: int)
    requires forall i :: 0 <= i < |gs| && Within(gs[i], x) ==> gs[i].start == b || (gs[i].start == a && gs[i].time > a)
    ensures InInterval(gs, x) <= LateIn(gs, a) + InWindow(gs, b)
  {
    if gs != [] {
      TwoWindows(gs[1..], x, a, b);
      assert Within(gs[0], x) ==> gs[0].start == b || (gs[0].start == a && gs[0].time > a);
    }
  }

  /** An interval meets at most two windows, and of the earlier one only late grants. */
  lemma InTwoWindows(gs: seq<Grant>, x: int) returns (a: int, b: int)
    requires Windowed(gs)
    ensures forall i :: 0 <= i < |gs| && Within(gs[i], x) ==> gs[i].start == b || (gs[i].start == a && gs[i].time > a)
  {
    if i, j :| 0 <= i < |gs| && 0 <= j < |gs| && Within(gs[i], x) && Within(gs[j], x) && gs[i].start < gs[j].start {
      a, b := gs[i].start, gs[j].start;
      assert a < x;
    } else if i :| 0 <= i < |gs| && Within(gs[i], x) {
      a, b := gs[i].start, gs[i].start;
    } else {
      a, b := 0, 0;
    }
  }

  /**
   In every run from no buckets, with a clock that never goes back: a window
   holds at most the maximum for each type, and any interval as long as a
   window fewer than twice as many.
   */
  lemma AnyInterval(rs: seq<Request>, taskType: string, now: int, x: int)
    requires NotBefore(rs, now)
    ensures InInterval(Grants(map[], rs, taskType), x) < 2 * MAX_TASKS_PER_WINDOW
    ensures forall s :: InWindow(Grants(map[], rs, taskType), s) <= MAX_TASKS_PER_WINDOW
  {
    var gs := Grants(map[], rs, taskType);
    GrantsBounded(map[], rs, taskType, now);
    var a, b := InTwoWindows(gs, x);
    TwoWindows(gs, x, a, b);
  }

  // ----- The bound is tight -----

  const BURST: nat := 2 * MAX_TASKS_PER_WINDOW

  /** One task opens a window, 49 use it up as it ends, and 50 more open the next a millisecond later. */
  function Bursts(t: Task): seq<Request> {
    seq(BURST, i => Request(t, if i == 0 then 0 else if i < MAX_TASKS_PER_WINDOW then RATE_WINDOW_MS else RATE_WINDOW_MS + 1))
  }

  lemma {:induction false} BurstsFrom(t: Task, b: Buckets, k: nat)
    requires Ordinary(t) && 1 <= k <= BURST && t.taskType in b
    requires b[t.taskType] == if k <= MAX_TASKS_PER_WINDOW then RateBucket(k, 0)
                              else RateBucket(k - MAX_TASKS_PER_WINDOW, RATE_WINDOW_MS + 1)
    ensures InInterval(Grants(b, Bursts(t)[k..], t.taskType), 1) == BURST - k
    ensures NotBefore(Bursts(t)[k..], if k <= MAX_TASKS_PER_WINDOW then RATE_WINDOW_MS else RATE_WINDOW_MS + 1)
    decreases BURST - k
  {
    hide HardDenial, RequiresHuman;
    if k < BURST {
      var (rs, r) := (Bursts(t)[k..], Bursts(t)[k]);
      assert rs[0] == r && rs[1..] == Bursts(t)[k + 1..];
      BurstsFrom(t, After(b, r), k + 1);
      var rest := Grants(After(b, r), rs[1..], t.taskType);
      var g := Grant(r.now, After(b, r)[t.taskType].windowStart);
      assert Granted(b, r, t.taskType) == [g];
      assert ([g] + rest)[1..] == rest;
    }
  }

  /** For every type the limiter lets one short of twice the maximum through some interval. */
  lemma BoundIsReached(t: Task)
    requires Ordinary(t)
    ensures NotBefore(Bursts(t), 0)
    ensures InInterval(Grants(map[], Bursts(t), t.taskType), 1) == 2 * MAX_TASKS_PER_WINDOW - 1
  {
    hide HardDenial, RequiresHuman;
    var (rs, r) := (Bursts(t), Bursts(t)[0]);
    var b := After(map[], r);
    BurstsFrom(t, b, 1);
    var rest := Grants(b, rs[1..], t.taskType);
    assert Granted(map[], r, t.taskType) == [Grant(0, 0)];
    assert ([Grant(0, 0)] + rest)[1..] == rest;
  }

  // ----- Types do not disturb one another -----

  function Only(rs: seq<Request>, taskType: string): seq<Request>
    decreases |rs|
  {
    if rs == [] then []
    else (if rs[0].task.taskType == taskType then [rs[0]] else []) + Only(rs[1..], taskType)
  }

  predicate SameBucket(b: Buckets, c: Buckets, taskType: string) {
    (taskType in b <==> taskType in c) && (taskType in b ==> b[taskType] == c[taskType])
  }

  /** A task changes nothing for another type, and the same for its own. */
  lemma TypeStep(b: Buckets, c: Buckets, r: Request, taskType: string)
    requires SameBucket(b, c, taskType)
    ensures Granted(b, r, taskType) == if r.task.taskType == taskType then Granted(c, r, taskType) else []
    ensures SameBucket(After(b, r), if r.task.taskType == taskType then After(c, r) else c, taskType)
  {
    hide HardDenial, RequiresHuman;
  }

  /** What a type is granted depends on the tasks of that type alone. */
  lemma {:induction false} TypesIndependent(b: Buckets, c: Buckets, rs: seq<Request>, taskType: string)
    requires SameBucket(b, c, taskType)
    ensures Grants(b, rs, taskType) == Grants(c, Only(rs, taskType), taskType)
    decreases |rs|
  {
    hide Granted, After, SameBucket;
    if rs != [] {
      var (r, own) := (rs[0], Only(rs[1..], taskType));
      TypeStep(b, c, r, taskType);
      if r.task.taskType == taskType {
        assert ([r] + own)[1..] == own;
        TypesIndependent(After(b, r), After(c, r), rs[1..], taskType);
      } else {
        assert [] + own == own;
        TypesIndependent(After(b, r), c, rs[1..], taskType);
      }
    }
  }

  // ----- The audit log -----

  function Recorded(t: Task, v: Verdict, now: int): AuditEntry {
    AuditEntry(t.id, t.taskType, v.decision, v.policyId, v.reason, now / 1000, L1_CHAIN_ID, "GST")
  }

  function Entry(b: Buckets, r: Request): AuditEntry {
    Recorded(r.task, Judge(b, r), r.now)
  }

  function Final(b: Buckets, rs: seq<Request>): Buckets
    decreases |rs|
  {
    if rs == [] then b else Final(After(b, rs[0]), rs[1..])
  }

  /** The entry of every request of a run. */
  function Entries(b: Buckets, rs: seq<Request>): (es: seq<AuditEntry>)
    ensures |es| == |rs|
    decreases |rs|
  {
    if rs == [] then [] else [Entry(b, rs[0])] + Entries(After(b, rs[0]), rs[1..])
  }

  lemma {:induction false} OneMore(b: Buckets, rs: seq<Request>, r: Request)
    ensures Final(b, rs + [r]) == After(Final(b, rs), r)
    ensures Entries(b, rs + [r]) == Entries(b, rs) + [Entry(Final(b, rs), r)]
    decreases |rs|
  {
    if rs == [] {
      assert [r][1..] == [];
    } else {
      assert (rs + [r])[1..] == rs[1..] + [r];
      OneMore(After(b, rs[0]), rs[1..], r);
    }
  }

  /** The most recent entries, as many as the log keeps. */
  function Recent(es: seq<AuditEntry>): seq<AuditEntry> {
    if |es| <= MAX_AUDIT_LOG then es else es[|es| - MAX_AUDIT_LOG..]
  }

  lemma Layers(b: Buckets, r: Request)
    ensures Forbidden(r.task) ==> Judge(b, r).decision == Deny
    ensures Sensitive(r.task) && !Forbidden(r.task) ==> Judge(b, r).decision == RequireHumanApproval
    ensures !Forbidden(r.task) && !Sensitive(r.task) ==> Judge(b, r).decision == Allow || Judge(b, r).policyId == RateLimit
  {
    hide Judge, Forbidden, Sensitive;
    if Forbidden(r.task) {
      ForbiddenIsDenied(b, r);
    } else if Sensitive(r.task) {
      SensitiveIsHeld(b, r);
    } else {
      OthersAreLimited(b, r);
    }
  }

  /** The entry of a request, in any run: what was decided in the state it met, and when. */
  lemma {:induction false} EntryOf(b: Buckets, rs: seq<Request>, i: nat)
    requires i < |rs|
    ensures Entries(b, rs)[i] == Entry(Final(b, rs[..i]), rs[i])
    decreases |rs|
  {
    hide Entry, After;
    if i == 0 {
      assert rs[..0] == [];
    } else {
      assert rs[..i][1..] == rs[1..][..i - 1];
      EntryOf(After(b, rs[0]), rs[1..], i - 1);
    }
  }

  /** In no run is a forbidden or sensitive task allowed, and the log says whose task it was, of what type and when. */
  lemma NeverAllowed(b: Buckets, rs: seq<Request>, i: nat)
    requires i < |rs|
    ensures var (e, t) := (Entries(b, rs)[i], rs[i].task);
            && (Forbidden(t) ==> e.decision == Deny)
            && (Sensitive(t) && !Forbidden(t) ==> e.decision == RequireHumanApproval)
            && (!Forbidden(t) && !Sensitive(t) && e.decision != Allow ==> e.decision == Deny && e.policy == RateLimit)
            && e.taskId == t.id && e.taskType == t.taskType && e.timestamp == rs[i].now / 1000
            && e.chainId == 14000101 && e.gasToken == "GST"
  {
    EntryOf(b, rs, i);
    var (was, r) := (Final(b, rs[..i]), rs[i]);
    hide Judge, Final, Entries, Forbidden, Sensitive;
    if Forbidden(r.task) {
      ForbiddenIsDenied(was, r);
    } else if Sensitive(r.task) {
      SensitiveIsHeld(was, r);
    } else {
      OthersAreLimited(was, r);
    }
  }

  /** The log keeps the last 2000 entries, in order. */
  lemma RecentIsLast(es: seq<AuditEntry>)
    ensures |Recent(es)| == if |es| < 2000 then |es| else 2000
    ensures forall i :: 0 <= i < |Recent(es)| ==> Recent(es)[i] == es[|es| - |Recent(es)| + i]
  {
  }

  lemma RecentNext(es: seq<AuditEntry>, e: AuditEntry)
    ensures |Recent(es)| <= MAX_AUDIT_LOG && Recent(Recent(es) + [e]) == Recent(es + [e])
  {
  }

  // ----- The guard object -----

  datatype PolicyResult = PolicyResult(decision: Decision, reason: Reason, policyId: Policy, evaluatedAt: int)

  class Bucket {
    ghost const taskType: string
    var count: nat
    var windowStart: int

    constructor (taskType: string, count: nat, windowStart: int)
      ensures this.taskType == taskType && Value() == RateBucket(count, windowStart)
    {
      this.taskType, this.count, this.windowStart := taskType, count, windowStart;
    }

    function Value(): RateBucket
      reads this
    {
      RateBucket(count, windowStart)
    }
  }

  class PolicyGuard {
    var auditLog: seq<AuditEntry>
    var rateBuckets: map<string, Bucket>
    ghost var buckets: Buckets
    ghost var history: seq<Request>
    ghost var owned: set<Bucket>

    /** The limiter's buckets, no two types sharing one. */
    ghost predicate Limiter()
      reads `rateBuckets, `buckets, `owned, owned
    {
      && rateBuckets.Keys == buckets.Keys
      && forall ty :: ty in rateBuckets ==>
        rateBuckets[ty] in owned && rateBuckets[ty].taskType == ty && rateBuckets[ty].Value() == buckets[ty]
    }

    /** The object is where its history of requests leads, and the log keeps the latest entries. */
    ghost predicate Valid()
      reads this, owned
    {
      Limiter() && buckets == Final(map[], history) && auditLog == Recent(Entries(map[], history))
    }

    constructor ()
      ensures Valid() && owned == {} && history == []
    {
      auditLog, rateBuckets := [], map[];
      buckets, history, owned := map[], [], {};
    }

    /** Counts a task that reached the limiter; answers why it may not pass. */
    method RateCheck(task: Task, now: int) returns (excess: Option<Reason>)
      requires Limiter()
      modifies `rateBuckets, `buckets, `owned, if task.taskType in rateBuckets then {rateBuckets[task.taskType]} else {}
      ensures Limiter() && fresh(owned - old(owned))
      ensures buckets == Bump(old(buckets), task.taskType, now)
      ensures var count := buckets[task.taskType].count;
              excess == if count > MAX_TASKS_PER_WINDOW then Some(RateExceeded(task.taskType, count)) else None
    {
      var ty := task.taskType;
      ghost var was := buckets;
      if ty !in rateBuckets || now - rateBuckets[ty].windowStart > RATE_WINDOW_MS {
        var fresh' := new Bucket(ty, 1, now);
        rateBuckets := rateBuckets[ty := fresh'];
        owned := owned + {fresh'};
        buckets := Bump(was, ty, now);
        return None;
      }
      var bucket := rateBuckets[ty];
      assert forall u :: u in rateBuckets && u != ty ==> rateBuckets[u] != bucket;
      bucket.count := bucket.count + 1;
      buckets := Bump(was, ty, now);
      return if bucket.count > MAX_TASKS_PER_WINDOW then Some(RateExceeded(ty, bucket.count)) else None;
    }

    /** Logs a decision and answers with it; the oldest entry goes when the log is full. */
    method Emit(task: Task, v: Verdict, now: int) returns (r: PolicyResult)
      requires |auditLog| <= MAX_AUDIT_LOG
      modifies `auditLog
      ensures r == PolicyResult(v.decision, v.reason, v.policyId, now / 1000)
      ensures auditLog == Recent(old(auditLog) + [Recorded(task, v, now)])
    {
      var entry := Recorded(task, v, now);
      auditLog := auditLog + [entry];
      if |auditLog| > MAX_AUDIT_LOG { auditLog := auditLog[1..]; }
      return PolicyResult(v.decision, v.reason, v.policyId, entry.timestamp);
    }

    /** What the guard's invariant says. */
    lemma Parts(taskType: string)
      requires Valid()
      ensures Limiter() && (taskType in rateBuckets ==> rateBuckets[taskType] in owned)
      ensures buckets == Final(map[], history) && auditLog == Recent(Entries(map[], history))
      ensures |auditLog| <= MAX_AUDIT_LOG
    {
    }

    /** And how one more request restores it. */
    lemma Whole(h: seq<Request>, request: Request, log: seq<AuditEntry>)
      requires Limiter() && history == h + [request] && buckets == After(Final(map[], h), request)
      requires log == Recent(Entries(map[], h)) && auditLog == Recent(log + [Entry(Final(map[], h), request)])
      ensures Valid()
    {
      hide Limiter, Final, Entries, Recent, Entry, After;
      OneMore(map[], h, request);
      RecentNext(Entries(map[], h), Entry(Final(map[], h), request));
    }

    method Check(task: Task, now: int) returns (r: PolicyResult)
      requires Valid()
      modifies this, owned
      ensures Valid() && fresh(owned - old(owned))
      ensures history == old(history) + [Request(task, now)]
      ensures Verdict(r.decision, r.policyId, r.reason) == Judge(Final(map[], old(history)), Request(task, now))
      ensures r.evaluatedAt == now / 1000
      ensures Forbidden(task) ==> r.decision == Deny
      ensures Sensitive(task) && !Forbidden(task) ==> r.decision == RequireHumanApproval
      ensures !Forbidden(task) && !Sensitive(task) ==> r.decision == Allow || r.policyId == RateLimit
    {
      Layers(Final(map[], history), Request(task, now));
      hide Valid, Forbidden, Sensitive, Limiter, Final, Entries, Recent, Judge, After, Recorded;
      Parts(task.taskType);
      var v := Decide(task, now);
      r := Emit(task, v, now);
      history := history + [Request(task, now)];
      Whole(old(history), Request(task, now), old(auditLog));
    }

    /** The layers in order; only the last one changes anything. */
    method Decide(task: Task, now: int) returns (v: Verdict)
      requires Limiter()
      modifies `rateBuckets, `buckets, `owned, if task.taskType in rateBuckets then {rateBuckets[task.taskType]} else {}
      ensures Limiter() && fresh(owned - old(owned))
      ensures buckets == After(old(buckets), Request(task, now))
      ensures v == Judge(old(buckets), Request(task, now))
    {
      hide Limiter, HardDenial, RequiresHuman;
      var hard := HardDenial(task);
      if hard.Some? { return Verdict(Deny, HardDeny, hard.value); }
      var human := RequiresHuman(task);
      if human.Some? { return Verdict(RequireHumanApproval, HumanApproval, human.value); }
      var excess := RateCheck(task, now);
      if excess.Some? { return Verdict(Deny, RateLimit, excess.value); }
      return Verdict(Allow, AllPassed, ChecksPassed);
    }
  }
}
