// The agent's reconnect loop: one turn is one pass through the loop body, in an environment that may
// rewrite the identity file and renew the held identity at any time.
module Agent {
  import opened Backoff
  import opened Numbers
  import opened Wrappers

  // notAfter is None for a certificate that does not parse.
  datatype Identity = Identity(nodeId: string, cert: string, notAfter: Option<int>)

  predicate Expired(id: Identity, now: int) {
    id.notAfter.None? || now >= id.notAfter.value
  }

  // What the environment does in one turn. A disk content of None is an identity file that cannot be
  // read. The wall-clock readings are not assumed to be in order.
  datatype Turn = Turn(
    cancelledBefore: bool,
    lateRenewal: Option<Identity>,
    checkedAt: int,
    disk: Option<Identity>,
    diskReadAt: int,
    authRejected: bool,
    renewed: Option<Identity>,
    cancelledAfter: bool,
    endedAt: int,
    diskThen: Option<Identity>,
    diskThenReadAt: int,
    sessionLasted: int,
    rnd: int -> int,
    cancelledInWait: bool)

  ghost predicate Plausible(t: Turn) {
    t.sessionLasted >= 0 && IsRandom(t.rnd)
  }

  datatype Exit = Stop | Skip | Wait(wait: int)

  // What a turn did: the identity it dialled with, whether it took one over from disk before or after
  // the session, and how it ended.
  datatype Report = Report(dialed: Option<Identity>, adoptedBefore: bool, adoptedAfter: bool, exit: Exit)

  datatype State = State(held: Identity, delay: int)

  predicate Adoptable(held: Identity, disk: Option<Identity>, now: int) {
    disk.Some? && !Expired(disk.value, now) && disk.value.cert != held.cert
  }

  const IDLE := Report(None, false, false, Stop)

  function Or(change: Option<Identity>, held: Identity): Identity {
    if change.Some? then change.value else held
  }

  // One turn of the loop, as a function.
  ghost function Step(s: State, t: Turn): (State, Report)
    requires Plausible(t)
  {
    var held := Or(t.lateRenewal, s.held);
    if t.cancelledBefore then (State(held, s.delay), IDLE)
    else
      var adopted := Expired(held, t.checkedAt) && Adoptable(held, t.disk, t.diskReadAt);
      var dials := !Expired(held, t.checkedAt) || adopted;
      var dialing := if adopted then t.disk.value else held;
      var delay := if dials then s.delay else MAX_DELAY;
      var after := if dials then Or(t.renewed, dialing) else dialing;
      var dialed := if dials then Some(dialing) else None;
      if t.cancelledAfter then (State(after, delay), Report(dialed, adopted, false, Stop))
      else if
        ((dials && t.authRejected) || Expired(after, t.endedAt)) && Adoptable(after, t.diskThen, t.diskThenReadAt)
      then
        (State(t.diskThen.value, BASE_DELAY), Report(dialed, adopted, true, Skip))
      else
        var (wait, next) := NextReconnect(delay, t.sessionLasted, t.rnd);
        (State(after, next), Report(dialed, adopted, false, if t.cancelledInWait then Stop else Wait(wait)))
  }

  class ReconnectLoop {
    var held: Identity
    var delay: int

    constructor (id: Identity)
      ensures held == id && delay == BASE_DELAY == 1_000_000_000
    {
      held, delay := id, BASE_DELAY;
    }

    method AdoptIdentityFromDisk(onDisk: Option<Identity>, now: int) returns (adopted: bool)
      modifies this`held
      ensures adopted <==> Adoptable(old(held), onDisk, now)
      ensures held == if adopted then onDisk.value else old(held)
    {
      if onDisk.None? || Expired(onDisk.value, now) || onDisk.value.cert == held.cert {
        return false;
      }
      held := onDisk.value;
      return true;
    }

    method TurnOnce(t: Turn) returns (report: Report)
      requires Plausible(t)
      modifies this
      ensures (State(held, delay), report) == Step(State(old(held), old(delay)), t)
    {
      if t.lateRenewal.Some? {
        held := t.lateRenewal.value;
      }
      if t.cancelledBefore {
        return IDLE;
      }
      var adoptedBefore := false;
      var dialed := None;
      var rejected := false;
      var expired := Expired(held, t.checkedAt);
      if expired {
        adoptedBefore := AdoptIdentityFromDisk(t.disk, t.diskReadAt);
      }
      if expired && !adoptedBefore {
        delay := MAX_DELAY;
      } else {
        dialed := Some(held);
        rejected := t.authRejected;
        if t.renewed.Some? {
          held := t.renewed.value;
        }
      }
      if t.cancelledAfter {
        return Report(dialed, adoptedBefore, false, Stop);
      }
      if rejected || Expired(held, t.endedAt) {
        var adoptedAfter := AdoptIdentityFromDisk(t.diskThen, t.diskThenReadAt);
        if adoptedAfter {
          delay := BASE_DELAY;
          return Report(dialed, adoptedBefore, true, Skip);
        }
      }
      var (wait, next) := NextReconnect(delay, t.sessionLasted, t.rnd);
      delay := next;
      report := Report(dialed, adoptedBefore, false, if t.cancelledInWait then Stop else Wait(wait));
    }

    // Runs until it is told to stop or the script ends; every prefix of an endless run is such a script.
    method Loop(script: seq<Turn>) returns (reports: seq<Report>)
      requires forall t | t in script :: Plausible(t)
      modifies this
      ensures (State(held, delay), reports) == Run(State(old(held), old(delay)), script)
    {
      reports := [];
      ghost var start := State(held, delay);
      assert script[0..] == script;
      assert [] + Run(start, script).1 == Run(start, script).1;
      for i := 0 to |script|
        invariant Run(start, script) == Then(reports, Run(State(held, delay), script[i..]))
      {
        ghost var before := State(held, delay);
        var report := TurnOnce(script[i]);
        assert script[i..][0] == script[i] && script[i..][1..] == script[i + 1..];
        assert Run(before, script[i..]) ==
               if report.exit.Stop? then (State(held, delay), [report])
               else Then([report], Run(State(held, delay), script[i + 1..]));
        assert forall rest: seq<Report> :: reports + ([report] + rest) == (reports + [report]) + rest;
        reports := reports + [report];
        if report.exit.Stop? {
          return;
        }
      }
      assert script[|script|..] == [] && reports + [] == reports;
    }
  }

  function Then(reports: seq<Report>, rest: (State, seq<Report>)): (State, seq<Report>) {
    (rest.0, reports + rest.1)
  }

  ghost function Run(s: State, script: seq<Turn>): (State, seq<Report>)
    requires forall t | t in script :: Plausible(t)
    decreases |script|
  {
    if |script| == 0 then (s, [])
    else
      var (s', report) := Step(s, script[0]);
      if report.exit.Stop? then (s', [report])
      else
        Then([report], Run(s', script[1..]))
  }

  // ---- No busy loop ----

  function Count(b: bool): nat {
    if b then 1 else 0
  }

  // The disk holds a certificate the agent does not.
  predicate Unsettled(held: Identity, disk: Option<Identity>) {
    disk.Some? && disk.value.cert != held.cert
  }

  // Changes made from outside during a turn, when the disk held `disk` before it.
  function Changes(disk: Option<Identity>, t: Turn): nat {
    Count(t.lateRenewal.Some?) + Count(t.disk != disk) + Count(t.renewed.Some?) + Count(t.diskThen != t.disk)
  }

  function AllChanges(disk: Option<Identity>, script: seq<Turn>): nat
    decreases |script|
  {
    if |script| == 0 then 0 else Changes(disk, script[0]) + AllChanges(script[0].diskThen, script[1..])
  }

  function Adoptions(reports: seq<Report>): nat {
    if |reports| == 0 then 0
    else Count(reports[0].adoptedBefore) + Count(reports[0].adoptedAfter) + Adoptions(reports[1..])
  }

  function Skips(reports: seq<Report>): nat {
    if |reports| == 0 then 0 else Count(reports[0].exit.Skip?) + Skips(reports[1..])
  }

  lemma StepAdopts(s: State, t: Turn, disk: Option<Identity>)
    requires Plausible(t)
    ensures var (s', report) := Step(s, t);
            Count(report.adoptedBefore) + Count(report.adoptedAfter) + Count(Unsettled(s'.held, t.diskThen))
            <= Count(Unsettled(s.held, disk)) + Changes(disk, t)
  {
  }

  lemma {:induction false} RunAdopts(s: State, script: seq<Turn>, disk: Option<Identity>)
    requires forall t | t in script :: Plausible(t)
    ensures Adoptions(Run(s, script).1) <= Count(Unsettled(s.held, disk)) + AllChanges(disk, script)
    decreases |script|
  {
    if |script| > 0 {
      StepAdopts(s, script[0], disk);
      var (s', report) := Step(s, script[0]);
      var reports := Run(s, script).1;
      if report.exit.Stop? {
        assert reports[1..] == [];
      } else {
        RunAdopts(s', script[1..], script[0].diskThen);
        assert reports[1..] == Run(s', script[1..]).1;
      }
    }
  }

  lemma {:induction false} SkipsAreAdoptions(s: State, script: seq<Turn>)
    requires forall t | t in script :: Plausible(t)
    ensures Skips(Run(s, script).1) <= Adoptions(Run(s, script).1)
    decreases |script|
  {
    if |script| > 0 {
      var (s', report) := Step(s, script[0]);
      var reports := Run(s, script).1;
      if report.exit.Stop? {
        assert reports[1..] == [];
      } else {
        SkipsAreAdoptions(s', script[1..]);
        assert reports[1..] == Run(s', script[1..]).1;
      }
    }
  }

  // Turns that go round without waiting are paid for by changes from outside, but for one.
  lemma NoBusyLoop(s: State, script: seq<Turn>, disk: Option<Identity>)
    requires forall t | t in script :: Plausible(t)
    ensures Skips(Run(s, script).1) <= 1 + AllChanges(disk, script)
  {
    RunAdopts(s, script, disk);
    SkipsAreAdoptions(s, script);
  }

  // ---- Rate ----

  function WaitOf(report: Report): int {
    if report.exit.Wait? then report.exit.wait else 0
  }

  // The time the first |reports| turns take at least: their sessions and their waits.
  function Elapsed(script: seq<Turn>, reports: seq<Report>): int
    requires |reports| <= |script|
  {
    if |reports| == 0 then 0
    else script[0].sessionLasted + WaitOf(reports[0]) + Elapsed(script[1..], reports[1..])
  }

  lemma {:induction false} RunLength(s: State, script: seq<Turn>)
    requires forall t | t in script :: Plausible(t)
    ensures |Run(s, script).1| <= |script|
    decreases |script|
  {
    if |script| > 0 {
      var (s', report) := Step(s, script[0]);
      if !report.exit.Stop? {
        RunLength(s', script[1..]);
      }
    }
  }

  lemma StepPays(s: State, t: Turn)
    requires Plausible(t) && OnLadder(s.delay)
    ensures var (s', report) := Step(s, t);
            && OnLadder(s'.delay)
            && (report.exit.Wait? ==> BASE_DELAY <= report.exit.wait <= Seconds(45))
            && (!report.exit.Stop? ==>
                t.sessionLasted + WaitOf(report) + Debt(s'.delay) + Seconds(77 * Count(report.exit.Skip?))
                >= Seconds(18) + Debt(s.delay))
  {
    AttemptPays(s.delay, t.sessionLasted, t.rnd);
    AttemptPays(MAX_DELAY, t.sessionLasted, t.rnd);
  }

  // A run that does not stop in its first turn goes on from there.
  lemma RunOn(s: State, script: seq<Turn>)
    requires forall t | t in script :: Plausible(t)
    requires |script| > 0 && !Step(s, script[0]).1.exit.Stop?
    ensures var (s', report) := Step(s, script[0]);
            var (end, rest) := Run(s', script[1..]);
            && Run(s, script) == (end, [report] + rest)
            && Run(s, script).1[0] == report && Run(s, script).1[1..] == rest
  {
  }

  lemma {:induction false} RunPays(s: State, script: seq<Turn>)
    requires forall t | t in script :: Plausible(t)
    requires OnLadder(s.delay)
    ensures var (end, reports) := Run(s, script);
            && OnLadder(end.delay)
            && |reports| <= |script|
            && Elapsed(script, reports) + Seconds(77 * Skips(reports))
               >= Seconds(18 * (|reports| - 1)) - Seconds(59) + Debt(s.delay)
            && (|reports| > 0 && !reports[|reports| - 1].exit.Stop? ==>
                Elapsed(script, reports) + Seconds(77 * Skips(reports)) + Debt(end.delay)
                >= Seconds(18 * |reports|) + Debt(s.delay))
    decreases |script|
  {
    if |script| > 0 {
      var (s', report) := Step(s, script[0]);
      var reports := Run(s, script).1;
      StepPays(s, script[0]);
      if report.exit.Stop? {
        assert reports[1..] == [];
      } else {
        RunOn(s, script);
        RunPays(s', script[1..]);
        var rest := Run(s', script[1..]).1;
        if |rest| > 0 {
          assert reports[|reports| - 1] == rest[|rest| - 1];
        }
      }
    }
  }

  // The run of the first j turns.
  lemma {:induction false} RunUpTo(s: State, script: seq<Turn>, j: nat)
    requires forall t | t in script :: Plausible(t)
    requires j <= |Run(s, script).1| && j <= |script|
    ensures Run(s, script[..j]).1 == Run(s, script).1[..j]
    decreases j
  {
    var reports := Run(s, script).1;
    if j > 0 {
      var (s', report) := Step(s, script[0]);
      assert script[..j][0] == script[0] && script[..j][1..] == script[1..][..j - 1];
      if report.exit.Stop? {
        assert reports[..j] == [report];
      } else {
        RunOn(s, script);
        RunOn(s, script[..j]);
        RunUpTo(s', script[1..], j - 1);
        assert reports[..j] == [report] + reports[1..][..j - 1];
      }
    }
  }

  // The run after the first i turns.
  lemma {:induction false} RunAfter(s: State, script: seq<Turn>, i: nat)
    requires forall t | t in script :: Plausible(t)
    requires i < |Run(s, script).1| && i <= |script|
    ensures Run(StateAt(s, script, i), script[i..]).1 == Run(s, script).1[i..]
    decreases i
  {
    if i == 0 {
      assert script[0..] == script;
    } else {
      var s' := Step(s, script[0]).0;
      assert !Step(s, script[0]).1.exit.Stop?;
      RunOn(s, script);
      RunAfter(s', script[1..], i - 1);
      assert script[1..][i - 1..] == script[i..];
    }
  }

  // Turns i to j of a run are a run from where it then stands.
  lemma RunBetween(s: State, script: seq<Turn>, i: nat, j: nat)
    requires forall t | t in script :: Plausible(t)
    requires i < j <= |Run(s, script).1| && j <= |script|
    ensures Run(StateAt(s, script, i), script[i..j]).1 == Run(s, script).1[i..j]
  {
    RunAfter(s, script, i);
    RunUpTo(StateAt(s, script, i), script[i..], j - i);
    assert script[i..][..j - i] == script[i..j];
    assert Run(s, script).1[i..][..j - i] == Run(s, script).1[i..j];
  }

  // 18 seconds for each attempt, but for a constant and 77 seconds a change from outside.
  ghost predicate RateHolds(turns: seq<Turn>, reports: seq<Report>, disk: Option<Identity>) {
    && |reports| <= |turns|
    && Seconds(18 * |reports|)
       <= Elapsed(turns, reports) + Seconds(77 * (1 + AllChanges(disk, turns))) + Seconds(77)
  }

  lemma RunRate(s: State, script: seq<Turn>, disk: Option<Identity>)
    requires forall t | t in script :: Plausible(t)
    requires OnLadder(s.delay)
    ensures RateHolds(script, Run(s, script).1, disk)
  {
    RunPays(s, script);
    NoBusyLoop(s, script, disk);
  }

  // In any stretch of any run, whatever the environment does, the number of attempts is bounded by the time they
  // took and the number of changes from outside: 18 seconds each, but for a constant and 77 seconds a change.
  // disk is what the disk held before the stretch.
  lemma AttemptRate(s: State, script: seq<Turn>, i: nat, j: nat, disk: Option<Identity>)
    requires forall t | t in script :: Plausible(t)
    requires OnLadder(s.delay) && i <= j <= |Run(s, script).1|
    ensures j <= |script|
    ensures RateHolds(script[i..j], Run(s, script).1[i..j], disk)
  {
    RunLength(s, script);
    if i < j {
      DelayOnLadder(s, script, i);
      RunBetween(s, script, i, j);
      RunRate(StateAt(s, script, i), script[i..j], disk);
    } else {
      assert script[i..j] == [] && Run(s, script).1[i..j] == [];
    }
  }

  // Short sessions only, and none skipped.
  ghost predicate OnlyShortWaits(script: seq<Turn>, reports: seq<Report>) {
    && |reports| <= |script|
    && forall i | 0 <= i < |reports| :: reports[i].exit.Wait? && script[i].sessionLasted < HEALTHY_AFTER
  }

  // After its first turn such a run goes on as one.
  lemma ShortTail(s: State, script: seq<Turn>)
    requires forall t | t in script :: Plausible(t)
    requires OnlyShortWaits(script, Run(s, script).1) && |Run(s, script).1| > 0
    ensures var (s', report) := Step(s, script[0]);
            && Run(s, script).1 == [report] + Run(s', script[1..]).1
            && report.exit.Wait? && script[0].sessionLasted < HEALTHY_AFTER
            && OnlyShortWaits(script[1..], Run(s', script[1..]).1)
  {
    var (s', report) := Step(s, script[0]);
    var reports, rest := Run(s, script).1, Run(s', script[1..]).1;
    assert reports[0] == report;
    RunLength(s', script[1..]);
    forall i | 0 <= i < |rest| ensures rest[i].exit.Wait? && script[1..][i].sessionLasted < HEALTHY_AFTER {
      assert reports[i + 1] == rest[i];
    }
  }

  // One such turn from at least the j-th step of the climb.
  lemma ShortStep(s: State, t: Turn, j: nat)
    requires Plausible(t) && OnLadder(s.delay) && s.delay >= Climb(j)
    requires Step(s, t).1.exit.Wait? && t.sessionLasted < HEALTHY_AFTER
    ensures var (s', report) := Step(s, t);
            && Climb(j) <= report.exit.wait <= Seconds(45)
            && OnLadder(s'.delay) && s'.delay >= Climb(j + 1)
  {
    StepPays(s, t);
    ClimbBounded(j);
  }

  // The k-th wait of such a run is at least the k-th step of the climb, and no wait is over 45 seconds.
  lemma {:induction false} WaitsClimb(s: State, script: seq<Turn>, j: nat, k: nat)
    requires forall t | t in script :: Plausible(t)
    requires OnLadder(s.delay) && s.delay >= Climb(j)
    requires OnlyShortWaits(script, Run(s, script).1) && k < |Run(s, script).1|
    ensures Climb(j + k) <= Run(s, script).1[k].exit.wait <= Seconds(45)
    decreases k
  {
    ShortTail(s, script);
    ShortStep(s, script[0], j);
    if k > 0 {
      WaitsClimb(Step(s, script[0]).0, script[1..], j + 1, k - 1);
      assert j + 1 + (k - 1) == j + k;
    }
  }

  lemma {:induction false} ClimbBounded(k: nat)
    ensures BASE_DELAY <= Climb(k) <= MAX_DELAY
  {
    if k > 0 {
      ClimbBounded(k - 1);
    }
  }

  // Such a turn that dials, from the j-th step of the climb itself.
  lemma ClimbingStep(s: State, t: Turn, j: nat)
    requires Plausible(t) && s.delay == Climb(j)
    requires Step(s, t).1.exit.Wait? && Step(s, t).1.dialed.Some? && t.sessionLasted < HEALTHY_AFTER
    ensures 2 * Step(s, t).1.exit.wait <= 3 * Climb(j) && Step(s, t).0.delay == Climb(j + 1)
  {
    ClimbBounded(j);
  }

  ghost predicate AllDial(reports: seq<Report>) {
    forall i | 0 <= i < |reports| :: reports[i].dialed.Some?
  }

  lemma AllDialTail(reports: seq<Report>, head: Report, rest: seq<Report>)
    requires AllDial(reports) && reports == [head] + rest
    ensures head.dialed.Some? && AllDial(rest)
  {
    assert reports[0] == head;
    forall i | 0 <= i < |rest| ensures rest[i].dialed.Some? {
      assert reports[i + 1] == rest[i];
    }
  }

  // While every turn dials, the waits follow the climb: at most half above its k-th step.
  lemma {:induction false} WaitsFollowClimb(s: State, script: seq<Turn>, j: nat, k: nat)
    requires forall t | t in script :: Plausible(t)
    requires s.delay == Climb(j)
    requires OnlyShortWaits(script, Run(s, script).1) && k < |Run(s, script).1|
    requires AllDial(Run(s, script).1)
    ensures 2 * Run(s, script).1[k].exit.wait <= 3 * Climb(j + k)
    decreases k
  {
    ShortTail(s, script);
    var (s', report) := Step(s, script[0]);
    AllDialTail(Run(s, script).1, report, Run(s', script[1..]).1);
    ClimbingStep(s, script[0], j);
    if k > 0 {
      WaitsFollowClimb(s', script[1..], j + 1, k - 1);
      assert j + 1 + (k - 1) == j + k;
    }
  }

  function ClimbSum(n: nat): int {
    if n == 0 then 0 else ClimbSum(n - 1) + Climb(n - 1)
  }

  // 31 seconds for the first five, 30 for each one after.
  lemma {:induction false} ClimbSumClosed(n: nat)
    ensures n >= 5 ==> ClimbSum(n) == Seconds(31 + 30 * (n - 5))
    ensures n >= 5 ==> Climb(n) == MAX_DELAY
  {
    if n > 5 {
      ClimbSumClosed(n - 1);
    } else if n == 5 {
      assert Climb(0) == Seconds(1) && Climb(1) == Seconds(2) && Climb(2) == Seconds(4);
      assert Climb(3) == Seconds(8) && Climb(4) == Seconds(16) && Climb(5) == Seconds(30);
      assert ClimbSum(1) == Seconds(1) && ClimbSum(2) == Seconds(3) && ClimbSum(3) == Seconds(7);
      assert ClimbSum(4) == Seconds(15) && ClimbSum(5) == Seconds(31);
    }
  }

  lemma {:induction false} ShortRunElapsed(s: State, script: seq<Turn>, j: nat)
    requires forall t | t in script :: Plausible(t)
    requires OnLadder(s.delay) && s.delay >= Climb(j)
    requires OnlyShortWaits(script, Run(s, script).1)
    ensures Elapsed(script, Run(s, script).1) >= ClimbSum(j + |Run(s, script).1|) - ClimbSum(j)
    decreases |script|
  {
    var reports := Run(s, script).1;
    if |reports| > 0 {
      ShortTail(s, script);
      ShortStep(s, script[0], j);
      var s' := Step(s, script[0]).0;
      var rest := Run(s', script[1..]).1;
      assert reports[1..] == rest;
      ShortRunElapsed(s', script[1..], j + 1);
      assert j + 1 + |rest| == j + |reports|;
    }
  }

  // A control plane that drops every session early is dialled at most five times in the first
  // 31 seconds and once every 30 seconds after.
  lemma ShortSessionRate(id: Identity, script: seq<Turn>)
    requires forall t | t in script :: Plausible(t)
    requires OnlyShortWaits(script, Run(State(id, BASE_DELAY), script).1)
    ensures var reports := Run(State(id, BASE_DELAY), script).1;
            && (forall k | 0 <= k < |reports| ::
                  Min(Seconds(Pow2(k)), MAX_DELAY) <= reports[k].exit.wait <= Seconds(45))
            && (AllDial(reports) ==> forall k | 0 <= k < |reports| ::
                  2 * reports[k].exit.wait <= 3 * Min(Seconds(Pow2(k)), MAX_DELAY))
            && (|reports| >= 5 ==> Seconds(30 * |reports|) <= Elapsed(script, reports) + Seconds(119))
  {
    var reports := Run(State(id, BASE_DELAY), script).1;
    forall k | 0 <= k < |reports|
      ensures Min(Seconds(Pow2(k)), MAX_DELAY) <= reports[k].exit.wait <= Seconds(45)
      ensures AllDial(reports) ==> 2 * reports[k].exit.wait <= 3 * Min(Seconds(Pow2(k)), MAX_DELAY)
    {
      ShortSessionWait(id, script, k);
      if AllDial(reports) {
        ShortDialWait(id, script, k);
      }
    }
    ShortRunElapsed(State(id, BASE_DELAY), script, 0);
    ClimbSumClosed(|reports|);
  }

  lemma ShortSessionWait(id: Identity, script: seq<Turn>, k: nat)
    requires forall t | t in script :: Plausible(t)
    requires OnlyShortWaits(script, Run(State(id, BASE_DELAY), script).1)
    requires k < |Run(State(id, BASE_DELAY), script).1|
    ensures Min(Seconds(Pow2(k)), MAX_DELAY) <= Run(State(id, BASE_DELAY), script).1[k].exit.wait <= Seconds(45)
  {
    ClimbClosed(k);
    WaitsClimb(State(id, BASE_DELAY), script, 0, k);
  }

  lemma ShortDialWait(id: Identity, script: seq<Turn>, k: nat)
    requires forall t | t in script :: Plausible(t)
    requires OnlyShortWaits(script, Run(State(id, BASE_DELAY), script).1)
    requires k < |Run(State(id, BASE_DELAY), script).1| && AllDial(Run(State(id, BASE_DELAY), script).1)
    ensures 2 * Run(State(id, BASE_DELAY), script).1[k].exit.wait <= 3 * Min(Seconds(Pow2(k)), MAX_DELAY)
  {
    ClimbClosed(k);
    WaitsFollowClimb(State(id, BASE_DELAY), script, 0, k);
  }

  // ---- Certificates ----

  // The identity was unexpired when the turn looked at it, in memory or on disk.
  predicate CheckedIn(id: Identity, t: Turn) {
    || !Expired(id, t.checkedAt)
    || (t.disk == Some(id) && !Expired(id, t.diskReadAt))
  }

  // The turn brought in this identity: by a renewal, or unexpired when read from disk.
  predicate Brought(id: Identity, t: Turn) {
    || t.lateRenewal == Some(id)
    || t.renewed == Some(id)
    || (t.disk == Some(id) && !Expired(id, t.diskReadAt))
    || (t.diskThen == Some(id) && !Expired(id, t.diskThenReadAt))
  }

  // The state before the i-th turn.
  ghost function StateAt(s: State, script: seq<Turn>, i: nat): State
    requires forall t | t in script :: Plausible(t)
    requires i <= |script|
    decreases i
  {
    if i == 0 then s else StateAt(Step(s, script[0]).0, script[1..], i - 1)
  }

  // The i-th report is what a turn from the i-th state reports, and that state is where the run then stands.
  lemma {:induction false} RunByTurns(s: State, script: seq<Turn>, i: nat)
    requires forall t | t in script :: Plausible(t)
    requires i <= |Run(s, script).1|
    ensures |Run(s, script).1| <= |script|
    ensures i < |Run(s, script).1| ==> Run(s, script).1[i] == Step(StateAt(s, script, i), script[i]).1
    ensures i == |Run(s, script).1| ==> Run(s, script).0 == StateAt(s, script, i)
    decreases i
  {
    RunLength(s, script);
    if |script| > 0 {
      var (s', report) := Step(s, script[0]);
      assert Run(s, script).1[0] == report;
      if i > 0 {
        if report.exit.Stop? {
          assert StateAt(s, script, 1) == StateAt(s', script[1..], 0);
        } else {
          RunByTurns(s', script[1..], i - 1);
        }
      }
    }
  }

  lemma {:induction false} NextTurn(s: State, script: seq<Turn>, i: nat)
    requires forall t | t in script :: Plausible(t)
    requires i < |script|
    ensures StateAt(s, script, i + 1) == Step(StateAt(s, script, i), script[i]).0
    decreases i
  {
    var s' := Step(s, script[0]).0;
    if i == 0 {
      assert StateAt(s', script[1..], 0) == s';
    } else {
      NextTurn(s', script[1..], i - 1);
    }
  }

  lemma {:induction false} DelayOnLadder(s: State, script: seq<Turn>, i: nat)
    requires forall t | t in script :: Plausible(t)
    requires i <= |script| && OnLadder(s.delay)
    ensures OnLadder(StateAt(s, script, i).delay)
    decreases i
  {
    if i > 0 {
      DelayOnLadder(s, script, i - 1);
      NextTurn(s, script, i - 1);
      StepPays(StateAt(s, script, i - 1), script[i - 1]);
    }
  }

  // What one turn may do.
  ghost predicate SafeTurn(before: State, t: Turn, report: Report) {
    && (report.dialed.Some? ==> CheckedIn(report.dialed.value, t))
    && (report.exit.Wait? ==> BASE_DELAY <= report.exit.wait <= Seconds(45))
    && (report.dialed.None? && report.exit.Wait? && t.sessionLasted < HEALTHY_AFTER ==> report.exit.wait >= MAX_DELAY)
  }

  // In every turn of every run: a session is only started with an identity that was unexpired when it was
  // checked; every wait lasts between one second and 45, and thirty at least when nothing was dialled; and the
  // delay is on the ladder.
  lemma RunIsSafe(s: State, script: seq<Turn>, i: nat)
    requires forall t | t in script :: Plausible(t)
    requires OnLadder(s.delay) && i < |Run(s, script).1|
    ensures i < |script|
    ensures OnLadder(StateAt(s, script, i).delay)
    ensures SafeTurn(StateAt(s, script, i), script[i], Run(s, script).1[i])
  {
    RunByTurns(s, script, i);
    DelayOnLadder(s, script, i);
    StepPays(StateAt(s, script, i), script[i]);
  }

  // What one turn has to do, in nanoseconds and dates: an identity is usable before the end of its certificate.
  predicate Usable(id: Identity, now: int) {
    id.notAfter.Some? && now < id.notAfter.value
  }

  // What is on disk can take the place of the identity held.
  predicate Replaces(disk: Option<Identity>, held: Identity, now: int) {
    disk.Some? && Usable(disk.value, now) && disk.value.cert != held.cert
  }

  // The identity a turn dials with, if any: the one held if it is usable, or else a usable new one from disk.
  function DialsWith(s: State, t: Turn): Option<Identity> {
    var held := if t.lateRenewal.Some? then t.lateRenewal.value else s.held;
    if t.cancelledBefore then None
    else if Usable(held, t.checkedAt) then Some(held)
    else if Replaces(t.disk, held, t.diskReadAt) then t.disk
    else None
  }

  // The identity held when the session is over: renewed during it, or the one it was dialled with.
  function HeldAtEnd(s: State, t: Turn): Identity {
    var held := if t.lateRenewal.Some? then t.lateRenewal.value else s.held;
    if DialsWith(s, t).None? then held
    else if t.renewed.Some? then t.renewed.value
    else DialsWith(s, t).value
  }

  // The control plane refused the certificate, or it is over, and the disk holds a usable new one.
  predicate ReplacedAfter(s: State, t: Turn) {
    && ((DialsWith(s, t).Some? && t.authRejected) || !Usable(HeldAtEnd(s, t), t.endedAt))
    && Replaces(t.diskThen, HeldAtEnd(s, t), t.diskThenReadAt)
  }

  // The wait and the next delay after a session of this length, from a delay cur.
  ghost predicate WaitsFrom(cur: int, sessionLasted: int, wait: int, next: int) {
    if sessionLasted >= 60_000_000_000 || cur < 1_000_000_000 then
      1_000_000_000 <= wait <= 1_500_000_000 && next == 2_000_000_000
    else
      && cur <= wait && 2 * wait <= 3 * cur
      && next == if cur <= 15_000_000_000 then 2 * cur else 30_000_000_000
  }

  ghost predicate TurnDoes(before: State, t: Turn, report: Report, after: State) {
    var held := HeldAtEnd(before, t);
    var cur := if DialsWith(before, t).Some? then before.delay else 30_000_000_000;
    && report.dialed == DialsWith(before, t)
    && (if t.cancelledBefore then report.exit == Stop && after == State(held, before.delay)
        else if t.cancelledAfter then report.exit == Stop && after == State(held, cur)
        else if ReplacedAfter(before, t) then report.exit == Skip && after == State(t.diskThen.value, 1_000_000_000)
        else
          && after.held == held
          && WaitEnds(cur, t, report.exit, after.delay))
  }

  ghost predicate WaitEnds(cur: int, t: Turn, exit: Exit, next: int) {
    exists wait ::
      WaitsFrom(cur, t.sessionLasted, wait, next) && exit == if t.cancelledInWait then Stop else Wait(wait)
  }

  lemma WaitEndsSo(cur: int, t: Turn)
    requires Plausible(t)
    ensures var (wait, next) := NextReconnect(cur, t.sessionLasted, t.rnd);
            WaitEnds(cur, t, if t.cancelledInWait then Stop else Wait(wait), next)
  {
    var (wait, next) := NextReconnect(cur, t.sessionLasted, t.rnd);
    assert WaitsFrom(cur, t.sessionLasted, wait, next);
  }

  // The step, told by what it dials with and what it holds at the end.
  lemma StepDialsAndHolds(s: State, t: Turn)
    requires Plausible(t)
    ensures var (s', report) := Step(s, t);
            && report.dialed == DialsWith(s, t)
            && (s'.held == HeldAtEnd(s, t) || report.exit == Skip)
            && (report.exit == Skip <==> !t.cancelledBefore && !t.cancelledAfter && ReplacedAfter(s, t))
            && (report.exit == Skip ==> s' == State(t.diskThen.value, 1_000_000_000))
  {
  }

  lemma StepDoes(s: State, t: Turn)
    requires Plausible(t)
    ensures var (s', report) := Step(s, t); TurnDoes(s, t, report, s')
  {
    StepDialsAndHolds(s, t);
    WaitEndsSo(s.delay, t);
    WaitEndsSo(30_000_000_000, t);
  }

  // Every turn of every run does that, and a run ends exactly with its first turn that stops, or with the script.
  lemma RunDoes(s: State, script: seq<Turn>, i: nat)
    requires forall t | t in script :: Plausible(t)
    requires i < |Run(s, script).1|
    ensures |Run(s, script).1| <= |script|
    ensures TurnDoes(StateAt(s, script, i), script[i], Run(s, script).1[i], StateAt(s, script, i + 1))
    ensures i + 1 < |Run(s, script).1| ==> !Run(s, script).1[i].exit.Stop?
    ensures i + 1 == |Run(s, script).1| < |script| ==> Run(s, script).1[i].exit.Stop?
  {
    RunByTurns(s, script, i);
    NextTurn(s, script, i);
    StepDoes(StateAt(s, script, i), script[i]);
    RunEnds(s, script, i);
  }

  lemma {:induction false} RunEnds(s: State, script: seq<Turn>, i: nat)
    requires forall t | t in script :: Plausible(t)
    requires i < |Run(s, script).1| <= |script|
    ensures i + 1 < |Run(s, script).1| ==> !Run(s, script).1[i].exit.Stop?
    ensures i + 1 == |Run(s, script).1| < |script| ==> Run(s, script).1[i].exit.Stop?
    decreases i
  {
    var (s', report) := Step(s, script[0]);
    if !report.exit.Stop? {
      RunOn(s, script);
      if i > 0 {
        RunEnds(s', script[1..], i - 1);
        assert Run(s, script).1[i] == Run(s', script[1..]).1[i - 1];
      }
    }
  }

  // A session of a minute or more restarts the backoff, whatever the delay was, in every turn of every run that
  // ends in a wait.
  lemma HealthySessionRestarts(s: State, script: seq<Turn>, i: nat)
    requires forall t | t in script :: Plausible(t)
    requires i < |Run(s, script).1| && i < |script|
    requires Run(s, script).1[i].exit.Wait? && script[i].sessionLasted >= 60_000_000_000
    ensures 1_000_000_000 <= Run(s, script).1[i].exit.wait <= 1_500_000_000
    ensures StateAt(s, script, i + 1).delay == 2_000_000_000
  {
    RunDoes(s, script, i);
  }

  // Over a whole run: what is held after i turns is the identity the run began with, or was renewed or read
  // unexpired from disk in one of those turns. So is every identity a session was started with.
  lemma {:induction false} HeldComesFrom(s: State, script: seq<Turn>, i: nat)
    requires forall t | t in script :: Plausible(t)
    requires i <= |Run(s, script).1|
    ensures i <= |script|
    ensures Known(StateAt(s, script, i).held, s, script, i)
    ensures i < |Run(s, script).1| && Run(s, script).1[i].dialed.Some? ==>
              i < |script| && Known(Run(s, script).1[i].dialed.value, s, script, i + 1)
    decreases i
  {
    RunByTurns(s, script, i);
    if i > 0 {
      HeldComesFrom(s, script, i - 1);
      NextTurn(s, script, i - 1);
      HeldAfter(StateAt(s, script, i - 1), script[i - 1]);
    }
    if i < |Run(s, script).1| {
      HeldAfter(StateAt(s, script, i), script[i]);
    }
  }

  // Held at the start, or brought in by one of the first n turns.
  ghost predicate Known(id: Identity, s: State, script: seq<Turn>, n: nat)
    requires n <= |script|
  {
    id == s.held || exists j | 0 <= j < n :: Brought(id, script[j])
  }

  lemma HeldAfter(s: State, t: Turn)
    requires Plausible(t)
    ensures var (s', report) := Step(s, t);
            && (s'.held == s.held || Brought(s'.held, t))
            && (report.dialed.Some? ==> report.dialed.value == s.held || Brought(report.dialed.value, t))
  {
  }

  // The control plane refused the certificate in turn i, or it ran out, while the disk held a usable new one.
  predicate NeedsNewIdentity(s: State, t: Turn) {
    var held := Or(t.lateRenewal, s.held);
    && !t.cancelledBefore && !t.cancelledAfter
    && !Expired(held, t.checkedAt) && t.renewed.None?
    && (t.authRejected || Expired(held, t.endedAt))
    && Adoptable(held, t.diskThen, t.diskThenReadAt)
  }

  // A re-enrolment done on the side reaches the running agent: after a refusal the very next turn, without
  // a wait in between, dials with the identity on disk, starting from the shortest delay.
  lemma {:induction false} NewIdentityIsUsed(s: State, script: seq<Turn>, i: nat)
    requires forall t | t in script :: Plausible(t)
    requires i < |Run(s, script).1| && i + 1 < |script|
    requires NeedsNewIdentity(StateAt(s, script, i), script[i])
    requires var t := script[i + 1];
             !t.cancelledBefore && t.lateRenewal.None? && !Expired(script[i].diskThen.value, t.checkedAt)
    ensures var reports := Run(s, script).1;
            && i + 1 < |reports|
            && reports[i].exit.Skip?
            && reports[i + 1].dialed == script[i].diskThen
            && StateAt(s, script, i + 1) == State(script[i].diskThen.value, BASE_DELAY)
    decreases i
  {
    var (s', report) := Step(s, script[0]);
    var reports := Run(s, script).1;
    assert reports[0] == report;
    assert StateAt(s', script[1..], 0) == s';
    if i == 0 {
      assert script[1..][0] == script[1];
      var (s'', next) := Step(s', script[1]);
      assert reports[1] == Run(s', script[1..]).1[0] == next;
      assert StateAt(s, script, 1) == StateAt(s', script[1..], 0);
    } else {
      assert !report.exit.Stop?;
      NewIdentityIsUsed(s', script[1..], i - 1);
      assert reports[i] == Run(s', script[1..]).1[i - 1] && reports[i + 1] == Run(s', script[1..]).1[i];
    }
  }
}
