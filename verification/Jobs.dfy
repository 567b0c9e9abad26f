/** The job control of the shell (tsh.c) as a state machine: the job table, the jobs the user moves
    between foreground and background, and the child events the SIGCHLD handler delivers. */
module Jobs {
  const MAXJOBS: nat := 16

  datatype State = UNDEF | FG | BG | ST
  datatype Job = Job(pid: int, jid: int, state: State)
  datatype Child = Child(pid: int, stopped: bool)

  const NONE := Job(0, 0, UNDEF)

  // ---------- The table ----------

  /** Whom a command names: a process or a job number. */
  datatype Target = Pid(pid: int) | Jid(jid: int)

  predicate Names(who: Target, j: Job) {
    match who
    case Pid(pid) => j.pid == pid
    case Jid(jid) => j.jid == jid
  }

  /** The first slot from `i` on that `who` names. */
  function Find(t: seq<Job>, who: Target, i: nat): (r: int)
    requires i <= |t|
    ensures r == -1 ==> forall k :: i <= k < |t| ==> !Names(who, t[k])
    ensures r != -1 ==> i <= r < |t| && Names(who, t[r]) && forall k :: i <= k < r ==> !Names(who, t[k])
    decreases |t| - i
  {
    if i == |t| then -1 else if Names(who, t[i]) then i else Find(t, who, i + 1)
  }

  /** getjobpid and getjobjid: a slot, or -1. */
  function Lookup(t: seq<Job>, who: Target): (r: int)
    ensures r == -1 || 0 <= r < |t|
  {
    if (match who case Pid(pid) => pid case Jid(jid) => jid) < 1 then -1 else Find(t, who, 0)
  }

  function MaxJid(t: seq<Job>): (m: int)
    ensures m >= 0 && forall i :: 0 <= i < |t| ==> t[i].jid <= m
    ensures m == 0 || exists i :: 0 <= i < |t| && t[i].jid == m
  {
    if t == [] then 0
    else
      var m := MaxJid(t[..|t| - 1]);
      if t[|t| - 1].jid > m then t[|t| - 1].jid else m
  }

  datatype Table = Table(jobs: seq<Job>, nextjid: int)

  /** addjob: the first empty slot, if there is one. */
  function Added(t: Table, pid: int, state: State): Table {
    var i := Find(t.jobs, Pid(0), 0);
    if pid < 1 || i == -1 then t
    else Table(t.jobs[i := Job(pid, t.nextjid, state)], if t.nextjid + 1 > MAXJOBS then 1 else t.nextjid + 1)
  }

  /** One round of the handler's loop on a child it knows. */
  function Reaped(t: Table, c: Child): (r: Table)
    ensures |r.jobs| == |t.jobs|
  {
    var i := Lookup(t.jobs, Pid(c.pid));
    if i == -1 then t
    else if c.stopped then t.(jobs := t.jobs[i := t.jobs[i].(state := ST)])
    else
      var jobs := t.jobs[i := NONE];
      Table(jobs, MaxJid(jobs) + 1)
  }

  /** How many of the pending reports one run of the handler delivers: it gives up at the first
      child it does not know ... */
  function Reach(t: Table, pending: seq<Child>): (n: nat)
    ensures n <= |pending|
    decreases |pending|
  {
    if pending == [] || Lookup(t.jobs, Pid(pending[0].pid)) == -1 then 0
    else 1 + Reach(Reaped(t, pending[0]), pending[1..])
  }

  /** ... which waitpid has reaped by then: the children that one run takes from the kernel. */
  function Taken(t: Table, pending: seq<Child>): (n: nat)
    ensures n <= |pending|
  {
    var n := Reach(t, pending);
    if n < |pending| then n + 1 else n
  }

  function Handled(t: Table, pending: seq<Child>): (r: Table)
    ensures |r.jobs| == |t.jobs|
    decreases |pending|
  {
    if pending == [] || Lookup(t.jobs, Pid(pending[0].pid)) == -1 then t
    else Handled(Reaped(t, pending[0]), pending[1..])
  }

  // ---------- The shell ----------

  /** Where waitfg stands: it has just seen its job in the foreground, or sleeps in sigsuspend, or
      has been woken and not looked again yet. */
  datatype Stand = Seen | Suspended | Woken

  /** Reading a command, or in waitfg for the process in that slot; `blocked` says whether SIGCHLD is
      held back outside sigsuspend, as it is after a launch but not after fg. */
  datatype Phase = Accepting | Waiting(slot: nat, pid: int, blocked: bool, at: Stand)

  datatype Shell = Shell(t: Table, phase: Phase)

  datatype Event =
    | Launch(pid: int, bg: bool)   // eval of a program
    | ToFront(who: Target)         // fg, lookup and update not interrupted
    | ToBack(who: Target)          // bg, likewise
    | Sigchld(pending: seq<Child>)
    | Keyboard                     // ctrl-c or ctrl-z, as far as the shell itself goes
    | Suspend                      // sigsuspend
    | Look                         // waitfg reads the state of its job again

  const START := Shell(Table(seq(MAXJOBS, _ => NONE), 1), Accepting)

  predicate Enabled(s: Shell, e: Event) {
    match e
    case Launch(pid, _) => s.phase == Accepting && pid >= 1 && forall i :: 0 <= i < |s.t.jobs| ==> s.t.jobs[i].pid != pid
    case ToFront(_) => s.phase == Accepting
    case ToBack(_) => s.phase == Accepting
    case Sigchld(_) => s.phase.Waiting? ==> !s.phase.blocked || s.phase.at == Suspended
    case Keyboard => true
    case Suspend => s.phase.Waiting? && s.phase.at == Seen
    case Look => s.phase.Waiting? && s.phase.at == Woken && s.phase.slot < |s.t.jobs|
  }

  /** waitfg(pid): returns at once unless that process is in the foreground. */
  function WaitFor(t: Table, pid: int, blocked: bool): Phase {
    var i := Lookup(t.jobs, Pid(pid));
    if i == -1 || t.jobs[i].state != FG then Accepting else Waiting(i, pid, blocked, Seen)
  }

  /** Any signal the shell handles ends sigsuspend. */
  function Wake(p: Phase): Phase {
    if p.Waiting? && p.at == Suspended then p.(at := Woken) else p
  }

  function Apply(s: Shell, e: Event): Shell
    requires Enabled(s, e)
  {
    match e
    case Launch(pid, bg) =>
      var t := Added(s.t, pid, if bg then BG else FG);
      Shell(t, if bg then Accepting else WaitFor(t, pid, true))
    case ToFront(who) =>
      var i := Lookup(s.t.jobs, who);
      if i == -1 || s.t.jobs[i].state == FG then s
      else if s.t.jobs[i].state == UNDEF then Shell(s.t, WaitFor(s.t, s.t.jobs[i].pid, false))
      else
        var t := s.t.(jobs := s.t.jobs[i := s.t.jobs[i].(state := FG)]);
        Shell(t, WaitFor(t, t.jobs[i].pid, false))
    case ToBack(who) =>
      var i := Lookup(s.t.jobs, who);
      if i == -1 || s.t.jobs[i].state != ST then s
      else s.(t := s.t.(jobs := s.t.jobs[i := s.t.jobs[i].(state := BG)]))
    case Sigchld(pending) => Shell(Handled(s.t, pending), Wake(s.phase))
    case Keyboard => s.(phase := Wake(s.phase))
    case Suspend => s.(phase := s.phase.(at := Suspended))
    case Look => s.(phase := if s.t.jobs[s.phase.slot].state == FG then s.phase.(at := Seen) else Accepting)
  }

  // ---------- What every step keeps ----------

  ghost predicate SlotOk(j: Job) {
    if j.pid == 0 then j == NONE else j.pid > 0 && j.jid > 0 && j.state != UNDEF
  }

  ghost predicate TableOk(t: Table) {
    && |t.jobs| == MAXJOBS && t.nextjid >= 1
    && (forall i :: 0 <= i < MAXJOBS ==> SlotOk(t.jobs[i]))
    && (forall i, j :: 0 <= i < j < MAXJOBS && t.jobs[i].pid == t.jobs[j].pid ==> t.jobs[i].pid == 0)
  }

  /** Only the process waited for is in the foreground, and its slot is given to no other. */
  ghost predicate Front(s: Shell)
    requires |s.t.jobs| == MAXJOBS
  {
    && (forall i :: 0 <= i < MAXJOBS && s.t.jobs[i].state == FG ==>
          s.phase.Waiting? && s.phase.slot == i && s.phase.pid == s.t.jobs[i].pid)
    && (s.phase.Waiting? ==> s.phase.pid > 0 && s.phase.slot < MAXJOBS && s.t.jobs[s.phase.slot].pid in {0, s.phase.pid})
  }

  ghost predicate Inv(s: Shell) { TableOk(s.t) && Front(s) }

  /** The state changes an event may make. */
  ghost predicate Changes(a: Job, b: Job, e: Event) {
    || a.state == b.state
    || (e.Sigchld? && b.state == ST && Child(a.pid, true) in e.pending)
    || (e.ToFront? && b.state == FG)
    || (e.ToBack? && a.state == ST && b.state == BG)
  }

  /** What may happen to one slot: a live job keeps its numbers and changes state as above, or is
      cleared when its process has ended; an empty slot takes a new job only from a launch. */
  ghost predicate SlotMove(a: Job, b: Job, e: Event) {
    if a.pid == 0 then
      a == b || (e.Launch? && b.pid == e.pid && b.state == if e.bg then BG else FG)
    else
      || (b.pid == a.pid && b.jid == a.jid && Changes(a, b, e))
      || (b == NONE && e.Sigchld? && Child(a.pid, false) in e.pending)
  }

  ghost predicate Moves(t: Table, u: Table, e: Event) {
    |t.jobs| == |u.jobs| && forall i :: 0 <= i < |t.jobs| ==> SlotMove(t.jobs[i], u.jobs[i], e)
  }

  lemma ReapStep(s: Shell, c: Child, pending: seq<Child>)
    requires Inv(s) && c in pending
    ensures Inv(s.(t := Reaped(s.t, c)))
    ensures Moves(s.t, Reaped(s.t, c), Sigchld(pending))
  {
  }

  lemma {:induction false} HandlerKeeps(s: Shell, pending: seq<Child>, all: seq<Child>)
    requires Inv(s) && forall c :: c in pending ==> c in all
    ensures Inv(s.(t := Handled(s.t, pending)))
    ensures Moves(s.t, Handled(s.t, pending), Sigchld(all))
    decreases |pending|
  {
    if pending != [] && Lookup(s.t.jobs, Pid(pending[0].pid)) != -1 {
      ReapStep(s, pending[0], all);
      HandlerKeeps(s.(t := Reaped(s.t, pending[0])), pending[1..], all);
    }
  }

  lemma LaunchKeeps(s: Shell, pid: int, bg: bool)
    requires Inv(s) && Enabled(s, Launch(pid, bg))
    ensures Inv(Apply(s, Launch(pid, bg)))
    ensures Moves(s.t, Apply(s, Launch(pid, bg)).t, Launch(pid, bg))
  {
    var t := Added(s.t, pid, if bg then BG else FG);
    assert TableOk(t);
    var i := Find(s.t.jobs, Pid(0), 0);
    var j := Find(t.jobs, Pid(pid), 0);
    assert i == -1 ==> j == -1;
    assert i != -1 ==> t.jobs[i].pid == pid;
  }

  lemma FrontKeeps(s: Shell, who: Target)
    requires Inv(s) && Enabled(s, ToFront(who))
    ensures Inv(Apply(s, ToFront(who)))
    ensures Moves(s.t, Apply(s, ToFront(who)).t, ToFront(who))
  {
    var i := Lookup(s.t.jobs, who);
    if i != -1 {
      assert SlotOk(s.t.jobs[i]) && s.t.jobs[i].pid > 0;
    }
  }

  /** The exact effect of every event on every slot, and the invariant. */
  lemma StepKeeps(s: Shell, e: Event)
    requires Inv(s) && Enabled(s, e)
    ensures Inv(Apply(s, e))
    ensures Moves(s.t, Apply(s, e).t, e)
  {
    match e
    case Launch(pid, bg) => LaunchKeeps(s, pid, bg);
    case ToFront(who) => FrontKeeps(s, who);
    case ToBack(who) =>
    case Sigchld(pending) => HandlerKeeps(s, pending, pending);
    case Keyboard =>
    case Suspend =>
    case Look =>
  }

  // ---------- Whole runs ----------

  predicate Legal(s: Shell, es: seq<Event>)
    decreases |es|
  {
    es == [] || (Enabled(s, es[0]) && Legal(Apply(s, es[0]), es[1..]))
  }

  function Run(s: Shell, es: seq<Event>): Shell
    requires Legal(s, es)
    decreases |es|
  {
    if es == [] then s else Run(Apply(s, es[0]), es[1..])
  }

  lemma {:induction false} RunKeeps(s: Shell, es: seq<Event>)
    requires Inv(s) && Legal(s, es)
    ensures Inv(Run(s, es))
    decreases |es|
  {
    if es != [] {
      StepKeeps(s, es[0]);
      RunKeeps(Apply(s, es[0]), es[1..]);
    }
  }

  /** fgpid: whom ctrl-c and ctrl-z reach. */
  function FgPid(t: seq<Job>, i: nat): int
    requires i <= |t|
    decreases |t| - i
  {
    if i == |t| then 0 else if t[i].state == FG then t[i].pid else FgPid(t, i + 1)
  }

  lemma {:induction false} FgPidFinds(t: seq<Job>, i: nat)
    requires i <= |t|
    ensures (forall k :: i <= k < |t| ==> t[k].state != FG) ==> FgPid(t, i) == 0
    ensures (exists k :: i <= k < |t| && t[k].state == FG) ==>
              exists k :: i <= k < |t| && t[k].state == FG && FgPid(t, i) == t[k].pid
    decreases |t| - i
  {
    if i < |t| && t[i].state != FG {
      FgPidFinds(t, i + 1);
    }
  }

  /** In every run of the shell: at most one job is in the foreground, none while commands are
      read, and the keyboard reaches the process the shell is waiting for or nobody. */
  lemma OneForeground(es: seq<Event>)
    requires Legal(START, es)
    ensures var s := Run(START, es);
            && (forall i, j :: 0 <= i < |s.t.jobs| && 0 <= j < |s.t.jobs| && s.t.jobs[i].state == s.t.jobs[j].state == FG ==> i == j)
            && (s.phase == Accepting ==> FgPid(s.t.jobs, 0) == 0)
            && (s.phase.Waiting? && s.phase.slot < |s.t.jobs| ==>
                  FgPid(s.t.jobs, 0) == if s.t.jobs[s.phase.slot].state == FG then s.phase.pid else 0)
  {
    RunKeeps(START, es);
    var s := Run(START, es);
    FgPidFinds(s.t.jobs, 0);
  }

  /** The shell comes back to its prompt only after the process it waits for stopped or ended. */
  lemma {:induction false} WaitEnds(s: Shell, es: seq<Event>)
    requires Inv(s) && Legal(s, es)
    requires s.phase.Waiting? && s.t.jobs[s.phase.slot].state == FG
    requires Run(s, es).phase == Accepting
    ensures exists k, stopped :: 0 <= k < |es| && es[k].Sigchld? && Child(s.phase.pid, stopped) in es[k].pending
    decreases |es|
  {
    var e := es[0];
    var s' := Apply(s, e);
    StepKeeps(s, e);
    var i := s.phase.slot;
    assert SlotMove(s.t.jobs[i], s'.t.jobs[i], e);
    if s'.t.jobs[i].state == FG {
      WaitEnds(s', es[1..]);
      var k, stopped :| 0 <= k < |es[1..]| && es[1..][k].Sigchld? && Child(s.phase.pid, stopped) in es[1..][k].pending;
      assert es[k + 1] == es[1..][k];
    } else {
      assert es[0].Sigchld?;
      assert Child(s.phase.pid, true) in es[0].pending || Child(s.phase.pid, false) in es[0].pending;
    }
  }

  // ---------- When the shell comes back to its prompt ----------

  /** Asleep in sigsuspend although its job is in the foreground no more. */
  ghost predicate Stuck(s: Shell) {
    && s.phase.Waiting? && s.phase.at == Suspended && s.phase.slot < |s.t.jobs|
    && s.t.jobs[s.phase.slot].state != FG
  }

  /** After a launch, SIGCHLD is held back from the test to sigsuspend. */
  ghost predicate Guarded(s: Shell) {
    s.phase.Waiting? && s.phase.blocked && s.phase.at != Woken && s.phase.slot < |s.t.jobs| ==>
      s.t.jobs[s.phase.slot].state == FG
  }

  lemma GuardedStep(s: Shell, e: Event)
    requires Inv(s) && Guarded(s) && Enabled(s, e)
    ensures Guarded(Apply(s, e))
  {
  }

  /** In every run, only a wait begun by fg can get stuck; a wait begun by a launch cannot. */
  lemma {:induction false} LaunchNeverStuck(s: Shell, es: seq<Event>)
    requires Inv(s) && Guarded(s) && Legal(s, es)
    ensures Stuck(Run(s, es)) ==> !Run(s, es).phase.blocked
    decreases |es|
  {
    if es != [] {
      StepKeeps(s, es[0]);
      GuardedStep(s, es[0]);
      LaunchNeverStuck(Apply(s, es[0]), es[1..]);
    }
  }

  /** Whether a report that one run of the handler delivers names this process. */
  ghost predicate Reports(t: Table, pending: seq<Child>, pid: int) {
    exists k :: 0 <= k < Reach(t, pending) && pending[k].pid == pid
  }

  lemma ReportsRest(t: Table, pending: seq<Child>, pid: int)
    requires pending != [] && Known(t, pending[0])
    ensures Reports(t, pending, pid) <==> pending[0].pid == pid || Reports(Reaped(t, pending[0]), pending[1..], pid)
  {
    hide Find, Reaped;
    var rest := pending[1..];
    assert forall k :: 0 <= k < |rest| ==> rest[k] == pending[k + 1];
    assert forall k :: 1 <= k < |pending| ==> pending[k] == rest[k - 1];
  }

  /** A foreground job leaves the foreground iff the handler delivers a report on it. */
  lemma {:induction false} LeavesFront(s: Shell, pending: seq<Child>, i: nat)
    requires Inv(s) && i < MAXJOBS && s.t.jobs[i].state == FG
    ensures Handled(s.t, pending).jobs[i].state != FG <==> Reports(s.t, pending, s.t.jobs[i].pid)
    decreases |pending|
  {
    if pending != [] && Known(s.t, pending[0]) {
      var c, rest, pid := pending[0], pending[1..], s.t.jobs[i].pid;
      var t := Reaped(s.t, c);
      ReapStep(s, c, pending);
      ReportsRest(s.t, pending, pid);
      ReapSlot(s, c);
      hide Reports, Find, Reaped;
      if c.pid == pid {
        HandlerKeeps(s.(t := t), rest, rest);
        assert SlotMove(t.jobs[i], Handled(t, rest).jobs[i], Sigchld(rest));
      } else {
        LeavesFront(s.(t := t), rest, i);
      }
    }
  }

  /** A handler run that finds the shell asleep brings it back to its prompt iff it delivers a report
      on the job waited for; a run between the last test and sigsuspend, which only fg lets happen,
      leaves it stuck on the same condition. */
  lemma BackToPrompt(s: Shell, pending: seq<Child>)
    requires Inv(s) && s.phase.Waiting? && s.t.jobs[s.phase.slot].state == FG
    ensures s.phase.at == Suspended ==>
              (Apply(Apply(s, Sigchld(pending)), Look).phase == Accepting <==> Reports(s.t, pending, s.phase.pid))
    ensures s.phase.at == Seen && !s.phase.blocked ==>
              (Stuck(Apply(Apply(s, Sigchld(pending)), Suspend)) <==> Reports(s.t, pending, s.phase.pid))
  {
    LeavesFront(s, pending, s.phase.slot);
  }

  /** A stuck shell takes nothing but signals, and any signal brings it back. */
  lemma StuckUntilSignal(s: Shell, e: Event)
    requires Inv(s) && Stuck(s) && Enabled(s, e)
    ensures e.Sigchld? || e.Keyboard?
    ensures Enabled(Apply(s, e), Look) && Apply(Apply(s, e), Look).phase == Accepting
  {
    StepKeeps(s, e);
    assert SlotMove(s.t.jobs[s.phase.slot], Apply(s, e).t.jobs[s.phase.slot], e);
  }

  // ---------- How far one run of the handler gets ----------

  ghost predicate OneReportEach(pending: seq<Child>) {
    && (forall i :: 0 <= i < |pending| ==> pending[i].pid > 0)
    && forall i, j :: 0 <= i < j < |pending| ==> pending[i].pid != pending[j].pid
  }

  ghost predicate Known(t: Table, c: Child) { Lookup(t.jobs, Pid(c.pid)) != -1 }

  /** Reaping one child makes no other known or unknown. */
  lemma KnownStays(s: Shell, c: Child, d: Child)
    requires Inv(s) && Known(s.t, c) && c.pid != d.pid
    ensures Known(Reaped(s.t, c), d) <==> Known(s.t, d)
  {
    var t := Reaped(s.t, c);
    var a, b := Lookup(s.t.jobs, Pid(d.pid)), Lookup(t.jobs, Pid(d.pid));
    assert a != -1 ==> Names(Pid(d.pid), t.jobs[a]);
    assert b != -1 ==> Names(Pid(d.pid), s.t.jobs[b]);
  }

  ghost predicate AllKnown(t: Table, pending: seq<Child>, k: nat)
    requires k <= |pending|
  {
    forall i :: 0 <= i < k ==> Known(t, pending[i])
  }

  lemma AllKnownRest(s: Shell, pending: seq<Child>, k: nat)
    requires Inv(s) && OneReportEach(pending) && 0 < k <= |pending| && Known(s.t, pending[0])
    ensures AllKnown(s.t, pending, k) <==> AllKnown(Reaped(s.t, pending[0]), pending[1..], k - 1)
  {
    hide Known;
    var rest, t := pending[1..], Reaped(s.t, pending[0]);
    forall i | 1 <= i < k ensures Known(t, rest[i - 1]) <==> Known(s.t, pending[i]) {
      KnownStays(s, pending[0], pending[i]);
    }
    if AllKnown(s.t, pending, k) {
      forall i | 0 <= i < k - 1 ensures Known(t, rest[i]) { assert Known(s.t, pending[i + 1]); }
    }
  }

  /** With one report per child, the first `k` reports are delivered iff those children are known. */
  lemma {:induction false} ReachAtLeast(s: Shell, pending: seq<Child>, k: nat)
    requires Inv(s) && OneReportEach(pending) && k <= |pending|
    ensures Reach(s.t, pending) >= k <==> AllKnown(s.t, pending, k)
    decreases k
  {
    if k > 0 {
      if Known(s.t, pending[0]) {
        ReapStep(s, pending[0], pending);
        ReachAtLeast(s.(t := Reaped(s.t, pending[0])), pending[1..], k - 1);
        AllKnownRest(s, pending, k);
      }
    }
  }

  /** One run of the handler reaps everything pending iff it knows every child but possibly the
      last, and brings every report to the table iff it knows that one, too. */
  lemma ReapsAll(s: Shell, pending: seq<Child>)
    requires Inv(s) && OneReportEach(pending)
    ensures Taken(s.t, pending) == |pending| <==> pending == [] || AllKnown(s.t, pending, |pending| - 1)
    ensures Reach(s.t, pending) == |pending| <==> AllKnown(s.t, pending, |pending|)
  {
    ReachAtLeast(s, pending, |pending|);
    if pending != [] {
      ReachAtLeast(s, pending, |pending| - 1);
    }
  }

  /** Where it stops: behind the first child it does not know. */
  lemma {:induction false} StopsBehind(s: Shell, pending: seq<Child>, k: nat)
    requires Inv(s) && OneReportEach(pending) && k < |pending|
    requires AllKnown(s.t, pending, k) && !Known(s.t, pending[k])
    ensures Reach(s.t, pending) == k && Taken(s.t, pending) == k + 1
  {
    ReachAtLeast(s, pending, k);
    ReachAtLeast(s, pending, k + 1);
  }

  /** Where unknown children come from: a process launched into a full table is not tracked, and
      when it is reported, the handler leaves every report behind it with the kernel. */
  lemma UntrackedLaunch(s: Shell, pid: int, bg: bool, stopped: bool, rest: seq<Child>)
    requires Inv(s) && Enabled(s, Launch(pid, bg)) && forall i :: 0 <= i < MAXJOBS ==> s.t.jobs[i].pid != 0
    ensures var u := Apply(s, Launch(pid, bg));
            && u == s && !Known(u.t, Child(pid, stopped))
            && Apply(u, Sigchld([Child(pid, stopped)] + rest)) == u
            && Taken(u.t, [Child(pid, stopped)] + rest) == 1
  {
    assert Lookup(s.t.jobs, Pid(pid)) == -1;
  }

  /** Every child reached is dealt with: its job is marked stopped or taken off the table. */
  lemma {:induction false} Delivered(s: Shell, pending: seq<Child>, k: nat)
    requires Inv(s) && OneReportEach(pending) && k < Reach(s.t, pending)
    ensures var i := Lookup(s.t.jobs, Pid(pending[k].pid));
            i != -1 && Handled(s.t, pending).jobs[i] == if pending[k].stopped then s.t.jobs[i].(state := ST) else NONE
    decreases |pending|
  {
    hide Find, Reaped;
    var c, rest := pending[0], pending[1..];
    ReapStep(s, c, pending);
    ReapSlot(s, c);
    var t := Reaped(s.t, c);
    if k == 0 {
      Untouched(s.(t := t), rest, Lookup(s.t.jobs, Pid(c.pid)));
    } else {
      assert rest[k - 1] == pending[k];
      Delivered(s.(t := t), rest, k - 1);
      LookupStays(s, c, pending[k]);
    }
  }

  lemma ReapSlot(s: Shell, c: Child)
    requires Inv(s) && Known(s.t, c)
    ensures var i := Lookup(s.t.jobs, Pid(c.pid));
            && s.t.jobs[i].pid == c.pid
            && Reaped(s.t, c).jobs == s.t.jobs[i := if c.stopped then s.t.jobs[i].(state := ST) else NONE]
  {
  }

  lemma LookupStays(s: Shell, c: Child, d: Child)
    requires Inv(s) && Known(s.t, c) && c.pid != d.pid && Known(Reaped(s.t, c), d)
    ensures var i := Lookup(Reaped(s.t, c).jobs, Pid(d.pid));
            Lookup(s.t.jobs, Pid(d.pid)) == i && s.t.jobs[i] == Reaped(s.t, c).jobs[i]
  {
    var i := Lookup(Reaped(s.t, c).jobs, Pid(d.pid));
    assert s.t.jobs[i] == Reaped(s.t, c).jobs[i] && s.t.jobs[i].pid == d.pid;
  }

  lemma {:induction false} Untouched(s: Shell, pending: seq<Child>, i: nat)
    requires Inv(s) && i < MAXJOBS && forall k :: 0 <= k < |pending| ==> pending[k].pid != s.t.jobs[i].pid
    ensures Handled(s.t, pending).jobs[i] == s.t.jobs[i]
    decreases |pending|
  {
    if pending != [] && Lookup(s.t.jobs, Pid(pending[0].pid)) != -1 {
      ReapStep(s, pending[0], pending);
      Untouched(s.(t := Reaped(s.t, pending[0])), pending[1..], i);
    }
  }

  /** Whom a lookup finds: the first slot with that process or job number, if the number is positive
      and there is one. */
  lemma LookupMeans(t: seq<Job>, who: Target)
    ensures var r := Lookup(t, who);
            match who
            case Pid(pid) =>
              && (r != -1 <==> pid >= 1 && exists k :: 0 <= k < |t| && t[k].pid == pid)
              && (r != -1 ==> t[r].pid == pid && forall k :: 0 <= k < r ==> t[k].pid != pid)
            case Jid(jid) =>
              && (r != -1 <==> jid >= 1 && exists k :: 0 <= k < |t| && t[k].jid == jid)
              && (r != -1 ==> t[r].jid == jid && forall k :: 0 <= k < r ==> t[k].jid != jid)
  {
    if who.Jid? {
      assert forall k :: 0 <= k < |t| ==> (Names(who, t[k]) <==> t[k].jid == who.jid);
    } else {
      assert forall k :: 0 <= k < |t| ==> (Names(who, t[k]) <==> t[k].pid == who.pid);
    }
  }

  /** Slot `i` is the first empty one. */
  ghost predicate FirstEmpty(t: seq<Job>, i: nat)
    requires i < |t|
  {
    t[i].pid == 0 && forall k :: 0 <= k < i ==> t[k].pid != 0
  }

  /** A launch puts its process into the first empty slot under the next number, which then moves on
      or wraps, and waits for it unless it is to run in the background. */
  lemma LaunchWorks(s: Shell, pid: int, bg: bool, i: nat)
    requires Inv(s) && Enabled(s, Launch(pid, bg)) && i < MAXJOBS && FirstEmpty(s.t.jobs, i)
    ensures var u := Apply(s, Launch(pid, bg));
            && u.t.jobs == s.t.jobs[i := Job(pid, s.t.nextjid, if bg then BG else FG)]
            && u.t.nextjid == (if s.t.nextjid < MAXJOBS then s.t.nextjid + 1 else 1)
            && u.phase == if bg then Accepting else Waiting(i, pid, true, Seen)
  {
    assert Find(s.t.jobs, Pid(0), 0) == i;
    var t := Added(s.t, pid, if bg then BG else FG);
    assert t.jobs[i].pid == pid;
    LookupMeans(t.jobs, Pid(pid));
  }

  /** What the commands achieve: a launched process is tracked iff a slot was free; fg on a job on
      the table brings that job, and nothing else, to the foreground and suspends the shell for it;
      bg sets that job running and changes nothing else; neither does anything for an unknown job. */
  lemma CommandsWork(s: Shell, e: Event)
    requires Inv(s) && Enabled(s, e)
    ensures e.Launch? ==> ((exists i :: 0 <= i < MAXJOBS && Apply(s, e).t.jobs[i].pid == e.pid)
                           <==> exists i :: 0 <= i < MAXJOBS && s.t.jobs[i].pid == 0)
    ensures (e.ToFront? || e.ToBack?) && Lookup(s.t.jobs, e.who) == -1 ==> Apply(s, e) == s
    ensures e.ToFront? && Lookup(s.t.jobs, e.who) != -1 ==>
              var i := Lookup(s.t.jobs, e.who);
              && Apply(s, e).t == s.t.(jobs := s.t.jobs[i := s.t.jobs[i].(state := FG)])
              && Apply(s, e).phase == Waiting(i, s.t.jobs[i].pid, false, Seen)
    ensures e.ToBack? && Lookup(s.t.jobs, e.who) != -1 ==>
              var i := Lookup(s.t.jobs, e.who);
              Apply(s, e) == s.(t := s.t.(jobs := s.t.jobs[i := s.t.jobs[i].(state := BG)]))
  {
    if e.ToFront? {
      FrontKeeps(s, e.who);
    } else if e.Launch? {
      var i := Find(s.t.jobs, Pid(0), 0);
      assert i != -1 ==> Apply(s, e).t.jobs[i].pid == e.pid;
    }
  }

  // ---------- fg without the assumption ----------

  /** The test that fg and bg make of the state of the job they found. */
  predicate Tested(j: Job, fg: bool) { if fg then j.state == BG || j.state == ST else j.state == ST }

  /** The store to slot `i` that follows, whatever the slot holds by then. */
  function Late(t: Table, i: nat, fg: bool): Table
    requires i < |t.jobs|
  {
    t.(jobs := t.jobs[i := t.jobs[i].(state := if fg then FG else BG)])
  }

  /** fg or bg on slot `i`, the handler running once between lookup and test and once between test
      and store. */
  function Interrupted(t: Table, i: nat, fg: bool, before: seq<Child>, after: seq<Child>): Table
    requires i < |t.jobs|
  {
    var u := Handled(t, before);
    var v := Handled(u, after);
    if Tested(u.jobs[i], fg) then Late(v, i, fg) else v
  }

  /** Without a report in between, this is what the commands do as events. */
  lemma NotInterrupted(s: Shell, who: Target)
    requires Inv(s) && s.phase == Accepting && Lookup(s.t.jobs, who) != -1
    ensures var i := Lookup(s.t.jobs, who);
            && Interrupted(s.t, i, true, [], []) == Apply(s, ToFront(who)).t
            && Interrupted(s.t, i, false, [], []) == Apply(s, ToBack(who)).t
  {
    CommandsWork(s, ToFront(who));
    CommandsWork(s, ToBack(who));
  }

  /** One run of the handler empties a live slot iff it delivers the report that its process ended. */
  lemma {:induction false} SlotAfter(s: Shell, pending: seq<Child>, i: nat)
    requires Inv(s) && i < MAXJOBS && s.t.jobs[i].pid > 0
    ensures Handled(s.t, pending).jobs[i].pid in {0, s.t.jobs[i].pid}
    ensures Handled(s.t, pending).jobs[i].pid == 0 <==>
              exists k :: 0 <= k < Reach(s.t, pending) && pending[k] == Child(s.t.jobs[i].pid, false)
    decreases |pending|
  {
    if pending != [] && Known(s.t, pending[0]) {
      var c, rest, pid := pending[0], pending[1..], s.t.jobs[i].pid;
      var t := Reaped(s.t, c);
      ReapStep(s, c, pending);
      if c == Child(pid, false) {
        HandlerKeeps(s.(t := t), rest, rest);
        assert SlotMove(t.jobs[i], Handled(t, rest).jobs[i], Sigchld(rest));
      } else {
        SlotAfter(s.(t := t), rest, i);
        assert forall k :: 0 <= k < |rest| ==> rest[k] == pending[k + 1];
        assert forall k :: 1 <= k < |pending| ==> pending[k] == rest[k - 1];
      }
    }
  }

  /** The table survives fg and bg, however the handler runs in between, iff it does not deliver the
      end of that very process between the test of its state and the store.  Before the test every
      report is harmless. */
  lemma LateUpdate(s: Shell, i: nat, fg: bool, before: seq<Child>, after: seq<Child>)
    requires Inv(s) && s.phase == Accepting && i < MAXJOBS && s.t.jobs[i].pid > 0
    ensures var u, t := Handled(s.t, before), Interrupted(s.t, i, fg, before, after);
            Inv(Shell(t, WaitFor(t, t.jobs[i].pid, false))) <==>
            (Tested(u.jobs[i], fg) ==>
               forall k :: 0 <= k < Reach(u, after) ==> after[k] != Child(s.t.jobs[i].pid, false))
  {
    var u := Handled(s.t, before);
    HandlerKeeps(s, before, before);
    HandlerKeeps(s.(t := u), after, after);
    SlotAfter(s, before, i);
    var v := s.(t := Handled(u, after));
    if Tested(u.jobs[i], fg) {
      SlotAfter(s.(t := u), after, i);
      LateSlot(v, i, fg, s.t.jobs[i].pid);
    } else {
      assert forall k :: 0 <= k < MAXJOBS ==> v.t.jobs[k].state != FG;
    }
  }

  lemma LateSlot(s: Shell, i: nat, fg: bool, pid: int)
    requires Inv(s) && s.phase == Accepting && i < MAXJOBS && s.t.jobs[i].pid in {0, pid} && pid > 0
    ensures var t := Late(s.t, i, fg);
            Inv(Shell(t, WaitFor(t, t.jobs[i].pid, false))) <==> s.t.jobs[i].pid != 0
  {
    assert s.t.jobs[i].pid == 0 ==> !SlotOk(Late(s.t, i, fg).jobs[i]);
  }

  /** What the stray entry does: with it in a lower slot, the keyboard no longer reaches the job in
      the foreground. */
  lemma StrayForeground(t: seq<Job>, i: nat, j: nat)
    requires i < j < |t| && t[i] == Job(0, 0, FG) && t[j].state == FG
    requires forall k :: 0 <= k < i ==> t[k].state != FG
    ensures FgPid(t, 0) == 0
  {
    FgPidSkips(t, 0, i);
  }

  lemma {:induction false} FgPidSkips(t: seq<Job>, i: nat, j: nat)
    requires i <= j < |t| && t[j].state == FG && forall k :: i <= k < j ==> t[k].state != FG
    ensures FgPid(t, i) == t[j].pid
    decreases j - i
  {
    if i < j {
      FgPidSkips(t, i + 1, j);
    }
  }

  // ---------- Job numbers ----------

  /** No two live jobs have the same number, so %n names one of them at most. */
  ghost predicate Distinct(t: Table) {
    forall i, j :: 0 <= i < j < |t.jobs| && t.jobs[i].jid == t.jobs[j].jid ==> t.jobs[i].jid == 0
  }

  /** A launch does not hand out the number of a live job: it has no slot to fill, or the next
      number is not in use. */
  ghost predicate Unused(t: Table) {
    || (forall i :: 0 <= i < |t.jobs| ==> t.jobs[i].pid != 0)
    || (forall i :: 0 <= i < |t.jobs| ==> t.jobs[i].jid != t.nextjid)
  }

  lemma {:induction false} HandlerDistinct(s: Shell, pending: seq<Child>)
    requires Inv(s) && Distinct(s.t)
    ensures Distinct(Handled(s.t, pending))
    decreases |pending|
  {
    if pending != [] && Known(s.t, pending[0]) {
      ReapStep(s, pending[0], pending);
      HandlerDistinct(s.(t := Reaped(s.t, pending[0])), pending[1..]);
    }
  }

  /** One event keeps the numbers of live jobs distinct, unless it is a launch that hands out one
      in use. */
  lemma DistinctStep(s: Shell, e: Event)
    requires Inv(s) && Enabled(s, e) && Distinct(s.t)
    ensures Distinct(Apply(s, e).t) <==> (e.Launch? ==> Unused(s.t))
  {
    match e
    case Launch(pid, bg) =>
      var i := Find(s.t.jobs, Pid(0), 0);
      if i != -1 {
        var u := Apply(s, e).t.jobs;
        assert s.t.jobs[i].pid == 0 && SlotOk(s.t.jobs[i]) && u[i].jid == s.t.nextjid;
        if Distinct(Apply(s, e).t) {
          forall k | 0 <= k < MAXJOBS ensures s.t.jobs[k].jid != s.t.nextjid {
            assert k != i ==> u[k] == s.t.jobs[k];
          }
        }
      }
    case Sigchld(pending) => HandlerDistinct(s, pending);
    case ToFront(who) =>
    case ToBack(who) =>
    case Keyboard =>
    case Suspend =>
    case Look =>
  }

  /** Numbers are distinct before and after every event of the run. */
  ghost predicate AlwaysDistinct(s: Shell, es: seq<Event>)
    requires Legal(s, es)
    decreases |es|
  {
    Distinct(s.t) && (es == [] || AlwaysDistinct(Apply(s, es[0]), es[1..]))
  }

  /** Every launch of the run finds the next number unused. */
  ghost predicate AlwaysUnused(s: Shell, es: seq<Event>)
    requires Legal(s, es)
    decreases |es|
  {
    es == [] || ((es[0].Launch? ==> Unused(s.t)) && AlwaysUnused(Apply(s, es[0]), es[1..]))
  }

  /** Job numbers stay distinct throughout a run iff each of its launches finds the next number
      unused. */
  lemma {:induction false} NumbersDistinct(s: Shell, es: seq<Event>)
    requires Inv(s) && Legal(s, es) && Distinct(s.t)
    ensures AlwaysDistinct(s, es) <==> AlwaysUnused(s, es)
    decreases |es|
  {
    if es != [] {
      var s' := Apply(s, es[0]);
      StepKeeps(s, es[0]);
      DistinctStep(s, es[0]);
      if Distinct(s'.t) {
        NumbersDistinct(s', es[1..]);
      }
    }
  }

  /** Every number in use is below the next one. */
  ghost predicate Numbered(t: Table) {
    forall i :: 0 <= i < |t.jobs| ==> t.jobs[i].jid < t.nextjid
  }

  lemma {:induction false} HandlerNumbers(s: Shell, pending: seq<Child>)
    requires Inv(s) && Numbered(s.t)
    ensures Numbered(Handled(s.t, pending))
    decreases |pending|
  {
    if pending != [] && Known(s.t, pending[0]) {
      ReapStep(s, pending[0], pending);
      HandlerNumbers(s.(t := Reaped(s.t, pending[0])), pending[1..]);
    }
  }

  /** The next number is one more than the largest in the table. */
  ghost predicate NextAbove(t: Table) {
    && (forall i :: 0 <= i < |t.jobs| ==> t.jobs[i].jid < t.nextjid)
    && (t.nextjid == 1 || exists i :: 0 <= i < |t.jobs| && t.jobs[i].jid == t.nextjid - 1)
  }

  /** One report: the end of a job sets the next number anew, a stop changes no number. */
  lemma ReapNumber(t: Table, c: Child)
    requires Known(t, c)
    ensures !c.stopped ==> NextAbove(Reaped(t, c))
    ensures c.stopped ==> Reaped(t, c).nextjid == t.nextjid && (NextAbove(t) ==> NextAbove(Reaped(t, c)))
  {
    hide Find;
    var u := Reaped(t, c);
    assert c.stopped ==> forall i :: 0 <= i < |t.jobs| ==> u.jobs[i].jid == t.jobs[i].jid;
  }

  lemma {:induction false} NextStays(t: Table, pending: seq<Child>)
    requires NextAbove(t)
    ensures NextAbove(Handled(t, pending))
    decreases |pending|
  {
    if pending != [] && Known(t, pending[0]) {
      ReapNumber(t, pending[0]);
      hide NextAbove, Reaped;
      NextStays(Reaped(t, pending[0]), pending[1..]);
    }
  }

  /** Whether a report that one run of the handler delivers is the end of a process. */
  ghost predicate EndsOne(t: Table, pending: seq<Child>) {
    exists k :: 0 <= k < Reach(t, pending) && !pending[k].stopped
  }

  /** The number that the next job gets after a run of the handler: one more than the largest in the
      table if some job has ended, and the one it would have got before otherwise. */
  lemma {:induction false} NextNumber(t: Table, pending: seq<Child>)
    ensures EndsOne(t, pending) ==> NextAbove(Handled(t, pending))
    ensures !EndsOne(t, pending) ==> Handled(t, pending).nextjid == t.nextjid
    decreases |pending|
  {
    if pending != [] && Known(t, pending[0]) {
      var c, rest := pending[0], pending[1..];
      ReapNumber(t, c);
      hide NextAbove, Reaped, Find;
      if c.stopped {
        NextNumber(Reaped(t, c), rest);
        assert forall k :: 0 <= k < |rest| ==> rest[k] == pending[k + 1];
        assert forall k :: 1 <= k < |pending| ==> pending[k] == rest[k - 1];
      } else {
        assert EndsOne(t, pending);
        NextStays(Reaped(t, c), rest);
      }
    }
  }

  ghost predicate NoWrap(s: Shell, es: seq<Event>)
    requires Legal(s, es)
    decreases |es|
  {
    es == [] || ((es[0].Launch? ==> s.t.nextjid < MAXJOBS) && NoWrap(Apply(s, es[0]), es[1..]))
  }

  /** Until a launch wraps nextjid, every launch finds the next number unused. */
  lemma {:induction false} UnusedBeforeWrap(s: Shell, es: seq<Event>)
    requires Inv(s) && Legal(s, es) && Numbered(s.t) && NoWrap(s, es)
    ensures AlwaysUnused(s, es) && Numbered(Run(s, es).t)
    decreases |es|
  {
    if es != [] {
      StepKeeps(s, es[0]);
      if es[0].Sigchld? {
        HandlerNumbers(s, es[0].pending);
      }
      UnusedBeforeWrap(Apply(s, es[0]), es[1..]);
    }
  }

  // ---------- Runs from the start of the shell ----------

  /** After `n` background launches of the processes 101, 102, ... */
  function Busy(n: nat): Table {
    Table(seq(MAXJOBS, i => if i < n then Job(101 + i, i + 1, BG) else NONE), if n < MAXJOBS then n + 1 else 1)
  }

  function Launches(n: nat): seq<Event> { seq(n, i => Launch(101 + i, true)) }

  lemma BusyStep(n: nat)
    requires n < MAXJOBS
    ensures var s := Shell(Busy(n), Accepting);
            Enabled(s, Launch(101 + n, true)) && Apply(s, Launch(101 + n, true)) == Shell(Busy(n + 1), Accepting)
  {
    var t := Busy(n);
    assert t.jobs[n].pid == 0 && forall i :: 0 <= i < n ==> t.jobs[i].pid != 0;
    assert Find(t.jobs, Pid(0), 0) == n;
    assert t.jobs[n := Job(101 + n, n + 1, BG)] == Busy(n + 1).jobs;
  }

  lemma {:induction false} RunAppend(s: Shell, es: seq<Event>, e: Event)
    requires Legal(s, es) && Enabled(Run(s, es), e)
    ensures Legal(s, es + [e]) && Run(s, es + [e]) == Apply(Run(s, es), e)
    decreases |es|
  {
    if es == [] {
      assert [e][1..] == [];
      assert es + [e] == [e];
    } else {
      RunAppend(Apply(s, es[0]), es[1..], e);
      assert (es + [e])[1..] == es[1..] + [e];
    }
  }

  /** The shell gets there: up to sixteen jobs, numbered in order. */
  lemma {:induction false} BusyRun(n: nat)
    requires n <= MAXJOBS
    ensures Legal(START, Launches(n)) && Run(START, Launches(n)) == Shell(Busy(n), Accepting)
    decreases n
  {
    if n == 0 {
      assert START.t.jobs == Busy(0).jobs;
    } else {
      BusyRun(n - 1);
      BusyStep(n - 1);
      RunAppend(START, Launches(n - 1), Launch(101 + n - 1, true));
      assert Launches(n) == Launches(n - 1) + [Launch(101 + n - 1, true)];
    }
  }

  /** Fifteen jobs of which the second has ended, and the two launches after that. */
  function Reused(launched: nat): Table {
    var jobs := Busy(15).jobs[1 := NONE];
    if launched == 0 then Table(jobs, 16)
    else if launched == 1 then Table(jobs[1 := Job(116, 16, BG)], 1)
    else Table(jobs[1 := Job(116, 16, BG)][15 := Job(117, 1, BG)], 2)
  }

  lemma ReusedReap()
    ensures Handled(Busy(15), [Child(102, false)]) == Reused(0)
  {
    var t, pending := Busy(15), [Child(102, false)];
    assert t.jobs[0].pid == 101 && t.jobs[1].pid == 102;
    assert Lookup(t.jobs, Pid(102)) == 1;
    var jobs := t.jobs[1 := NONE];
    assert jobs[14].jid == 15 && MaxJid(jobs) == 15;
    assert pending[1..] == [] && Handled(t, pending) == Reaped(t, pending[0]);
  }

  lemma ReusedLaunch(k: nat)
    requires k < 2
    ensures Enabled(Shell(Reused(k), Accepting), Launch(116 + k, true))
    ensures Added(Reused(k), 116 + k, BG) == Reused(k + 1)
  {
    var jobs := Reused(k).jobs;
    if k == 0 {
      assert jobs[0].pid == 101 && jobs[1].pid == 0 && Find(jobs, Pid(0), 0) == 1;
    } else {
      assert (forall i :: 0 <= i < 15 ==> jobs[i].pid != 0) && jobs[15].pid == 0;
      assert Find(jobs, Pid(0), 0) == 15;
    }
  }

  /** Fifteen jobs, the second ends, two more are launched: two live jobs have the number 1. */
  lemma NumberReused()
    ensures var es := Launches(15) + [Sigchld([Child(102, false)])] + [Launch(116, true)] + [Launch(117, true)];
            && Legal(START, es)
            && var t := Run(START, es).t;
               && |t.jobs| == MAXJOBS && t.jobs[0] == Job(101, 1, BG) && t.jobs[15] == Job(117, 1, BG)
               && !Distinct(t)
  {
    hide Handled, Added, Busy;
    var es, e := Launches(15), Sigchld([Child(102, false)]);
    BusyRun(15);
    ReusedReap();
    RunAppend(START, es, e);
    ReusedLaunch(0);
    RunAppend(START, es + [e], Launch(116, true));
    ReusedLaunch(1);
    RunAppend(START, es + [e] + [Launch(116, true)], Launch(117, true));
    ReusedTable();
  }

  lemma ReusedTable()
    ensures var jobs := Reused(2).jobs;
            |jobs| == MAXJOBS && jobs[0] == Job(101, 1, BG) && jobs[15] == Job(117, 1, BG)
  {
  }

  /** A full table in a run from the start: the seventeenth process is not tracked, and once it ends
      the report of the first one, which comes behind it, is not asked for. */
  lemma ReportLeft()
    ensures var es := Launches(16) + [Launch(117, true)];
            var pending := [Child(117, false), Child(101, false)];
            && Legal(START, es)
            && var t := Run(START, es).t;
               Known(t, pending[1]) && Taken(t, pending) == 1 && Handled(t, pending) == t
  {
    hide Busy, Handled, Reach, Find, Added;
    BusyRun(16);
    BusyFull();
    var s := Shell(Busy(16), Accepting);
    RunKeeps(START, Launches(16));
    RunAppend(START, Launches(16), Launch(117, true));
    UntrackedLaunch(s, 117, true, false, [Child(101, false)]);
    assert [Child(117, false)] + [Child(101, false)] == [Child(117, false), Child(101, false)];
  }

  lemma BusyFull()
    ensures |Busy(16).jobs| == MAXJOBS && forall i :: 0 <= i < MAXJOBS ==> 0 < Busy(16).jobs[i].pid < 117
    ensures Known(Busy(16), Child(101, false))
  {
    assert Busy(16).jobs[0].pid == 101;
  }

  /** The race of LateUpdate in a run from the start: the first of two jobs ends between the test
      and the store of fg, a second fg takes the other, and ctrl-c reaches nobody. */
  lemma KeyboardLost()
    ensures && Legal(START, Launches(2))
            && var s := Run(START, Launches(2));
               var t := Interrupted(s.t, 0, true, [], [Child(101, false)]);
               var u := Apply(Shell(t, Accepting), ToFront(Pid(102)));
               && WaitFor(t, t.jobs[0].pid, false) == Accepting && !Inv(Shell(t, Accepting))
               && u.phase == Waiting(1, 102, false, Seen) && u.t.jobs[1].state == FG && FgPid(u.t.jobs, 0) == 0
  {
    BusyRun(2);
    RunKeeps(START, Launches(2));
    var s := Run(START, Launches(2));
    var pending := [Child(101, false)];
    assert s.t.jobs[0] == Job(101, 1, BG) && s.t.jobs[1] == Job(102, 2, BG);
    assert Lookup(s.t.jobs, Pid(101)) == 0;
    assert pending[1..] == [] && Handled(s.t, pending) == Reaped(s.t, pending[0]);
    LateUpdate(s, 0, true, [], pending);
    var t := Interrupted(s.t, 0, true, [], pending);
    assert t.jobs[0] == Job(0, 0, FG) && t.jobs[1] == Job(102, 2, BG);
    assert Lookup(t.jobs, Pid(102)) == 1;
    var u := Apply(Shell(t, Accepting), ToFront(Pid(102)));
    assert u.t.jobs[0] == Job(0, 0, FG) && u.t.jobs[1] == Job(102, 2, FG);
    StrayForeground(u.t.jobs, 0, 1);
  }

  /** fg of the only job, which ends between the test and sigsuspend: nothing but a further signal
      ends the wait. */
  lemma FgStuck()
    ensures var es := Launches(1) + [ToFront(Pid(101))] + [Sigchld([Child(101, false)])] + [Suspend];
            Legal(START, es) && Stuck(Run(START, es))
  {
    BusyRun(1);
    RunKeeps(START, Launches(1));
    var s, pending := Shell(Busy(1), Accepting), [Child(101, false)];
    assert s.t.jobs[0] == Job(101, 1, BG);
    assert Lookup(s.t.jobs, Pid(101)) == 0;
    CommandsWork(s, ToFront(Pid(101)));
    StepKeeps(s, ToFront(Pid(101)));
    var u := Apply(s, ToFront(Pid(101)));
    assert Lookup(u.t.jobs, Pid(101)) == 0 && Reach(u.t, pending) == 1 && pending[0].pid == 101;
    BackToPrompt(u, pending);
    RunAppend(START, Launches(1), ToFront(Pid(101)));
    RunAppend(START, Launches(1) + [ToFront(Pid(101))], Sigchld(pending));
    RunAppend(START, Launches(1) + [ToFront(Pid(101))] + [Sigchld(pending)], Suspend);
  }

  // ---------- The program's own table ----------

  class JobList {
    const jobs: array<Job>
    var nextjid: int

    /** initjobs. */
    constructor ()
      ensures jobs.Length == MAXJOBS && fresh(jobs) && Contents() == START.t
    {
      jobs := new Job[MAXJOBS](_ => NONE);
      nextjid := 1;
    }

    ghost function Contents(): Table
      reads this, jobs
    {
      Table(jobs[..], nextjid)
    }

    method MaxJidOf() returns (max: int)
      ensures max == MaxJid(jobs[..])
    {
      max := 0;
      var i := 0;
      while i < jobs.Length
        invariant 0 <= i <= jobs.Length && max == MaxJid(jobs[..i])
      {
        assert jobs[..i + 1][..i] == jobs[..i];
        if jobs[i].jid > max {
          max := jobs[i].jid;
        }
        i := i + 1;
      }
      assert jobs[..i] == jobs[..];
    }

    method AddJob(pid: int, state: State) returns (ok: bool)
      modifies this, jobs
      ensures Contents() == Added(old(Contents()), pid, state)
      ensures ok <==> pid >= 1 && exists i :: 0 <= i < jobs.Length && old(jobs[i]).pid == 0
      ensures !ok ==> Contents() == old(Contents())
      ensures ok ==>
        && nextjid == (if old(nextjid) < MAXJOBS then old(nextjid) + 1 else 1)
        && exists i: nat :: i < jobs.Length && FirstEmpty(old(jobs[..]), i) && jobs[..] == old(jobs[..])[i := Job(pid, old(nextjid), state)]
    {
      if pid < 1 {
        return false;
      }
      var i := 0;
      while i < jobs.Length
        invariant 0 <= i <= jobs.Length && jobs[..] == old(jobs[..]) && nextjid == old(nextjid)
        invariant forall k :: 0 <= k < i ==> jobs[k].pid != 0
      {
        if jobs[i].pid == 0 {
          assert Find(jobs[..], Pid(0), 0) == i && FirstEmpty(jobs[..], i);
          jobs[i] := Job(pid, nextjid, state);
          nextjid := nextjid + 1;
          if nextjid > MAXJOBS {
            nextjid := 1;
          }
          return true;
        }
        i := i + 1;
      }
      return false;
    }

    /** getjobpid and getjobjid. */
    method GetJob(who: Target) returns (slot: int)
      ensures slot == Lookup(jobs[..], who) && -1 <= slot < jobs.Length
      ensures who.Pid? ==> (slot != -1 <==> who.pid >= 1 && exists k :: 0 <= k < jobs.Length && jobs[k].pid == who.pid)
      ensures who.Jid? ==> (slot != -1 <==> who.jid >= 1 && exists k :: 0 <= k < jobs.Length && jobs[k].jid == who.jid)
      ensures slot != -1 && who.Pid? ==> jobs[slot].pid == who.pid && forall k :: 0 <= k < slot ==> jobs[k].pid != who.pid
      ensures slot != -1 && who.Jid? ==> jobs[slot].jid == who.jid && forall k :: 0 <= k < slot ==> jobs[k].jid != who.jid
    {
      LookupMeans(jobs[..], who);
      if (match who case Pid(pid) => pid case Jid(jid) => jid) < 1 {
        return -1;
      }
      slot := 0;
      while slot < jobs.Length
        invariant 0 <= slot <= jobs.Length
        invariant forall k :: 0 <= k < slot ==> !Names(who, jobs[k])
      {
        if Names(who, jobs[slot]) {
          return;
        }
        slot := slot + 1;
      }
      slot := -1;
    }

    method FgPidOf() returns (pid: int)
      ensures pid == FgPid(jobs[..], 0)
    {
      var i := 0;
      while i < jobs.Length
        invariant 0 <= i <= jobs.Length && FgPid(jobs[..], 0) == FgPid(jobs[..], i)
      {
        if jobs[i].state == FG {
          return jobs[i].pid;
        }
        i := i + 1;
      }
      pid := 0;
    }

    /** sigchld_handler; `pending` is what waitpid will report, `left` what it is not asked for. */
    method SigchldHandler(pending: seq<Child>) returns (left: seq<Child>)
      modifies this, jobs
      ensures Contents() == Handled(old(Contents()), pending)
      ensures left == pending[Taken(old(Contents()), pending)..]
      ensures EndsOne(old(Contents()), pending) ==> NextAbove(Contents())
      ensures !EndsOne(old(Contents()), pending) ==> nextjid == old(nextjid)
    {
      hide EndsOne, NextAbove, Find, Reaped;
      NextNumber(Contents(), pending);
      var i := 0;
      while i < |pending|
        invariant 0 <= i <= |pending|
        invariant Handled(Contents(), pending[i..]) == Handled(old(Contents()), pending)
        invariant i + Reach(Contents(), pending[i..]) == Reach(old(Contents()), pending)
      {
        var c := pending[i];
        assert pending[i..][0] == c && pending[i..][1..] == pending[i + 1..];
        var slot := GetJob(Pid(c.pid));
        if slot == -1 {
          return pending[i + 1..];
        }
        Reap(slot, c);
        i := i + 1;
      }
      left := [];
    }

    method Reap(slot: nat, c: Child)
      requires slot == Lookup(jobs[..], Pid(c.pid))
      modifies this, jobs
      ensures Contents() == Reaped(old(Contents()), c)
    {
      if c.stopped {
        jobs[slot] := jobs[slot].(state := ST);
      } else {
        jobs[slot] := NONE;
        var max := MaxJidOf();
        nextjid := max + 1;
      }
    }

    /** fg up to the call of waitfg, whose argument it returns (0 when waitfg is not called). */
    method Foreground(who: Target) returns (pid: int)
      modifies this, jobs
      ensures Apply(Shell(old(Contents()), Accepting), ToFront(who)) == Shell(Contents(), WaitFor(Contents(), pid, false))
    {
      pid := 0;
      var slot := GetJob(who);
      if slot != -1 && jobs[slot].state != FG {
        if jobs[slot].state != UNDEF {
          jobs[slot] := jobs[slot].(state := FG);
        }
        pid := jobs[slot].pid;
      }
    }

    /** bg. */
    method Background(who: Target)
      modifies jobs
      ensures Shell(Contents(), Accepting) == Apply(Shell(old(Contents()), Accepting), ToBack(who))
    {
      var slot := GetJob(who);
      if slot != -1 && jobs[slot].state == ST {
        jobs[slot] := jobs[slot].(state := BG);
      }
    }
  }
}
