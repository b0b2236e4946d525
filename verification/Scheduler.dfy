/** The round-robin scheduler: at most four tasks, a quantum of twenty ticks. */
module Scheduler {
  import opened Bits

  const MAX_TASKS := 4
  const QUANTUM := 20
  const KSTACK_WORDS := 0x1000
  const KSTACK_SIZE := 0x4000

  datatype TaskState = Dead | Ready | Running

  // ----- the state machine -----

  /** What decides who runs and where it goes on: the state of each one there is and the stack pointer saved
      for it, the current one, the ticks it has left. */
  datatype State = State(tasks: seq<TaskState>, saved: seq<Word>, cur: nat, left: nat)

  /** A timer tick that interrupts the current one at stack pointer esp; a kill; a new one whose first frame
      is at sp. */
  datatype Event = Tick(esp: Word) | KillCurrent | Kill(id: nat) | Add(sp: Word)

  /** One running task, with nothing saved for it yet. */
  ghost function Boot(): State { State([Running], [0], 0, QUANTUM) }

  /** Only the current task is ever running, and it is running unless it has been killed. */
  ghost predicate Valid(s: State) {
    && 1 <= |s.tasks| <= MAX_TASKS && |s.saved| == |s.tasks| && s.cur < |s.tasks| && 1 <= s.left <= QUANTUM
    && s.tasks[s.cur] != Ready
    && forall i | 0 <= i < |s.tasks| && i != s.cur :: s.tasks[i] != Running
  }

  /** The first live task from distance i on, round the table; the current one if there is none. */
  ghost function NextFrom(s: State, i: nat): nat
    requires Valid(s)
    decreases |s.tasks| + 1 - i
  {
    if i > |s.tasks| then s.cur
    else if s.tasks[(s.cur + i) % |s.tasks|] != Dead then (s.cur + i) % |s.tasks|
    else NextFrom(s, i + 1)
  }

  ghost function Step(s: State, e: Event): State
    requires Valid(s)
  {
    match e
    case Tick(esp) =>
      var saved := s.saved[s.cur := esp];
      if s.left > 1 then s.(saved := saved, left := s.left - 1)
      else
        var next := NextFrom(s, 1);
        if next != s.cur && next < |s.tasks| then State(s.tasks[s.cur := Ready][next := Running], saved, next, QUANTUM)
        else s.(saved := saved, left := QUANTUM)
    case KillCurrent => s.(tasks := s.tasks[s.cur := Dead])
    case Kill(id) => if id < |s.tasks| then s.(tasks := s.tasks[id := Dead]) else s
    case Add(sp) => if |s.tasks| < MAX_TASKS then s.(tasks := s.tasks + [Ready], saved := s.saved + [sp]) else s
  }

  lemma {:induction false} NextIsLive(s: State, i: nat)
    requires Valid(s) && 1 <= i
    ensures NextFrom(s, i) < |s.tasks|
    ensures NextFrom(s, i) != s.cur ==> s.tasks[NextFrom(s, i)] == Ready
    decreases |s.tasks| + 1 - i
  {
    if i <= |s.tasks| { NextIsLive(s, i + 1); }
  }

  /** Every step keeps a single runner. */
  lemma StepValid(s: State, e: Event)
    requires Valid(s)
    ensures Valid(Step(s, e)) && |Step(s, e).tasks| >= |s.tasks|
  {
    NextIsLive(s, 1);
  }

  ghost function Run(s: State, es: seq<Event>): State
    requires Valid(s)
    ensures Valid(Run(s, es))
    decreases |es|
  {
    StepsValid(s, es);
    if es == [] then s else Run(Step(s, es[0]), es[1..])
  }

  lemma StepsValid(s: State, es: seq<Event>)
    requires Valid(s)
    ensures es != [] ==> Valid(Step(s, es[0]))
  {
    if es != [] { StepValid(s, es[0]); }
  }

  ghost function Ticks(es: seq<Event>): nat {
    if es == [] then 0 else (if es[0].Tick? then 1 else 0) + Ticks(es[1..])
  }

  // ----- waiting is bounded -----

  /** How many places after the current one t comes in the round of n tasks. */
  ghost function Distance(n: nat, cur: nat, t: nat): int {
    if t >= cur then t - cur else t + n - cur
  }

  /** The most ticks a ready task can still have to wait. */
  ghost function Wait(s: State, t: nat): int {
    (Distance(|s.tasks|, s.cur, t) - 1) * QUANTUM + s.left
  }

  lemma {:induction false} NextNotPast(s: State, t: nat, i: nat)
    requires Valid(s) && t < |s.tasks| && s.tasks[t] == Ready && t != s.cur
    requires 1 <= i <= Distance(|s.tasks|, s.cur, t)
    ensures NextFrom(s, i) < |s.tasks| && NextFrom(s, i) != s.cur
    ensures i <= Distance(|s.tasks|, s.cur, NextFrom(s, i)) <= Distance(|s.tasks|, s.cur, t)
    decreases Distance(|s.tasks|, s.cur, t) - i
  {
    var k := (s.cur + i) % |s.tasks|;
    assert k == if s.cur + i < |s.tasks| then s.cur + i else s.cur + i - |s.tasks|;
    assert Distance(|s.tasks|, s.cur, k) == i;
    if s.tasks[k] == Dead {
      assert k != t;
      NextNotPast(s, t, i + 1);
    }
  }

  /** Who is next: the first ready one after the current one, going round; the current one if none is ready. */
  lemma NextChosen(s: State)
    requires Valid(s)
    ensures NextFrom(s, 1) < |s.tasks|
    ensures NextFrom(s, 1) == s.cur <==> forall i | 0 <= i < |s.tasks| :: s.tasks[i] != Ready
    ensures NextFrom(s, 1) != s.cur ==> s.tasks[NextFrom(s, 1)] == Ready
    ensures forall i | 0 <= i < |s.tasks| && s.tasks[i] == Ready ::
      (if NextFrom(s, 1) > s.cur then NextFrom(s, 1) - s.cur else NextFrom(s, 1) + |s.tasks| - s.cur)
      <= if i > s.cur then i - s.cur else i + |s.tasks| - s.cur
  {
    hide NextFrom;
    NextIsLive(s, 1);
    forall i | 0 <= i < |s.tasks| && s.tasks[i] == Ready
      ensures NextFrom(s, 1) != s.cur
              && Distance(|s.tasks|, s.cur, NextFrom(s, 1)) <= Distance(|s.tasks|, s.cur, i)
    {
      NextNotPast(s, i, 1);
    }
  }

  /** What a tick does: within the quantum it counts down; at the end of it the first ready one after the current
      one, going round, runs for the next twenty ticks; if none is ready nothing changes hands. */
  lemma TickMeans(s: State, esp: Word)
    requires Valid(s)
    ensures var r := Step(s, Tick(esp));
      && r.saved == s.saved[s.cur := esp]
      && (s.left > 1 ==> r.left == s.left - 1 && r.cur == s.cur && r.tasks == s.tasks)
      && (s.left <= 1 ==> r.left == 20)
      && (s.left <= 1 && (forall i | 0 <= i < |s.tasks| :: s.tasks[i] != Ready) ==>
            r.cur == s.cur && r.tasks == s.tasks)
    ensures var r := Step(s, Tick(esp));
      s.left <= 1 && (exists i :: 0 <= i < |s.tasks| && s.tasks[i] == Ready) ==>
        && r.cur < |s.tasks| && r.cur != s.cur && s.tasks[r.cur] == Ready
        && r.tasks == s.tasks[s.cur := Ready][r.cur := Running]
        && (forall i | 0 <= i < |s.tasks| && s.tasks[i] == Ready ::
              (if r.cur > s.cur then r.cur - s.cur else r.cur + |s.tasks| - s.cur)
              <= if i > s.cur then i - s.cur else i + |s.tasks| - s.cur)
  {
    hide NextFrom;
    NextChosen(s);
  }

  /** What the other events do. */
  lemma EventsMean(s: State, id: nat, sp: Word)
    requires Valid(s)
    ensures Step(s, KillCurrent) == s.(tasks := s.tasks[s.cur := Dead])
    ensures id < |s.tasks| ==> Step(s, Kill(id)) == s.(tasks := s.tasks[id := Dead])
    ensures id >= |s.tasks| ==> Step(s, Kill(id)) == s
    ensures |s.tasks| < 4 ==> Step(s, Add(sp)) == s.(tasks := s.tasks + [Ready], saved := s.saved + [sp])
    ensures |s.tasks| >= 4 ==> Step(s, Add(sp)) == s
    ensures Boot() == State([Running], [0], 0, 20)
  {
  }

  /** One event brings a ready task closer to its turn, unless it is its turn. */
  lemma StepCloser(s: State, t: nat, e: Event)
    requires Valid(s) && t < |s.tasks| && s.tasks[t] == Ready && t != s.cur
    requires !e.Add? && e != Kill(t)
    ensures Valid(Step(s, e)) && |Step(s, e).tasks| == |s.tasks|
    ensures Step(s, e).cur == t
      || (Step(s, e).tasks[t] == Ready && Step(s, e).cur != t
          && Wait(Step(s, e), t) <= Wait(s, t) - if e.Tick? then 1 else 0)
  {
    StepValid(s, e);
    if e.Tick? && s.left == 1 {
      NextNotPast(s, t, 1);
      var n := NextFrom(s, 1);
      if n != t {
        assert Distance(|s.tasks|, n, t) < Distance(|s.tasks|, s.cur, t);
      }
    }
  }

  /** Bounded waiting: whatever else happens, as long as no task is added and t is not killed, a ready task
      gets its turn within so many ticks. */
  lemma {:induction false} GetsItsTurn(s: State, t: nat, es: seq<Event>) returns (k: nat)
    requires Valid(s) && t < |s.tasks| && s.tasks[t] == Ready && t != s.cur
    requires forall e | e in es :: !e.Add? && e != Kill(t)
    requires Ticks(es) >= Wait(s, t)
    ensures k <= |es| && Run(s, es[..k]).cur == t && Run(s, es[..k]).tasks[t] == Running
    ensures Ticks(es[..k]) <= Wait(s, t)
    decreases |es|
  {
    WaitBound(s, t);
    var e, s2 := es[0], Step(s, es[0]);
    assert e in es;
    assert forall f | f in es[1..] :: f in es;
    StepCloser(s, t, e);
    if s2.cur == t {
      k := 1;
      assert es[..1] == [e];
      assert Run(s, [e]) == s2;
    } else {
      var k2 := GetsItsTurn(s2, t, es[1..]);
      k := k2 + 1;
      assert es[..k][0] == e && es[..k][1..] == es[1..][..k2];
    }
  }

  /** A ready task never waits more than twenty ticks for each other task. */
  lemma WaitBound(s: State, t: nat)
    requires Valid(s) && t < |s.tasks| && t != s.cur
    ensures 0 < Wait(s, t) <= QUANTUM * (|s.tasks| - 1)
  {
  }

  /** A task that is dead and not current stays so, and is never chosen again, whatever happens. */
  lemma {:induction false} DeadForGood(s: State, t: nat, es: seq<Event>)
    requires Valid(s) && t < |s.tasks| && s.tasks[t] == Dead && t != s.cur
    ensures t < |Run(s, es).tasks| && Run(s, es).tasks[t] == Dead && Run(s, es).cur != t
    decreases |es|
  {
    if es != [] {
      StepValid(s, es[0]);
      NextIsLive(s, 1);
      DeadForGood(Step(s, es[0]), t, es[1..]);
    }
  }

  /** A task that is killed while it is not current is never current again and stays dead, whatever happened
      before and whatever happens afterwards. */
  lemma KilledForGood(es: seq<Event>, t: nat, fs: seq<Event>)
    requires t < |Run(Boot(), es).tasks| && t != Run(Boot(), es).cur
    ensures var s := Run(Boot(), es + [Kill(t)] + fs);
            t < |s.tasks| && s.tasks[t] == Dead && s.cur != t
  {
    RunLast(Boot(), es, Kill(t));
    RunTwo(Boot(), es + [Kill(t)], fs);
    DeadForGood(Run(Boot(), es + [Kill(t)]), t, fs);
  }

  /** A task killed while it is current comes back to life at the end of its quantum exactly when another
      task is ready to take over; otherwise it stays dead and goes on running. */
  lemma KilledCurrent(s: State, esp: Word)
    requires Valid(s) && s.tasks[s.cur] == Dead && s.left == 1
    ensures Step(s, Tick(esp)).tasks[s.cur] == Ready <==> exists t :: 0 <= t < |s.tasks| && s.tasks[t] == Ready
    ensures Step(s, Tick(esp)).tasks[s.cur] != Ready ==>
              Step(s, Tick(esp)).tasks[s.cur] == Dead && Step(s, Tick(esp)).cur == s.cur
  {
    NextIsLive(s, 1);
    if t :| 0 <= t < |s.tasks| && s.tasks[t] == Ready {
      NextNotPast(s, t, 1);
    }
  }

  /** Ticks within a quantum only count down. */
  lemma {:induction false} Countdown(s: State, es: seq<Event>)
    requires Valid(s) && |es| < s.left && forall e | e in es :: e.Tick?
    ensures Run(s, es).tasks == s.tasks && Run(s, es).cur == s.cur && Run(s, es).left == s.left - |es|
    decreases |es|
  {
    if es != [] {
      assert es[0] in es && forall e | e in es[1..] :: e in es;
      StepValid(s, es[0]);
      Countdown(Step(s, es[0]), es[1..]);
    }
  }

  lemma AddedAndKilled()
    ensures Run(Boot(), [Add(0), KillCurrent]) == State([Dead, Ready], [0, 0], 0, QUANTUM)
  {
    assert Step(Boot(), Add(0)) == State([Running, Ready], [0, 0], 0, QUANTUM);
    assert [Add(0), KillCurrent][1..] == [KillCurrent];
    assert Step(State([Running, Ready], [0, 0], 0, QUANTUM), KillCurrent)
        == State([Dead, Ready], [0, 0], 0, QUANTUM);
  }

  /** From start-up: a second one is added, the first is killed while it is current, and a quantum of ticks
      later it is ready again. */
  lemma KilledAndRevived(ticks: seq<Event>)
    requires |ticks| == QUANTUM && forall e | e in ticks :: e.Tick?
    ensures Run(Boot(), [Add(0), KillCurrent] + ticks).tasks == [Ready, Running]
  {
    var es := [Add(0), KillCurrent] + ticks;
    var n := |es| - 1;
    var s := State([Dead, Ready], [0, 0], 0, QUANTUM);
    AddedAndKilled();
    hide Run, Step;
    var most := ticks[..QUANTUM - 1];
    assert forall e | e in most :: e in ticks;
    Countdown(s, most);
    RunTwo(Boot(), [Add(0), KillCurrent], most);
    assert es == ([Add(0), KillCurrent] + most) + [ticks[QUANTUM - 1]];
    RunLast(Boot(), [Add(0), KillCurrent] + most, ticks[QUANTUM - 1]);
    KilledCurrent(Run(s, most), ticks[QUANTUM - 1].esp);
    NextIsLive(Run(s, most), 1);
  }

  lemma {:induction false} RunTwo(s: State, es: seq<Event>, fs: seq<Event>)
    requires Valid(s)
    ensures Run(s, es + fs) == Run(Run(s, es), fs)
    decreases |es|
  {
    if es == [] {
      assert es + fs == fs;
    } else {
      StepValid(s, es[0]);
      assert (es + fs)[1..] == es[1..] + fs;
      RunTwo(Step(s, es[0]), es[1..], fs);
    }
  }

  lemma RunLast(s: State, es: seq<Event>, e: Event)
    requires Valid(s)
    ensures Run(s, es + [e]) == Step(Run(s, es), e)
  {
    RunTwo(s, es, [e]);
    StepValid(Run(s, es), e);
    assert Run(Step(Run(s, es), e), []) == Step(Run(s, es), e);
  }

  // ----- saved stack pointers over whole runs -----

  /** Event k of a run from s saves x for t: a tick that interrupts t there, or the addition of t. */
  ghost predicate Saves(s: State, es: seq<Event>, k: nat, t: nat, x: Word)
    requires Valid(s)
  {
    && k < |es|
    && var before := Run(s, es[..k]);
    || (es[k] == Tick(x) && before.cur == t)
    || (es[k] == Add(x) && |before.tasks| == t < MAX_TASKS)
  }

  /** Event k is the last one to save something for t. */
  ghost predicate LastSaves(s: State, es: seq<Event>, k: nat, t: nat, x: Word)
    requires Valid(s)
  {
    Saves(s, es, k, t, x) && forall j: nat, y: Word | k < j < |es| :: !Saves(s, es, j, t, y)
  }

  ghost predicate NeverSaves(s: State, es: seq<Event>, t: nat)
    requires Valid(s)
  {
    forall j: nat, y: Word | j < |es| :: !Saves(s, es, j, t, y)
  }

  lemma SavesLonger(s: State, es: seq<Event>, e: Event, k: nat, t: nat, x: Word)
    requires Valid(s) && k < |es|
    ensures Saves(s, es + [e], k, t, x) == Saves(s, es, k, t, x)
  {
    assert (es + [e])[..k] == es[..k];
  }

  /** What is saved for t after any run is what the last event that saved something for it saved: its last
      tick, or its first frame; if there was none, what was saved at the start. */
  lemma {:induction false} SavedOverRun(s: State, es: seq<Event>, t: nat)
    requires Valid(s) && t < |Run(s, es).tasks|
    ensures (exists k :: LastSaves(s, es, k, t, Run(s, es).saved[t]))
            || (NeverSaves(s, es, t) && t < |s.saved| && Run(s, es).saved[t] == s.saved[t])
    decreases |es|
  {
    if es != [] {
      var n := |es| - 1;
      var r, e := es[..n], es[n];
      assert es == r + [e];
      RunLast(s, r, e);
      var before, x := Run(s, r), Run(s, es).saved[t];
      forall k: nat, y: Word | k < n
        ensures Saves(s, es, k, t, y) == Saves(s, r, k, t, y)
      {
        SavesLonger(s, r, e, k, t, y);
      }
      if Saves(s, es, n, t, x) {
        assert LastSaves(s, es, n, t, x);
      } else {
        NotSaved(before, e, t);
        forall y: Word ensures !Saves(s, es, n, t, y) {}
        SavedOverRun(s, r, t);
        if k :| LastSaves(s, r, k, t, before.saved[t]) {
          assert LastSaves(s, es, k, t, x);
        }
      }
    }
  }

  /** An event that is neither a tick of t nor the addition of t leaves what is saved for t. */
  lemma NotSaved(s: State, e: Event, t: nat)
    requires Valid(s) && t < |Step(s, e).tasks|
    requires e.Tick? ==> s.cur != t || e.esp != Step(s, e).saved[t]
    requires e.Add? ==> |s.tasks| != t || e.sp != Step(s, e).saved[t]
    ensures t < |s.tasks| && Step(s, e).saved[t] == s.saved[t]
    ensures (e.Tick? ==> s.cur != t) && (e.Add? ==> |s.tasks| != t)
  {
    StepValid(s, e);
    NextIsLive(s, 1);
  }

  /** Whoever is not current at the end of a run from start-up, but was at some time, has been interrupted. */
  lemma {:induction false} LeftMeansSaved(es: seq<Event>)
    requires Run(Boot(), es).cur != 0
    ensures exists k: nat, x: Word :: Saves(Boot(), es, k, 0, x)
    decreases |es|
  {
    var n := |es| - 1;
    var r, e := es[..n], es[n];
    assert es == r + [e];
    RunLast(Boot(), r, e);
    if Run(Boot(), r).cur == 0 {
      assert Saves(Boot(), es, n, 0, e.esp);
    } else {
      LeftMeansSaved(r);
      var k: nat, x: Word :| Saves(Boot(), r, k, 0, x);
      SavesLonger(Boot(), r, e, k, 0, x);
    }
  }

  /** Over any run from start-up: when a tick hands over to t, the stack pointer that is handed out is the one
      the last tick of t saved, or its first frame, never the empty one of start-up. */
  lemma HandedOut(es: seq<Event>, e: Event)
    requires Run(Boot(), es + [e]).cur != Run(Boot(), es).cur
    ensures var t := Run(Boot(), es + [e]).cur;
            && t < |Run(Boot(), es + [e]).saved|
            && exists k :: LastSaves(Boot(), es, k, t, Run(Boot(), es + [e]).saved[t])
  {
    RunLast(Boot(), es, e);
    var s := Run(Boot(), es);
    NextIsLive(s, 1);
    var t := Run(Boot(), es + [e]).cur;
    assert t < |s.tasks| && Run(Boot(), es + [e]).saved[t] == s.saved[t];
    SavedOverRun(Boot(), es, t);
    if NeverSaves(Boot(), es, t) {
      assert t == 0;
      LeftMeansSaved(es);
    }
  }

  // ----- tasks in memory -----

  datatype Task = Task(esp: Word, esp0: Word, state: TaskState, id: nat, entry: Word, userEsp: Word)

  /** The words a new task's kernel stack starts with, lowest address first: eight cleared registers, then
      what the return from interrupt pops. */
  function FirstFrame(entry: Word, userEsp: Word): seq<Word> {
    [0, 0, 0, 0, 0, 0, 0, 0, entry, 0x1B, 0x200, userEsp, 0x23]
  }

  function States(ts: seq<Task>): seq<TaskState> {
    seq(|ts|, i requires 0 <= i < |ts| => ts[i].state)
  }

  function Pointers(ts: seq<Task>): seq<Word> {
    seq(|ts|, i requires 0 <= i < |ts| => ts[i].esp)
  }

  /** The words below `top` are the given ones, and all other words are as before. */
  ghost predicate StackBelow(m: seq<Word>, top: nat, words: seq<Word>, before: seq<Word>) {
    && |words| <= top <= |m| == |before| && m[top - |words|..top] == words
    && forall k | 0 <= k < |m| && !(top - |words| <= k < top) :: m[k] == before[k]
  }

  lemma StackStart(m: seq<Word>, top: nat)
    requires top <= |m|
    ensures StackBelow(m, top, [], m)
  {
  }

  lemma FrameWords(entry: Word, userEsp: Word)
    ensures |FirstFrame(entry, userEsp)| == 13
    ensures forall i | 0 <= i < 8 :: FirstFrame(entry, userEsp)[i] == 0
    ensures var f := FirstFrame(entry, userEsp);
            f[8] == entry && f[9] == 0x1B && f[10] == 0x200 && f[11] == userEsp && f[12] == 0x23
  {
  }

  lemma FrameLies(m: seq<Word>, top: nat, entry: Word, userEsp: Word, before: seq<Word>)
    requires StackBelow(m, top, FirstFrame(entry, userEsp), before)
    ensures 13 <= top <= |m| == |before|
    ensures m[top - 13..top] == [0, 0, 0, 0, 0, 0, 0, 0, entry, 0x1B, 0x200, userEsp, 0x23]
    ensures forall k | 0 <= k < |m| && !(top - 13 <= k < top) :: m[k] == before[k]
  {
  }

  class Sched {
    const tasks: array<Task>
    const kstacksAt: nat
    const kstacks: array<Word>
    var taskCount: nat
    var curTask: nat
    var ticksLeft: nat
    /** The kernel stack address the processor was told to use. */
    var tssEsp0: Word
    /** Every event since start-up. */
    ghost var log: seq<Event>

    ghost function Abs(): State
      requires tasks.Length == MAX_TASKS && taskCount <= MAX_TASKS
      reads this, tasks
    {
      State(States(tasks[..taskCount]), Pointers(tasks[..taskCount]), curTask, ticksLeft)
    }

    ghost predicate Ok()
      reads this, tasks
    {
      && tasks.Length == MAX_TASKS && kstacks.Length == MAX_TASKS * KSTACK_WORDS
      && kstacksAt > 0 && kstacksAt + MAX_TASKS * KSTACK_SIZE < WORD
      && taskCount <= MAX_TASKS && Abs() == Run(Boot(), log)
    }

    /** One task, the one that is running. */
    constructor (kstacksAt: nat, kstacks: array<Word>)
      requires kstacks.Length == MAX_TASKS * KSTACK_WORDS
      requires kstacksAt > 0 && kstacksAt + MAX_TASKS * KSTACK_SIZE < WORD
      ensures Ok() && fresh(tasks) && this.kstacks == kstacks && this.kstacksAt == kstacksAt
      ensures Abs() == Boot() && log == []
      ensures taskCount == 1 && curTask == 0 && ticksLeft == 20
      ensures tasks.Length == 4 && tasks[0].state == Running && tasks[0].esp0 == kstacksAt + 0x4000
    {
      this.kstacksAt := kstacksAt;
      this.kstacks := kstacks;
      tasks := new Task[MAX_TASKS](_ => Task(0, 0, Dead, 0, 0, 0));
      taskCount, curTask, ticksLeft, tssEsp0 := 1, 0, QUANTUM, 0;
      log := [];
      new;
      tasks[0] := Task(0, kstacksAt + KSTACK_SIZE, Running, 0, 0, 0);
    }

    /** Store word i - 1 of a frame below the words of it that are there already. */
    method Push(sp: nat, w: Word, ghost top: nat, ghost frame: seq<Word>, ghost i: nat, ghost before: seq<Word>)
      returns (r: nat)
      requires 0 < i <= |frame| <= top && kstacks.Length == MAX_TASKS * KSTACK_WORDS
      requires StackBelow(kstacks[..], top, frame[i..], before)
      requires sp == kstacksAt + (top - (|frame| - i)) * 4 && w == frame[i - 1]
      modifies kstacks
      ensures r == sp - 4
      ensures StackBelow(kstacks[..], top, frame[i - 1..], before)
    {
      r := sp - 4;
      kstacks[(r - kstacksAt) / 4] := w;
    }

    /** Lay out the first frame of a task on an empty stack. */
    method PushFrame(start: nat, ghost top: nat, entry: Word, userEsp: Word) returns (sp: nat)
      requires kstacks.Length == MAX_TASKS * KSTACK_WORDS
      requires 13 <= top <= kstacks.Length && start == kstacksAt + top * 4
      modifies kstacks
      ensures sp == kstacksAt + (top - 13) * 4
      ensures StackBelow(kstacks[..], top, FirstFrame(entry, userEsp), old(kstacks[..]))
    {
      hide StackBelow, FirstFrame;
      ghost var frame, before := FirstFrame(entry, userEsp), kstacks[..];
      FrameWords(entry, userEsp);
      StackStart(kstacks[..], top);
      assert frame[13..] == [] && frame[0..] == frame;
      sp := start;
      sp := Push(sp, 0x23, top, frame, 13, before);
      sp := Push(sp, userEsp, top, frame, 12, before);
      sp := Push(sp, 0x200, top, frame, 11, before);
      sp := Push(sp, 0x1B, top, frame, 10, before);
      sp := Push(sp, entry, top, frame, 9, before);
      sp := Push(sp, 0, top, frame, 8, before);
      sp := Push(sp, 0, top, frame, 7, before);
      sp := Push(sp, 0, top, frame, 6, before);
      sp := Push(sp, 0, top, frame, 5, before);
      sp := Push(sp, 0, top, frame, 4, before);
      sp := Push(sp, 0, top, frame, 3, before);
      sp := Push(sp, 0, top, frame, 2, before);
      sp := Push(sp, 0, top, frame, 1, before);
    }

    /** Add a ready task whose kernel stack holds its first frame; -1 when the table is full. */
    method AddTask(entry: Word, userEsp: Word) returns (idx: int, esp0: Word)
      requires Ok()
      modifies this`taskCount, this`log, tasks, kstacks
      ensures Ok()
      ensures idx == (if old(taskCount) >= MAX_TASKS then -1 else old(taskCount))
      ensures idx == -1 ==> tasks[..] == old(tasks[..]) && kstacks[..] == old(kstacks[..])
      ensures idx == -1 ==> log == old(log)
      ensures idx != -1 ==> esp0 == kstacksAt + (idx + 1) * KSTACK_SIZE && log == old(log) + [Add(esp0 - 52)]
      ensures idx != -1 ==>
        tasks[..] == old(tasks[..])[idx := Task(esp0 - 52, esp0, Ready, idx, entry, userEsp)]
      ensures idx != -1 ==>
        StackBelow(kstacks[..], (idx + 1) * KSTACK_WORDS, FirstFrame(entry, userEsp), old(kstacks[..]))
      ensures idx == -1 <==> old(taskCount) >= 4
      ensures taskCount == old(taskCount) + if idx == -1 then 0 else 1
      ensures idx != -1 ==> var top := (idx + 1) * 0x1000;
        && esp0 == kstacksAt + top * 4 && tasks[idx].esp == esp0 - 52
        && kstacks[top - 13..top] == [0, 0, 0, 0, 0, 0, 0, 0, entry, 0x1B, 0x200, userEsp, 0x23]
        && (forall k | 0 <= k < kstacks.Length && !(top - 13 <= k < top) :: kstacks[k] == old(kstacks[..])[k])
    {
      hide StackBelow;
      if taskCount >= MAX_TASKS { return -1, 0; }
      idx := taskCount;
      ghost var top := (idx + 1) * KSTACK_WORDS;
      var sp := kstacksAt + idx * KSTACK_SIZE + KSTACK_SIZE;
      sp := PushFrame(sp, top, entry, userEsp);
      esp0 := kstacksAt + idx * KSTACK_SIZE + KSTACK_SIZE;
      tasks[idx] := Task(sp, esp0, Ready, idx, entry, userEsp);
      taskCount := taskCount + 1;
      assert tasks[..taskCount] == old(tasks[..taskCount]) + [tasks[idx]];
      assert States(tasks[..taskCount]) == States(old(tasks[..taskCount])) + [Ready];
      assert Pointers(tasks[..taskCount]) == Pointers(old(tasks[..taskCount])) + [sp];
      RunLast(Boot(), log, Add(sp));
      log := log + [Add(sp)];
      FrameLies(kstacks[..], top, entry, userEsp, old(kstacks[..]));
    }

    /** Mark the current one dead; its saved stack pointer and everything else stay. */
    method KillCurrentTask()
      requires Ok()
      modifies this`log, tasks
      ensures Ok() && log == old(log) + [KillCurrent]
      ensures curTask < MAX_TASKS && tasks[curTask] == old(tasks[curTask]).(state := Dead)
      ensures forall i | 0 <= i < MAX_TASKS && i != curTask :: tasks[i] == old(tasks[i])
    {
      tasks[curTask] := tasks[curTask].(state := Dead);
      assert States(tasks[..taskCount]) == States(old(tasks[..taskCount]))[curTask := Dead];
      assert Pointers(tasks[..taskCount]) == Pointers(old(tasks[..taskCount]));
      RunLast(Boot(), log, KillCurrent);
      log := log + [KillCurrent];
    }

    /** Mark task id dead, if there is one. */
    method KillTask(id: nat)
      requires Ok()
      modifies this`log, tasks
      ensures Ok() && log == old(log) + [Kill(id)]
      ensures id < taskCount ==> id < MAX_TASKS && tasks[id] == old(tasks[id]).(state := Dead)
      ensures forall i | 0 <= i < MAX_TASKS && (i != id || id >= taskCount) :: tasks[i] == old(tasks[i])
    {
      if id < taskCount {
        tasks[id] := tasks[id].(state := Dead);
        assert States(tasks[..taskCount]) == States(old(tasks[..taskCount]))[id := Dead];
      }
      assert Pointers(tasks[..taskCount]) == Pointers(old(tasks[..taskCount]));
      RunLast(Boot(), log, Kill(id));
      log := log + [Kill(id)];
    }

    /** The first live task after the current one, or the current one. */
    method FindNext(ghost s: State) returns (next: nat)
      requires tasks.Length == MAX_TASKS && taskCount <= MAX_TASKS && Valid(s)
      requires States(tasks[..taskCount]) == s.tasks && curTask == s.cur
      ensures next == NextFrom(s, 1)
    {
      next := curTask;
      var i := 1;
      while i <= taskCount
        invariant 1 <= i <= taskCount + 1 && next == curTask && NextFrom(s, 1) == NextFrom(s, i)
      {
        var candidate := (curTask + i) % taskCount;
        assert tasks[candidate].state == s.tasks[candidate];
        if tasks[candidate].state == Ready || tasks[candidate].state == Running {
          next := candidate;
          break;
        }
        i := i + 1;
      }
    }

    /** The timer: save the interrupted stack pointer and hand out the one to go on with. After a switch that
        is what was saved at the last tick of whoever goes on, or its first frame, however long ago. */
    method TimerTick(curEsp: Word) returns (esp: Word)
      requires Ok()
      modifies this`curTask, this`ticksLeft, this`tssEsp0, this`log, tasks
      ensures Ok() && log == old(log) + [Tick(curEsp)]
      ensures esp == tasks[curTask].esp && (curTask == old(curTask) ==> esp == curEsp)
      ensures curTask != old(curTask) ==> exists k :: LastSaves(Boot(), old(log), k, curTask, esp)
      ensures forall i | 0 <= i < MAX_TASKS ::
        tasks[i] == old(tasks[i]).(esp := tasks[i].esp, state := tasks[i].state)
      ensures forall i | 0 <= i < MAX_TASKS && i != old(curTask) :: tasks[i].esp == old(tasks[i].esp)
      ensures curTask != old(curTask) ==> tssEsp0 == tasks[curTask].esp0
    {
      hide NextFrom, LastSaves, Step;
      ghost var s, e := Abs(), Tick(curEsp);
      StepValid(s, e);
      RunLast(Boot(), log, e);
      esp := Advance(curEsp);
      ghost var before := log;
      log := log + [e];
      assert curTask == Run(Boot(), before + [e]).cur && old(curTask) == Run(Boot(), before).cur;
      if curTask != old(curTask) {
        HandedOut(before, e);
        assert tasks[..taskCount][curTask].esp == Pointers(tasks[..taskCount])[curTask];
      }
    }

    /** What a tick does to the table. */
    method Advance(curEsp: Word) returns (esp: Word)
      requires tasks.Length == MAX_TASKS && taskCount <= MAX_TASKS && Valid(Abs())
      modifies this`curTask, this`ticksLeft, this`tssEsp0, tasks
      ensures Valid(old(Abs())) && Abs() == Step(old(Abs()), Tick(curEsp))
      ensures curTask < taskCount && old(curTask) < taskCount && esp == tasks[curTask].esp
      ensures tasks[old(curTask)].esp == curEsp
      ensures forall i | 0 <= i < MAX_TASKS ::
        tasks[i] == old(tasks[i]).(esp := tasks[i].esp, state := tasks[i].state)
      ensures forall i | 0 <= i < MAX_TASKS && i != old(curTask) :: tasks[i].esp == old(tasks[i].esp)
      ensures ticksLeft == if old(ticksLeft) > 1 then old(ticksLeft) - 1 else 20
      ensures curTask != old(curTask) ==> tssEsp0 == tasks[curTask].esp0
    {
      hide NextFrom;
      ghost var s := Abs();
      NextChosen(s);
      tasks[curTask] := tasks[curTask].(esp := curEsp);
      assert States(tasks[..taskCount]) == s.tasks;
      assert Pointers(tasks[..taskCount]) == s.saved[curTask := curEsp];
      hide States, Pointers;
      ticksLeft := ticksLeft - 1;
      if ticksLeft > 0 { return curEsp; }
      ticksLeft := QUANTUM;
      var next := FindNext(s);
      if next == curTask { return curEsp; }
      SwitchTo(next);
      return tasks[next].esp;
    }

    /** The current one is ready again and another one runs. */
    method SwitchTo(next: nat)
      requires tasks.Length == MAX_TASKS && curTask < taskCount <= MAX_TASKS && next < taskCount && next != curTask
      modifies this`curTask, this`tssEsp0, tasks
      ensures curTask == next && tssEsp0 == tasks[next].esp0
      ensures tasks[..] == old(tasks[..])[old(curTask) := old(tasks[curTask]).(state := Ready)]
                                         [next := old(tasks[next]).(state := Running)]
      ensures States(tasks[..taskCount]) == States(old(tasks[..taskCount]))[old(curTask) := Ready][next := Running]
      ensures Pointers(tasks[..taskCount]) == Pointers(old(tasks[..taskCount]))
    {
      tasks[curTask] := tasks[curTask].(state := Ready);
      tasks[next] := tasks[next].(state := Running);
      curTask := next;
      tssEsp0 := tasks[next].esp0;
    }
  }
}
