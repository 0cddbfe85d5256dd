/** The command table, the list of scheduled commands and the drones of
    libdank/modules/ctlserver/ctlserver.c, one step for each time srvrlock is held. */
module CtlSteps {
  /** An export_cmd: the name it serves and how many scheduled commands refer to it. */
  datatype Entry = Entry(name: string, refcount: nat)

  /** A scheduled_cmd; id is its place in the order of acceptance. */
  datatype Task = Task(id: nat, entry: nat)

  const DRONE_HORDE_SIZE: nat := 3

  /** heap holds the entries that are allocated, table those linked from the head on; an entry that
      delcommand has taken out but not yet freed is extracted.  pending is a stack, its top first;
      running are the commands that drones have taken and not finished; scheduled counts the
      commands accepted, started and done list the ids of those begun and ended. */
  datatype State = State(heap: map<nat, Entry>, table: seq<nat>, extracted: set<nat>,
                         pending: seq<Task>, running: seq<Task>,
                         scheduled: nat, started: seq<nat>, done: seq<nat>)

  const INITIAL: State := State(map[], [], {}, [], [], 0, [], [])

  datatype Step =
    | Register(name: string, address: nat)
    | Schedule(name: string)
    | Pop
    | Finish(which: nat)
    | DelTry(name: string)
    | Reclaim(entry: nat)

  /** The index of the first entry of that name, |table| if there is none. */
  function Find(heap: map<nat, Entry>, table: seq<nat>, name: string): (i: nat)
    ensures i <= |table|
    ensures i < |table| ==> table[i] in heap && heap[table[i]].name == name
    ensures forall j :: 0 <= j < i ==> !(table[j] in heap && heap[table[j]].name == name)
  {
    if table == [] || (table[0] in heap && heap[table[0]].name == name) then 0
    else
      var k := Find(heap, table[1..], name);
      assert forall j :: 1 <= j < k + 1 ==> table[j] == table[1..][j - 1];
      k + 1
  }

  /** Position i holds the first entry of that name. */
  predicate FirstNamed(heap: map<nat, Entry>, table: seq<nat>, name: string, i: nat) {
    && i < |table| && table[i] in heap && heap[table[i]].name == name
    && forall j :: 0 <= j < i && table[j] in heap ==> heap[table[j]].name != name
  }

  function Bump(heap: map<nat, Entry>, e: nat, delta: int): map<nat, Entry>
    requires e in heap && heap[e].refcount + delta >= 0
  {
    heap[e := heap[e].(refcount := heap[e].refcount + delta)]
  }

  function Without<T>(s: seq<T>, i: nat): (r: seq<T>)
    requires i < |s|
    ensures |r| == |s| - 1
    ensures multiset(r) == multiset(s) - multiset{s[i]}
  {
    assert s == s[..i] + [s[i]] + s[i + 1..];
    s[..i] + s[i + 1..]
  }

  /** malloc never hands out an address that is in use. */
  predicate Possible(s: State, step: Step) {
    step.Register? ==> step.address !in s.heap
  }

  /** A step that has to wait (no command pending, no drone idle) changes nothing, and so do those
      that find no entry or find it in use. */
  function Next(s: State, step: Step): State {
    match step
    case Register(name, a) => s.(heap := s.heap[a := Entry(name, 0)], table := [a] + s.table)
    case Schedule(name) =>
      var i := Find(s.heap, s.table, name);
      if i == |s.table| then s
      else s.(heap := Bump(s.heap, s.table[i], 1), pending := [Task(s.scheduled, s.table[i])] + s.pending,
              scheduled := s.scheduled + 1)
    case Pop =>
      if s.pending == [] || |s.running| == DRONE_HORDE_SIZE then s
      else s.(pending := s.pending[1..], running := s.running + [s.pending[0]], started := s.started + [s.pending[0].id])
    case Finish(k) =>
      if k >= |s.running| then s
      else
        var t := s.running[k];
        s.(heap := if t.entry in s.heap && s.heap[t.entry].refcount > 0 then Bump(s.heap, t.entry, -1) else s.heap,
           running := Without(s.running, k), done := s.done + [t.id])
    case DelTry(name) =>
      var i := Find(s.heap, s.table, name);
      if i == |s.table| || s.heap[s.table[i]].refcount != 0 then s
      else s.(table := Without(s.table, i), extracted := s.extracted + {s.table[i]})
    case Reclaim(e) =>
      if e in s.extracted then s.(heap := s.heap - {e}, extracted := s.extracted - {e}) else s
  }

  // ----- what every step keeps

  function Entries(ts: seq<Task>): (r: seq<nat>)
    ensures |r| == |ts| && forall i :: 0 <= i < |ts| ==> r[i] == ts[i].entry
  {
    seq(|ts|, i requires 0 <= i < |ts| => ts[i].entry)
  }

  function Ids(ts: seq<Task>): (r: seq<nat>)
    ensures |r| == |ts| && forall i :: 0 <= i < |ts| ==> r[i] == ts[i].id
  {
    seq(|ts|, i requires 0 <= i < |ts| => ts[i].id)
  }

  /** How many pending commands and drones between pop and decrement refer to an entry. */
  function References(s: State, e: nat): nat {
    multiset(Entries(s.pending))[e] + multiset(Entries(s.running))[e]
  }

  /** How often a command stands on the list, is being run, or has been run. */
  function Places(s: State, id: nat): nat {
    multiset(Ids(s.pending))[id] + multiset(Ids(s.running))[id] + multiset(s.done)[id]
  }

  /** The table lists the allocated entries that have not been taken out, each once. */
  predicate Listed(s: State, e: nat) {
    multiset(s.table)[e] == (if e in s.heap && e !in s.extracted then 1 else 0)
    && (e in s.extracted ==> e in s.heap)
  }

  /** The count is right, and whatever is referred to is in the table. */
  predicate Counted(s: State, e: nat) {
    && (e in s.heap ==> s.heap[e].refcount == References(s, e))
    && (References(s, e) > 0 ==> e in s.table)
  }

  /** An accepted command is in exactly one place, and has been started unless it is pending. */
  predicate Tracked(s: State, id: nat) {
    && Places(s, id) == (if id < s.scheduled then 1 else 0)
    && multiset(s.started)[id] == multiset(Ids(s.running))[id] + multiset(s.done)[id]
  }

  ghost predicate Inv(s: State) {
    && |s.running| <= DRONE_HORDE_SIZE
    && (forall e: nat {:trigger Listed(s, e)} :: Listed(s, e))
    && (forall e: nat {:trigger Counted(s, e)} :: Counted(s, e))
    && (forall id: nat {:trigger Tracked(s, id)} :: Tracked(s, id))
  }

  lemma StepKeeps(s: State, step: Step)
    requires Inv(s) && Possible(s, step)
    ensures Inv(Next(s, step))
  {
    match step
    case Register(name, a) => RegisterKeeps(s, name, a);
    case Schedule(name) => ScheduleKeeps(s, name);
    case Pop => PopKeeps(s);
    case Finish(k) => FinishKeeps(s, k);
    case DelTry(name) => DelTryKeeps(s, name);
    case Reclaim(e) => ReclaimKeeps(s, e);
  }

  lemma RegisterKeeps(s: State, name: string, a: nat)
    requires Inv(s) && a !in s.heap
    ensures Inv(Next(s, Register(name, a)))
  {
    var s' := Next(s, Register(name, a));
    assert Listed(s, a) && Counted(s, a);
    forall e: nat ensures Listed(s', e) && Counted(s', e) { assert Listed(s, e) && Counted(s, e); }
    forall id: nat ensures Tracked(s', id) { assert Tracked(s, id); }
  }

  lemma Pushed(t: Task, ts: seq<Task>)
    ensures Entries([t] + ts) == [t.entry] + Entries(ts) && Ids([t] + ts) == [t.id] + Ids(ts)
    ensures Entries(ts + [t]) == Entries(ts) + [t.entry] && Ids(ts + [t]) == Ids(ts) + [t.id]
  {
  }

  lemma ScheduleKeeps(s: State, name: string)
    requires Inv(s)
    ensures Inv(Next(s, Schedule(name)))
  {
    var s', i := Next(s, Schedule(name)), Find(s.heap, s.table, name);
    if i < |s.table| {
      var t := Task(s.scheduled, s.table[i]);
      Pushed(t, s.pending);
      forall e: nat ensures Listed(s', e) && Counted(s', e) { assert Listed(s, e) && Counted(s, e); }
      ScheduleTracked(s, t, s');
    }
  }

  lemma ScheduleTracked(s: State, t: Task, s': State)
    requires s'.pending == [t] + s.pending && s'.running == s.running && s'.done == s.done && s'.started == s.started
    requires t.id == s.scheduled && s'.scheduled == s.scheduled + 1
    requires forall id: nat {:trigger Tracked(s, id)} :: Tracked(s, id)
    ensures forall id: nat {:trigger Tracked(s', id)} :: Tracked(s', id)
  {
    Pushed(t, s.pending);
    forall id: nat ensures Tracked(s', id) { assert Tracked(s, id); }
  }

  lemma PopKeeps(s: State)
    requires Inv(s)
    ensures Inv(Next(s, Pop))
  {
    var s' := Next(s, Pop);
    if s.pending != [] && |s.running| < DRONE_HORDE_SIZE {
      var t := s.pending[0];
      assert s.pending == [t] + s.pending[1..];
      Pushed(t, s.pending[1..]);
      Pushed(t, s.running);
      forall e: nat ensures Listed(s', e) && Counted(s', e) { assert Listed(s, e) && Counted(s, e); }
      forall id: nat ensures Tracked(s', id) { assert Tracked(s, id); }
    }
  }

  lemma WithoutTask(ts: seq<Task>, k: nat)
    requires k < |ts|
    ensures multiset(Entries(Without(ts, k))) == multiset(Entries(ts)) - multiset{ts[k].entry}
    ensures multiset(Ids(Without(ts, k))) == multiset(Ids(ts)) - multiset{ts[k].id}
    ensures multiset(Entries(ts))[ts[k].entry] > 0 && multiset(Ids(ts))[ts[k].id] > 0
  {
    assert Entries(Without(ts, k)) == Without(Entries(ts), k);
    assert Ids(Without(ts, k)) == Without(Ids(ts), k);
    assert ts[k].entry == Entries(ts)[k] && ts[k].id == Ids(ts)[k];
    assert ts[k].entry in multiset(Entries(ts)) && ts[k].id in multiset(Ids(ts));
  }

  lemma FinishKeeps(s: State, k: nat)
    requires Inv(s)
    ensures Inv(Next(s, Finish(k)))
  {
    var s' := Next(s, Finish(k));
    if k < |s.running| {
      var t := s.running[k];
      WithoutTask(s.running, k);
      assert Counted(s, t.entry) && Listed(s, t.entry);
      forall e: nat ensures Listed(s', e) && Counted(s', e) { assert Listed(s, e) && Counted(s, e); }
      FinishTracked(s, k);
    }
  }

  lemma FinishTracked(s: State, k: nat)
    requires k < |s.running| && forall id: nat {:trigger Tracked(s, id)} :: Tracked(s, id)
    ensures forall id: nat {:trigger Tracked(Next(s, Finish(k)), id)} :: Tracked(Next(s, Finish(k)), id)
  {
    WithoutTask(s.running, k);
    forall id: nat ensures Tracked(Next(s, Finish(k)), id) { assert Tracked(s, id); }
  }

  lemma DelTryKeeps(s: State, name: string)
    requires Inv(s)
    ensures Inv(Next(s, DelTry(name)))
  {
    var s', i := Next(s, DelTry(name)), Find(s.heap, s.table, name);
    if i < |s.table| && s.heap[s.table[i]].refcount == 0 {
      var gone := s.table[i];
      assert gone in s.table && Listed(s, gone) && Counted(s, gone);
      forall e: nat ensures Listed(s', e) && Counted(s', e) { assert Listed(s, e) && Counted(s, e); }
      forall id: nat ensures Tracked(s', id) { assert Tracked(s, id); }
    }
  }

  lemma ReclaimKeeps(s: State, e: nat)
    requires Inv(s)
    ensures Inv(Next(s, Reclaim(e)))
  {
    var s' := Next(s, Reclaim(e));
    if e in s.extracted {
      assert Listed(s, e) && Counted(s, e);
      forall f: nat ensures Listed(s', f) && Counted(s', f) { assert Listed(s, f) && Counted(s, f); }
      forall id: nat ensures Tracked(s', id) { assert Tracked(s, id); }
    }
  }

  // ----- whole runs

  function Run(s: State, steps: seq<Step>): State
    decreases |steps|
  {
    if steps == [] then s else Next(Run(s, steps[..|steps| - 1]), steps[|steps| - 1])
  }

  predicate PossibleRun(s: State, steps: seq<Step>) {
    forall i :: 0 <= i < |steps| ==> Possible(Run(s, steps[..i]), steps[i])
  }

  lemma {:induction false} RunKeeps(steps: seq<Step>)
    requires PossibleRun(INITIAL, steps)
    ensures Inv(Run(INITIAL, steps))
    decreases |steps|
  {
    if steps != [] {
      var front := steps[..|steps| - 1];
      forall i | 0 <= i < |front| ensures Possible(Run(INITIAL, front[..i]), front[i]) {
        assert front[..i] == steps[..i] && Possible(Run(INITIAL, steps[..i]), steps[i]);
      }
      RunKeeps(front);
      StepKeeps(Run(INITIAL, front), steps[|steps| - 1]);
    }
  }

  /** After any interleaving: a count is the number of references, nothing referred to has been
      taken out or freed, and every accepted command waits, runs or has run, exactly once. */
  lemma SafeInEveryRun(steps: seq<Step>)
    requires PossibleRun(INITIAL, steps)
    ensures var s := Run(INITIAL, steps);
      && (forall e :: e in s.heap ==> s.heap[e].refcount == References(s, e))
      && (forall t :: t in s.pending || t in s.running ==> t.entry in s.table && t.entry in s.heap && t.entry !in s.extracted)
      && (forall id: nat :: Places(s, id) == if id < s.scheduled then 1 else 0)
      && (forall id: nat :: multiset(s.started)[id] <= 1)
  {
    RunKeeps(steps);
    var s := Run(INITIAL, steps);
    forall e | e in s.heap ensures s.heap[e].refcount == References(s, e) { assert Counted(s, e); }
    forall t | t in s.pending || t in s.running ensures t.entry in s.table && t.entry in s.heap && t.entry !in s.extracted {
      ReferredTo(s, t);
      assert Counted(s, t.entry) && Listed(s, t.entry);
    }
    forall id: nat
      ensures Places(s, id) == (if id < s.scheduled then 1 else 0) && multiset(s.started)[id] <= 1
    {
      assert Tracked(s, id);
    }
  }

  lemma ReferredTo(s: State, t: Task)
    requires t in s.pending || t in s.running
    ensures References(s, t.entry) > 0
  {
    if t in s.pending {
      var i :| 0 <= i < |s.pending| && s.pending[i] == t;
      WithoutTask(s.pending, i);
    } else {
      var i :| 0 <= i < |s.running| && s.running[i] == t;
      WithoutTask(s.running, i);
    }
  }

  /** Whatever stands for the command accepted as number id runs the entry of that name. */
  ghost predicate Serves(s: State, id: nat, name: string) {
    forall t :: (t in s.pending || t in s.running) && t.id == id ==> t.entry in s.heap && s.heap[t.entry].name == name
  }

  /** schedule accepts exactly what has an entry, and the command it queues is of that name. */
  lemma ServesAtFirst(s: State, name: string)
    requires Inv(s)
    ensures var s' := Next(s, Schedule(name));
      && (s'.scheduled == s.scheduled + 1 <==> exists e :: e in s.table && e in s.heap && s.heap[e].name == name)
      && (s'.scheduled == s.scheduled <==> s' == s)
      && (s'.scheduled > s.scheduled ==> Serves(s', s.scheduled, name))
  {
    var s', i := Next(s, Schedule(name)), Find(s.heap, s.table, name);
    if i < |s.table| {
      assert s.table[i] in s.table;
      forall t | (t in s.pending || t in s.running) && t.id == s.scheduled ensures false { NotYet(s, t); }
    }
  }

  /** Commands on the list or with a drone have been accepted. */
  lemma NotYet(s: State, t: Task)
    requires Inv(s) && (t in s.pending || t in s.running)
    ensures t.id < s.scheduled
  {
    assert Tracked(s, t.id);
    if t in s.pending {
      var i :| 0 <= i < |s.pending| && s.pending[i] == t;
      WithoutTask(s.pending, i);
    } else {
      var i :| 0 <= i < |s.running| && s.running[i] == t;
      WithoutTask(s.running, i);
    }
  }

  lemma StillServes(s: State, step: Step, id: nat, name: string)
    requires Inv(s) && Possible(s, step) && id < s.scheduled && Serves(s, id, name)
    ensures Serves(Next(s, step), id, name) && id < Next(s, step).scheduled
  {
    var s' := Next(s, step);
    forall t | (t in s'.pending || t in s'.running) && t.id == id
      ensures t.entry in s'.heap && s'.heap[t.entry].name == name
    {
      assert t in s.pending || t in s.running by { WithoutIsIn(s, step, t); }
      ReferredTo(s, t);
      assert Counted(s, t.entry) && Listed(s, t.entry);
    }
  }

  lemma WithoutIsIn(s: State, step: Step, t: Task)
    requires (t in Next(s, step).pending || t in Next(s, step).running) && t.id < s.scheduled
    ensures t in s.pending || t in s.running
  {
    if step.Finish? && step.which < |s.running| { assert t in multiset(Without(s.running, step.which)) ==> t in multiset(s.running); }
  }

  /** After any further steps, a command accepted under a name waits for, or is run by, the entry of
      that name; and it is accepted exactly if there is one, the first of them in the table. */
  lemma {:induction false} RunsWhatWasAsked(steps: seq<Step>, k: nat)
    requires PossibleRun(INITIAL, steps) && k < |steps| && steps[k].Schedule?
    ensures var before, after := Run(INITIAL, steps[..k]), Run(INITIAL, steps[..k + 1]);
      && (after.scheduled == before.scheduled + 1 <==>
            exists e :: e in before.table && e in before.heap && before.heap[e].name == steps[k].name)
      && (after.scheduled == before.scheduled <==> after == before)
      && (after.scheduled > before.scheduled ==> Serves(Run(INITIAL, steps), before.scheduled, steps[k].name)
                                                 && before.scheduled < Run(INITIAL, steps).scheduled)
    decreases |steps|
  {
    hide Next, Serves, Inv, Possible;
    PossiblePrefix(steps, k);
    RunKeeps(steps[..k]);
    assert steps[..k + 1][..k] == steps[..k];
    ServesAtFirst(Run(INITIAL, steps[..k]), steps[k].name);
    var front := steps[..|steps| - 1];
    if k == |front| {
      assert steps[..k + 1] == steps;
    } else {
      PossiblePrefix(steps, |front|);
      assert front[..k] == steps[..k] && front[..k + 1] == steps[..k + 1];
      RunsWhatWasAsked(front, k);
      RunKeeps(front);
      var before := Run(INITIAL, steps[..k]);
      if Run(INITIAL, steps[..k + 1]).scheduled > before.scheduled {
        assert Possible(Run(INITIAL, steps[..|front|]), steps[|front|]);
        StillServes(Run(INITIAL, front), steps[|front|], before.scheduled, steps[k].name);
      }
    }
  }

  lemma PossiblePrefix(steps: seq<Step>, k: nat)
    requires PossibleRun(INITIAL, steps) && k <= |steps|
    ensures PossibleRun(INITIAL, steps[..k])
  {
    forall i | 0 <= i < k ensures Possible(Run(INITIAL, steps[..k][..i]), steps[..k][i]) {
      assert steps[..k][..i] == steps[..i] && Possible(Run(INITIAL, steps[..i]), steps[i]);
    }
  }

  /** delcommand takes out the first entry of its name, and only when nothing refers to it. */
  lemma TakesOutUnreferenced(s: State, name: string)
    requires Inv(s)
    ensures var s', i := Next(s, DelTry(name)), Find(s.heap, s.table, name);
      if i < |s.table| && References(s, s.table[i]) == 0
      then s'.table == s.table[..i] + s.table[i + 1..] && s'.extracted == s.extracted + {s.table[i]} && s'.heap == s.heap
      else s' == s
  {
    var i := Find(s.heap, s.table, name);
    if i < |s.table| { assert Counted(s, s.table[i]); }
  }

  /** What is freed is referred to by nothing. */
  lemma FreedUnreferenced(steps: seq<Step>, e: nat)
    requires PossibleRun(INITIAL, steps)
    ensures var s := Run(INITIAL, steps);
      e in s.extracted ==> References(s, e) == 0 && e !in s.table && e in s.heap
  {
    RunKeeps(steps);
    var s := Run(INITIAL, steps);
    assert Counted(s, e) && Listed(s, e);
  }
}

/** The critical sections themselves, as methods on the shared state. */
module CtlServers {
  import opened CtlSteps

  datatype Deletion = Absent | Busy | TakenOut(entry: nat)

  class CtlServer {
    var heap: map<nat, Entry>
    var cmdtable: seq<nat>
    var pending: seq<Task>
    var running: seq<Task>
    ghost var extracted: set<nat>
    var scheduled: nat
    ghost var started: seq<nat>
    ghost var done: seq<nat>

    ghost function View(): State reads this {
      State(heap, cmdtable, extracted, pending, running, scheduled, started, done)
    }

    ghost predicate Valid() reads this { Inv(View()) }

    constructor ()
      ensures View() == INITIAL && Valid()
    {
      heap, cmdtable, pending, running, extracted, scheduled, started, done := map[], [], [], [], {}, 0, [], [];
      new;
      RunKeeps([]);
    }

    /** The walk along the table that delcommand and schedule share. */
    method Search(name: string) returns (i: nat)
      requires forall e :: e in cmdtable ==> e in heap
      ensures i == Find(heap, cmdtable, name)
    {
      i := 0;
      assert cmdtable[0..] == cmdtable;
      while i < |cmdtable| && heap[cmdtable[i]].name != name
        invariant i <= |cmdtable| && Find(heap, cmdtable, name) == i + Find(heap, cmdtable[i..], name)
      {
        assert cmdtable[i..][1..] == cmdtable[i + 1..];
        i := i + 1;
      }
    }

    /** regcommand; address is what malloc returned. */
    method Register(name: string, address: nat)
      requires Valid() && address !in heap
      modifies this
      ensures Valid() && View() == Next(old(View()), Step.Register(name, address))
      ensures heap == old(heap)[address := Entry(name, 0)] && cmdtable == [address] + old(cmdtable)
      ensures pending == old(pending) && running == old(running) && scheduled == old(scheduled)
    {
      RegisterKeeps(View(), name, address);
      heap := heap[address := Entry(name, 0)];
      cmdtable := [address] + cmdtable;
    }

    lemma TableLive()
      requires Valid()
      ensures forall e :: e in cmdtable ==> e in heap
    {
      forall e | e in cmdtable ensures e in heap { assert Listed(View(), e); }
    }

    /** schedule: 0 if a drone will run the command, -1 if there is no handler. */
    method Schedule(name: string) returns (r: int)
      requires Valid()
      modifies this
      ensures Valid() && View() == Next(old(View()), Step.Schedule(name))
      ensures r == if exists e :: e in old(cmdtable) && e in old(heap) && old(heap)[e].name == name then 0 else -1
      ensures r != 0 ==> View() == old(View())
      ensures r == 0 ==>
        && pending != [] && pending[1..] == old(pending) && pending[0].id == old(scheduled) && scheduled == old(scheduled) + 1
        && (exists i: nat :: FirstNamed(old(heap), old(cmdtable), name, i) && pending[0].entry == old(cmdtable)[i])
        && heap == old(heap)[pending[0].entry := Entry(name, old(heap)[pending[0].entry].refcount + 1)]
        && cmdtable == old(cmdtable) && running == old(running) && started == old(started) && done == old(done)
    {
      ScheduleKeeps(View(), name);
      TableLive();
      var i := Search(name);
      if i == |cmdtable| { return -1; }
      var e := cmdtable[i];
      heap := heap[e := heap[e].(refcount := heap[e].refcount + 1)];
      pending := [Task(scheduled, e)] + pending;
      scheduled := scheduled + 1;
      assert FirstNamed(old(heap), old(cmdtable), name, i);
      return 0;
    }

    /** A drone takes the command at the head of the list, if there is one and it is idle. */
    method Pop() returns (taken: bool, t: Task)
      requires Valid()
      modifies this
      ensures Valid() && View() == Next(old(View()), Step.Pop)
      ensures taken <==> old(pending) != [] && |old(running)| < 3
      ensures taken ==> t == old(pending)[0] && t.id !in old(started) && t.entry in heap
      ensures taken ==> pending == old(pending)[1..] && running == old(running) + [t] && started == old(started) + [t.id]
      ensures !taken ==> View() == old(View())
      ensures heap == old(heap) && cmdtable == old(cmdtable) && done == old(done)
    {
      PopKeeps(View());
      taken, t := false, Task(0, 0);
      if pending != [] && |running| < DRONE_HORDE_SIZE {
        t := pending[0];
        FirstPending(View());
        pending, running, taken := pending[1..], running + [t], true;
        started := started + [t.id];
      }
    }

    /** The drone has run the command: --me->cmd->refcount. */
    method Finish(k: nat)
      requires Valid() && k < |running|
      modifies this
      ensures Valid() && View() == Next(old(View()), Step.Finish(k))
      ensures var t := old(running)[k];
        && t.entry in old(heap) && old(heap)[t.entry].refcount > 0
        && heap == old(heap)[t.entry := Entry(old(heap)[t.entry].name, (old(heap)[t.entry].refcount - 1) as nat)]
        && running == old(running)[..k] + old(running)[k + 1..] && done == old(done) + [t.id]
      ensures cmdtable == old(cmdtable) && pending == old(pending) && started == old(started) && scheduled == old(scheduled)
    {
      FinishKeeps(View(), k);
      var t := running[k];
      RunningLive(View(), t);
      heap := heap[t.entry := heap[t.entry].(refcount := heap[t.entry].refcount - 1)];
      running := Without(running, k);
      done := done + [t.id];
    }

    /** One turn of delcommand's loop. */
    method DelTry(name: string) returns (r: Deletion)
      requires Valid()
      modifies this
      ensures Valid() && View() == Next(old(View()), Step.DelTry(name))
      ensures r.TakenOut? ==>
        && (exists i: nat :: FirstNamed(old(heap), old(cmdtable), name, i) && r.entry == old(cmdtable)[i]
                        && cmdtable == old(cmdtable)[..i] + old(cmdtable)[i + 1..])
        && extracted == old(extracted) + {r.entry}
      ensures r.Busy? ==> exists i: nat :: FirstNamed(heap, cmdtable, name, i) && heap[cmdtable[i]].refcount > 0
      ensures !r.TakenOut? ==> View() == old(View())
      ensures heap == old(heap) && pending == old(pending) && running == old(running)
      ensures r.TakenOut? ==> r.entry in heap && heap[r.entry].name == name && References(View(), r.entry) == 0 && r.entry in extracted
      ensures r.Busy? ==> exists e :: e in cmdtable && e in heap && heap[e].name == name && References(View(), e) > 0
      ensures r.Absent? <==> forall e :: e in old(cmdtable) ==> e in heap && heap[e].name != name
    {
      DelTryKeeps(View(), name);
      TableLive();
      var i := Search(name);
      if i == |cmdtable| { return Absent; }
      var e := cmdtable[i];
      assert Counted(View(), e);
      assert FirstNamed(heap, cmdtable, name, i);
      if heap[e].refcount != 0 { return Busy; }
      cmdtable := Without(cmdtable, i);
      extracted := extracted + {e};
      return TakenOut(e);
    }

    /** Free(cur), after the lock has been given up. */
    method Reclaim(e: nat)
      requires Valid() && e in extracted
      modifies this
      ensures Valid() && View() == Next(old(View()), Step.Reclaim(e))
      ensures heap == old(heap) - {e} && extracted == old(extracted) - {e} && e in old(heap)
      ensures cmdtable == old(cmdtable) && pending == old(pending) && running == old(running)
    {
      ReclaimKeeps(View(), e);
      assert Listed(View(), e);
      heap := heap - {e};
      extracted := extracted - {e};
    }
  }

  lemma FirstPending(s: State)
    requires Inv(s) && s.pending != []
    ensures s.pending[0].entry in s.heap && s.pending[0].id !in s.started
  {
    var t := s.pending[0];
    ReferredTo(s, t);
    WithoutTask(s.pending, 0);
    assert Counted(s, t.entry) && Listed(s, t.entry) && Tracked(s, t.id);
  }

  lemma RunningLive(s: State, t: Task)
    requires Inv(s) && t in s.running
    ensures t.entry in s.heap && s.heap[t.entry].refcount > 0
  {
    ReferredTo(s, t);
    assert Counted(s, t.entry) && Listed(s, t.entry);
  }
}
