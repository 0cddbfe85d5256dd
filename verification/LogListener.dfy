/** One log listener of libdank/modules/logging/logging.c: a ring that loggers fill and one reader
    empties, a step for each time the listener's lock is held and one for the write outside it. */
module ListenerSteps {
  import opened Numerals

  const MSG_QUEUE_SZ: nat := 1024

  /** Where a text in the reader's hands comes from: the nth accepted message, or a report of so
      many drops. */
  datatype Source = Message(n: nat) | Report(drops: nat)

  /** Outside the lock before block_on_lmsg, asleep in it, holding a text to write, or finished. */
  datatype Phase = Ready | Waiting | Holding(source: Source) | Gone

  datatype Line = Line(text: string, source: Source)

  /** The fields of struct listener (lm is a slot), the reader's phase, and the history: messages
      accepted, how many of them have been taken, lines written, for each message rejected how many
      had been accepted before it, and how many rejections have been put into reports. */
  datatype State = State(queue: seq<string>, head: nat, tail: nat, lm: int, dropped: nat, phase: Phase,
                         accepted: seq<string>, taken: nat, written: seq<Line>, rejections: seq<nat>, reported: nat)

  const NO_SLOT: int := -1

  function Initial(queue: seq<string>): State {
    State(queue, 0, 0, NO_SLOT, 0, Ready, [], 0, [], [], 0)
  }

  datatype Step = Enter | Wake | Write(ok: bool) | Enqueue(msg: string)

  function Inc(i: nat): nat { (i + 1) % MSG_QUEUE_SZ }

  function ReportText(drops: nat): string { Decimal(drops) + " messages dropped\n" }

  predicate Shaped(s: State) {
    |s.queue| == MSG_QUEUE_SZ && s.head < MSG_QUEUE_SZ && s.tail < MSG_QUEUE_SZ && NO_SLOT <= s.lm < MSG_QUEUE_SZ
  }

  /** The end of block_on_lmsg: take the message at head, or go on waiting.  The empty message
      says that logging has stopped. */
  function Take(s: State): State
    requires Shaped(s)
  {
    if s.head == s.tail then s.(lm := NO_SLOT, phase := Waiting)
    else s.(lm := s.head, head := Inc(s.head), taken := s.taken + 1,
            phase := if s.queue[s.head] == "" then Gone else Holding(Message(s.taken)))
  }

  /** A report of drops overwrites the slot that the reader has just written out. */
  function ReportDrops(s: State): State
    requires Shaped(s) && s.lm >= 0
  {
    s.(queue := s.queue[s.lm := ReportText(s.dropped)], dropped := 0, reported := s.reported + s.dropped,
       phase := Holding(Report(s.dropped)))
  }

  function Next(s: State, step: Step): State
    requires Shaped(s)
  {
    match step
    case Enter =>
      if !s.phase.Ready? then s
      else if s.lm >= 0 && s.dropped > 0 then ReportDrops(s)
      else Take(s)
    case Wake => if s.phase.Waiting? then Take(s) else s
    case Write(ok) =>
      if !s.phase.Holding? || s.lm < 0 then s
      else if !ok then s.(phase := Gone)
      else s.(written := s.written + [Line(s.queue[s.lm], s.phase.source)], phase := Ready)
    case Enqueue(msg) =>
      if Inc(s.tail) != s.head then
        s.(queue := s.queue[s.tail := msg], tail := Inc(s.tail), accepted := s.accepted + [msg])
      else s.(dropped := s.dropped + 1, rejections := s.rejections + [|s.accepted|])
  }

  // ----- what every step keeps

  function MessagesIn(ls: seq<Line>): (r: seq<string>) {
    if ls == [] then []
    else
      var front, l := MessagesIn(ls[..|ls| - 1]), ls[|ls| - 1];
      if l.source.Message? then front + [l.text] else front
  }

  function DropsIn(ls: seq<Line>): nat {
    if ls == [] then 0
    else
      var front, l := DropsIn(ls[..|ls| - 1]), ls[|ls| - 1];
      if l.source.Report? then front + l.source.drops else front
  }

  /** The drops in a report that has been made but not written. */
  function DropsHeld(s: State): nat {
    if s.phase.Holding? && s.phase.source.Report? then s.phase.source.drops else 0
  }

  /** head and tail count messages taken and accepted, and the ring never fills its last slot. */
  predicate Ring(s: State) {
    && Shaped(s) && s.taken <= |s.accepted| < s.taken + MSG_QUEUE_SZ
    && s.head == s.taken % MSG_QUEUE_SZ && s.tail == |s.accepted| % MSG_QUEUE_SZ
    && (forall j {:trigger s.accepted[j]} :: s.taken <= j < |s.accepted| ==> s.queue[j % MSG_QUEUE_SZ] == s.accepted[j])
  }

  function TextOf(s: State, source: Source): string
    requires source.Message? ==> source.n < |s.accepted|
  {
    match source
    case Message(n) => s.accepted[n]
    case Report(drops) => ReportText(drops)
  }

  /** The reader's slot is the one just behind head, and holds what the reader took or reported. */
  predicate Held(s: State)
    requires Ring(s)
  {
    && (s.lm >= 0 ==> s.taken > 0 && s.lm == (s.taken - 1) % MSG_QUEUE_SZ)
    && (s.phase.Waiting? ==> s.lm == NO_SLOT)
    && (s.phase.Holding? && s.phase.source.Report? ==> s.phase.source.drops > 0)
    && (s.phase.Holding? ==> s.lm >= 0 && (s.phase.source.Message? ==> s.phase.source.n == s.taken - 1)
                             && s.queue[s.lm] == TextOf(s, s.phase.source))
  }

  /** How many messages have gone out. */
  function Delivered(s: State): nat {
    if s.phase.Holding? && s.phase.source.Message? && s.taken > 0 then s.taken - 1 else s.taken
  }

  predicate History(s: State) {
    && |s.rejections| == s.reported + s.dropped
    && s.reported >= DropsIn(s.written) + DropsHeld(s)
    && (!s.phase.Gone? ==> s.reported == DropsIn(s.written) + DropsHeld(s))
    && MessagesIn(s.written) <= s.accepted
    && (!s.phase.Gone? ==> |MessagesIn(s.written)| == Delivered(s))
    && ReportsRead(s.written)
  }

  /** Every report written says how many drops it is for, and is for some. */
  predicate ReportsRead(ls: seq<Line>) {
    forall i :: 0 <= i < |ls| && ls[i].source.Report? ==> ls[i].text == ReportText(ls[i].source.drops) && ls[i].source.drops > 0
  }

  /** A report of the rejections from, from + 1, ... that stands behind m messages is 1022 or 1023
      messages ahead of where those rejected would have been. */
  predicate Covers(rejections: seq<nat>, from: nat, drops: nat, m: nat) {
    from + drops <= |rejections|
    && forall k :: from <= k < from + drops ==> m <= rejections[k] - (MSG_QUEUE_SZ - 2) <= m + 1
  }

  /** Each report is of the rejections next after those of the reports before it, and stands that
      far ahead of them. */
  predicate Placed(ls: seq<Line>, rejections: seq<nat>) {
    ls == []
    || (var front, l := ls[..|ls| - 1], ls[|ls| - 1];
        Placed(front, rejections)
        && (l.source.Report? ==> Covers(rejections, DropsIn(front), l.source.drops, |MessagesIn(front)|)))
  }

  /** A rejection not yet reported took place since the last message was taken, or just before. */
  predicate Recent(rejection: nat, taken: nat, lm: int) {
    rejection == taken + MSG_QUEUE_SZ - 1 || (rejection == taken + MSG_QUEUE_SZ - 2 && lm >= 0)
  }

  predicate Counts(s: State) {
    && Placed(s.written, s.rejections)
    && (forall k {:trigger s.rejections[k]} :: s.reported <= k < |s.rejections| ==> Recent(s.rejections[k], s.taken, s.lm))
    && (s.phase.Holding? && s.phase.source.Report? ==>
          s.reported >= s.phase.source.drops
          && Covers(s.rejections, s.reported - s.phase.source.drops, s.phase.source.drops, s.taken))
  }

  predicate Inv(s: State) { Ring(s) && Held(s) && History(s) && Counts(s) }

  lemma StepKeeps(s: State, step: Step)
    requires Inv(s)
    ensures Inv(Next(s, step))
  {
    match step
    case Enter =>
      if s.phase.Ready? {
        if s.lm >= 0 && s.dropped > 0 { ReportKeeps(s); } else { TakeKeeps(s); }
      }
    case Wake => if s.phase.Waiting? { TakeKeeps(s); }
    case Write(ok) => WriteKeeps(s, ok);
    case Enqueue(msg) => EnqueueKeeps(s, msg);
  }

  lemma TakeKeeps(s: State)
    requires Inv(s) && (s.phase.Ready? || s.phase.Waiting?) && (s.lm >= 0 ==> s.dropped == 0)
    ensures Inv(Take(s))
  {
    hide Counts;
    TakeKeepsCounts(s);
    if s.head != s.tail {
      SomethingWaits(s);
      TakeKeepsRing(s);
    }
  }

  lemma TakeKeepsCounts(s: State)
    requires Inv(s) && (s.phase.Ready? || s.phase.Waiting?) && (s.lm >= 0 ==> s.dropped == 0)
    ensures Counts(Take(s))
  {
    hide Ring, Placed, Covers;
  }

  lemma SomethingWaits(s: State)
    requires Ring(s) && s.head != s.tail
    ensures s.taken < |s.accepted| && s.queue[s.head] == s.accepted[s.taken]
  {
    assert s.taken != |s.accepted|;
  }

  lemma TakeKeepsRing(s: State)
    requires Ring(s) && s.head != s.tail
    ensures Ring(Take(s)) && Take(s).lm == (Take(s).taken - 1) % MSG_QUEUE_SZ
  {
    SomethingWaits(s);
    NextSlot(s.taken);
  }

  /** The slot after a count's is that of the next count. */
  lemma NextSlot(i: nat)
    ensures Inc(i % MSG_QUEUE_SZ) == (i + 1) % MSG_QUEUE_SZ
  {
  }

  lemma ReportKeeps(s: State)
    requires Inv(s) && s.phase.Ready? && s.lm >= 0 && s.dropped > 0
    ensures Inv(ReportDrops(s))
  {
    hide Counts;
    ReportKeepsCounts(s);
    forall j | s.taken <= j < |s.accepted| ensures j % MSG_QUEUE_SZ != s.lm && s.queue[j % MSG_QUEUE_SZ] == s.accepted[j] {
      Apart(s.taken - 1, j);
    }
  }

  lemma ReportKeepsCounts(s: State)
    requires Inv(s) && s.phase.Ready? && s.lm >= 0 && s.dropped > 0
    ensures Counts(ReportDrops(s))
  {
    hide Ring, Placed;
    forall k | s.reported <= k < |s.rejections|
      ensures s.taken <= s.rejections[k] - (MSG_QUEUE_SZ - 2) <= s.taken + 1
    {
      assert Recent(s.rejections[k], s.taken, s.lm);
    }
  }

  /** Fewer than a ring's length apart, two counts are different slots. */
  lemma Apart(i: nat, j: nat)
    requires i < j < i + MSG_QUEUE_SZ
    ensures i % MSG_QUEUE_SZ != j % MSG_QUEUE_SZ
  {
  }

  lemma WriteKeeps(s: State, ok: bool)
    requires Inv(s)
    ensures Inv(Next(s, Write(ok)))
  {
    hide Counts;
    WriteKeepsCounts(s, ok);
    var s' := Next(s, Write(ok));
    if s.phase.Holding? && ok {
      assert s'.written[..|s.written|] == s.written;
      if s.phase.source.Message? {
        assert s.accepted[..s.taken] == s.accepted[..s.taken - 1] + [s.accepted[s.taken - 1]];
        assert MessagesIn(s.written) == s.accepted[..s.taken - 1];
      }
    }
  }

  lemma WriteKeepsCounts(s: State, ok: bool)
    requires Inv(s)
    ensures Counts(Next(s, Write(ok)))
  {
    hide Covers, MessagesIn, DropsIn, Recent;
    var s' := Next(s, Write(ok));
    if s.phase.Holding? && ok {
      assert s'.written[..|s.written|] == s.written;
    }
  }

  lemma FullExactly(s: State)
    requires Ring(s)
    ensures Inc(s.tail) == s.head <==> |s.accepted| == s.taken + MSG_QUEUE_SZ - 1
  {
  }

  lemma EnqueueKeeps(s: State, msg: string)
    requires Inv(s)
    ensures Inv(Next(s, Enqueue(msg)))
  {
    hide Counts, Ring, Held;
    EnqueueKeepsRing(s, msg);
    EnqueueKeepsHeld(s, msg);
    EnqueueKeepsHistory(s, msg);
    EnqueueKeepsCounts(s, msg);
  }

  lemma EnqueueKeepsHistory(s: State, msg: string)
    requires Ring(s) && History(s)
    ensures History(Next(s, Enqueue(msg)))
  {
  }

  lemma EnqueueKeepsCounts(s: State, msg: string)
    requires Inv(s)
    ensures Counts(Next(s, Enqueue(msg)))
  {
    hide Placed, MessagesIn, DropsIn, Held;
    FullExactly(s);
    PlacedStays(s.written, s.rejections, |s.accepted|);
  }

  /** Later rejections move no report. */
  lemma {:induction false} PlacedStays(ls: seq<Line>, rejections: seq<nat>, a: nat)
    requires Placed(ls, rejections)
    ensures Placed(ls, rejections + [a])
    decreases |ls|
  {
    if ls != [] { PlacedStays(ls[..|ls| - 1], rejections, a); }
  }

  lemma EnqueueKeepsRing(s: State, msg: string)
    requires Ring(s)
    ensures Ring(Next(s, Enqueue(msg)))
  {
    hide Inc;
    var s' := Next(s, Enqueue(msg));
    FullExactly(s);
    NextSlot(|s.accepted|);
    if Inc(s.tail) != s.head {
      forall j | s'.taken <= j < |s'.accepted| ensures s'.queue[j % MSG_QUEUE_SZ] == s'.accepted[j] {
        EnqueueKeepsSlot(s, msg, j);
      }
    }
  }

  lemma EnqueueKeepsSlot(s: State, msg: string, j: nat)
    requires Ring(s) && Inc(s.tail) != s.head && s.taken <= j <= |s.accepted| < s.taken + MSG_QUEUE_SZ - 1
    ensures Next(s, Enqueue(msg)).queue[j % MSG_QUEUE_SZ] == (s.accepted + [msg])[j]
  {
    if j < |s.accepted| {
      Apart(j, |s.accepted|);
      assert (s.accepted + [msg])[j] == s.accepted[j];
    }
  }

  /** The reader's slot is not the one that the next message goes into. */
  lemma EnqueueKeepsHeld(s: State, msg: string)
    requires Ring(s) && Held(s) && Ring(Next(s, Enqueue(msg)))
    ensures Held(Next(s, Enqueue(msg)))
  {
    FullExactly(s);
    if s.lm >= 0 && Inc(s.tail) != s.head { Apart(s.taken - 1, |s.accepted|); }
  }

  // ----- whole runs

  function Run(s: State, steps: seq<Step>): (r: State)
    requires Shaped(s)
    ensures Shaped(r)
    decreases |steps|
  {
    if steps == [] then s else Next(Run(s, steps[..|steps| - 1]), steps[|steps| - 1])
  }

  lemma {:induction false} RunKeeps(queue: seq<string>, steps: seq<Step>)
    requires |queue| == MSG_QUEUE_SZ
    ensures Inv(Run(Initial(queue), steps))
    decreases |steps|
  {
    if steps != [] {
      RunKeeps(queue, steps[..|steps| - 1]);
      StepKeeps(Run(Initial(queue), steps[..|steps| - 1]), steps[|steps| - 1]);
    }
  }

  /** However loggers and the reader interleave: what has been written are the first accepted
      messages in order, with reports between them that say the drops they are for: those after the
      ones in the report before, a ring's length ahead of where they were dropped.  As long as no
      write has failed, nothing taken is missing but what the reader holds, and every rejection is
      in a report written, in the one that the reader holds, or still counted. */
  lemma DeliversInOrder(queue: seq<string>, steps: seq<Step>)
    requires |queue| == MSG_QUEUE_SZ
    ensures var s := Run(Initial(queue), steps);
      && MessagesIn(s.written) <= s.accepted && ReportsRead(s.written)
      && Placed(s.written, s.rejections)
      && DropsIn(s.written) + s.dropped <= |s.rejections|
      && (!s.phase.Gone? ==> |MessagesIn(s.written)| == Delivered(s)
                             && DropsIn(s.written) + DropsHeld(s) + s.dropped == |s.rejections|)
  {
    RunKeeps(queue, steps);
  }

  /** A report, when it is made, counts exactly the rejections since those in the reports before it. */
  lemma ReportCountsAll(queue: seq<string>, steps: seq<Step>)
    requires |queue| == MSG_QUEUE_SZ
    ensures var s := Run(Initial(queue), steps);
      var s', pending := Next(s, Enter), |s.rejections| - DropsIn(s.written);
      s.phase.Ready? && s.lm >= 0 ==>
        (s'.phase.Holding? && s'.phase.source.Report? <==> pending > 0) && (pending > 0 ==> s'.phase.source.drops == pending)
  {
    RunKeeps(queue, steps);
  }

  /** A write has failed, or the empty message has been taken. */
  ghost predicate Ended(s: State, steps: seq<Step>) {
    || (exists i :: 0 <= i < |steps| && steps[i] == Write(false))
    || (0 < s.taken <= |s.accepted| && s.accepted[s.taken - 1] == "")
  }

  ghost predicate Explained(s: State, steps: seq<Step>) {
    && (s.phase.Gone? ==> Ended(s, steps))
    && (s.phase.Holding? && s.phase.source.Message? ==>
          s.phase.source.n == s.taken - 1 < |s.accepted| && s.accepted[s.phase.source.n] != "")
  }

  /** Nothing else ends the reader, and it never holds the empty message. */
  lemma {:induction false} GoneOnlyThen(queue: seq<string>, steps: seq<Step>)
    requires |queue| == MSG_QUEUE_SZ
    ensures Explained(Run(Initial(queue), steps), steps)
    decreases |steps|
  {
    if steps != [] {
      hide Next, Inv, Explained;
      var front, step := steps[..|steps| - 1], steps[|steps| - 1];
      GoneOnlyThen(queue, front);
      RunKeeps(queue, front);
      ExplainedStep(Run(Initial(queue), front), front, step);
      assert steps == front + [step];
    }
  }

  lemma ExplainedStep(s: State, front: seq<Step>, step: Step)
    requires Inv(s) && Explained(s, front)
    ensures Explained(Next(s, step), front + [step])
  {
    if s.phase.Gone? {
      StillEnded(s, front, step);
    } else {
      hide Next, Inv;
      GoneStep(s, step);
      if step == Write(false) { assert (front + [step])[|front|] == Write(false); }
    }
  }

  lemma StillEnded(s: State, front: seq<Step>, step: Step)
    requires Inv(s) && s.phase.Gone? && Ended(s, front)
    ensures Ended(Next(s, step), front + [step]) && Next(s, step).phase.Gone?
  {
    if i :| 0 <= i < |front| && front[i] == Write(false) {
      assert (front + [step])[i] == Write(false);
    }
  }

  lemma GoneStep(s: State, step: Step)
    requires Inv(s) && !s.phase.Gone?
    requires s.phase.Holding? && s.phase.source.Message? ==>
      s.phase.source.n == s.taken - 1 < |s.accepted| && s.accepted[s.phase.source.n] != ""
    ensures var s' := Next(s, step);
      && (s'.phase.Gone? ==> step == Write(false) || (0 < s'.taken <= |s'.accepted| && s'.accepted[s'.taken - 1] == ""))
      && (s'.phase.Holding? && s'.phase.source.Message? ==>
            s'.phase.source.n == s'.taken - 1 < |s'.accepted| && s'.accepted[s'.phase.source.n] != "")
  {
    if (step.Enter? || step.Wake?) && s.head != s.tail { SomethingWaits(s); }
  }

  /** No logger touches the slot that the reader is writing out without the lock; the text is
      still the one that was taken or reported. */
  lemma SlotIsTheReaders(queue: seq<string>, steps: seq<Step>, msg: string)
    requires |queue| == MSG_QUEUE_SZ
    ensures var s := Run(Initial(queue), steps);
      var s' := Next(s, Enqueue(msg));
      && (s.lm >= 0 ==> s.taken > 0 && s.lm == (s.taken - 1) % MSG_QUEUE_SZ && Inc(s.lm) == s.head && s'.queue[s.lm] == s.queue[s.lm])
      && (s.phase.Holding? ==> s.lm >= 0 && (s.phase.source.Message? ==> s.phase.source.n < |s.accepted|)
                               && s.queue[s.lm] == TextOf(s, s.phase.source))
  {
    hide Run, History, Next;
    RunKeeps(queue, steps);
    var s := Run(Initial(queue), steps);
    if s.lm >= 0 { SlotUntouched(s, msg); }
  }

  lemma SlotUntouched(s: State, msg: string)
    requires Ring(s) && Held(s) && s.lm >= 0
    ensures Inc(s.lm) == s.head && Next(s, Enqueue(msg)).queue[s.lm] == s.queue[s.lm]
  {
    hide Inc;
    NextSlot(s.taken - 1);
    FullExactly(s);
    if Inc(s.tail) != s.head { Apart(s.taken - 1, |s.accepted|); }
  }

  /** A message is rejected exactly when 1023 are waiting. */
  lemma RejectsWhenFull(queue: seq<string>, steps: seq<Step>, msg: string)
    requires |queue| == MSG_QUEUE_SZ
    ensures var s := Run(Initial(queue), steps);
      var s' := Next(s, Enqueue(msg));
      if |s.accepted| - s.taken == MSG_QUEUE_SZ - 1 then s'.rejections == s.rejections + [|s.accepted|] && s'.accepted == s.accepted
      else s'.accepted == s.accepted + [msg] && s'.rejections == s.rejections
  {
    RunKeeps(queue, steps);
    FullExactly(Run(Initial(queue), steps));
  }
}

/** The listener's own code. */
module Listeners {
  import opened ListenerSteps
  import Numerals

  class Listener {
    var dropped: nat
    var head: nat
    var tail: nat
    const msgQueue: array<string>
    var lm: int
    ghost var phase: Phase
    ghost var accepted: seq<string>
    ghost var taken: nat
    ghost var written: seq<Line>
    ghost var rejections: seq<nat>
    ghost var reported: nat

    ghost function View(): State reads this, msgQueue {
      State(msgQueue[..], head, tail, lm, dropped, phase, accepted, taken, written, rejections, reported)
    }

    ghost predicate Valid() reads this, msgQueue { Inv(View()) }

    constructor ()
      ensures Valid() && fresh(msgQueue) && View() == Initial(msgQueue[..])
    {
      msgQueue := new string[MSG_QUEUE_SZ](i => "");
      dropped, head, tail, lm := 0, 0, 0, NO_SLOT;
      phase, accepted, taken, written, rejections, reported := Ready, [], 0, [], [], 0;
    }

    /** block_on_lmsg up to its end or to the first wait; r == 0 where lm is a text to write. */
    method Enter() returns (asleep: bool, r: int)
      requires Valid() && phase.Ready?
      modifies this, msgQueue
      ensures Valid() && View() == Next(old(View()), Step.Enter)
      ensures asleep == phase.Waiting? && (!asleep ==> (r == 0 <==> phase.Holding?))
      ensures old(lm) >= 0 && old(dropped) > 0 ==>
        && !asleep && r == 0 && lm == old(lm) && msgQueue[lm] == Numerals.Decimal(old(dropped)) + " messages dropped\n"
        && dropped == 0 && taken == old(taken) && phase == Holding(Report(old(dropped)))
      ensures !(old(lm) >= 0 && old(dropped) > 0) && old(taken) < |old(accepted)| ==>
        && !asleep && taken == old(taken) + 1 && lm >= 0 && msgQueue[lm] == accepted[old(taken)] && dropped == old(dropped)
        && (r == 0 <==> accepted[old(taken)] != "")
        && phase == if accepted[old(taken)] != "" then Holding(Message(old(taken))) else Gone
      ensures !(old(lm) >= 0 && old(dropped) > 0) && old(taken) == |old(accepted)| ==> asleep && taken == old(taken) && lm == NO_SLOT && dropped == old(dropped)
      ensures accepted == old(accepted) && written == old(written) && rejections == old(rejections)
    {
      hide History, Counts, Held;
      if lm >= 0 {
        if dropped > 0 {
          ReportKeeps(View());
          var drops := dropped;
          dropped := 0;
          msgQueue[lm] := Numerals.Decimal(drops) + " messages dropped\n";
          reported, phase := reported + drops, Holding(Report(drops));
          return false, 0;
        }
        lm := NO_SLOT;
      }
      asleep, r := TakeOrSleep(old(View()));
    }

    /** The test of the wait loop, and what follows it once a message is there. */
    method TakeOrSleep(ghost was: State) returns (asleep: bool, r: int)
      requires lm == NO_SLOT && was.(lm := NO_SLOT) == View() && Inv(was) && (was.phase.Ready? || was.phase.Waiting?) && (was.lm >= 0 ==> was.dropped == 0)
      modifies this
      ensures Valid() && View() == Take(was)
      ensures asleep == phase.Waiting? && (!asleep ==> (r == 0 <==> phase.Holding?))
      ensures old(taken) < |old(accepted)| ==>
        && !asleep && taken == old(taken) + 1 && lm >= 0 && msgQueue[lm] == accepted[old(taken)] && dropped == old(dropped)
        && (r == 0 <==> accepted[old(taken)] != "")
        && phase == if accepted[old(taken)] != "" then Holding(Message(old(taken))) else Gone
      ensures old(taken) == |old(accepted)| ==> asleep && taken == old(taken) && lm == NO_SLOT && dropped == old(dropped)
      ensures accepted == old(accepted) && written == old(written) && rejections == old(rejections)
    {
      TakeKeeps(was);
      SlotsAndCounts(was);
      if head == tail {
        phase := Waiting;
        return true, 0;
      }
      lm := head;
      head := Inc(head);
      phase := if msgQueue[lm] == "" then Gone else Holding(Message(taken));
      taken := taken + 1;
      return false, if msgQueue[lm] == "" then 1 else 0;
    }

    method Wake() returns (asleep: bool, r: int)
      requires Valid() && phase.Waiting?
      modifies this
      ensures Valid() && View() == Next(old(View()), Step.Wake)
      ensures asleep == phase.Waiting? && (!asleep ==> (r == 0 <==> phase.Holding?))
      ensures old(taken) < |old(accepted)| ==>
        && !asleep && taken == old(taken) + 1 && lm >= 0 && msgQueue[lm] == accepted[old(taken)] && dropped == old(dropped)
        && (r == 0 <==> accepted[old(taken)] != "")
        && phase == if accepted[old(taken)] != "" then Holding(Message(old(taken))) else Gone
      ensures old(taken) == |old(accepted)| ==> asleep && taken == old(taken) && lm == NO_SLOT && dropped == old(dropped)
      ensures accepted == old(accepted) && written == old(written) && rejections == old(rejections)
    {
      asleep, r := TakeOrSleep(View());
    }

    /** Writen(sd, l->lm->msg, l->lm->len), with no lock held; ok is whether it succeeded. */
    method Write(ok: bool) returns (text: string)
      requires Valid() && phase.Holding?
      modifies this`phase, this`written
      ensures Valid() && View() == Next(old(View()), Step.Write(ok))
      ensures if ok then phase.Ready? && written == old(written) + [Line(text, old(phase).source)]
              else phase.Gone? && written == old(written)
      ensures text == msgQueue[lm]
      ensures text == match old(phase).source case Message(n) => accepted[taken - 1] case Report(drops) => ReportText(drops)
    {
      WriteKeeps(View(), ok);
      text := msgQueue[lm];
      if ok {
        written, phase := written + [Line(text, phase.source)], Ready;
      } else {
        phase := Gone;
      }
    }

    /** enqueue_msg, where the lock was free. */
    method Enqueue(msg: string) returns (wakeup: bool)
      requires Valid()
      modifies this, msgQueue
      ensures Valid() && View() == Next(old(View()), Step.Enqueue(msg))
      ensures wakeup <==> |old(accepted)| < old(taken) + 1023
      ensures if wakeup then accepted == old(accepted) + [msg] && dropped == old(dropped)
              else accepted == old(accepted) && dropped == old(dropped) + 1
      ensures phase == old(phase) && taken == old(taken) && written == old(written)
      ensures lm == old(lm) && (lm >= 0 ==> msgQueue[lm] == old(msgQueue[lm]))
    {
      EnqueueKeeps(View(), msg);
      FullExactly(View());
      if Inc(tail) != head {
        if lm >= 0 { Apart(taken - 1, |accepted|); }
        msgQueue[tail] := msg;
        tail := Inc(tail);
        accepted := accepted + [msg];
        return true;
      }
      dropped := dropped + 1;
      rejections := rejections + [|accepted|];
      return false;
    }
  }

  /** Something waits exactly if head and tail differ, and it stands at head. */
  lemma SlotsAndCounts(s: State)
    requires Ring(s)
    ensures s.head == s.tail <==> s.taken == |s.accepted|
    ensures s.head != s.tail ==> s.taken < |s.accepted| && s.queue[s.head] == s.accepted[s.taken]
  {
    if s.head != s.tail { SomethingWaits(s); }
    else if s.taken < |s.accepted| { Apart(s.taken, |s.accepted|); }
  }

  /** What is written of msgs up to the nth: after the first, the report of those beyond 1023. */
  function Output(msgs: seq<string>, n: nat): seq<string>
    requires n <= |msgs|
  {
    if n == 0 then [] else [msgs[0]] + DropReport(|msgs|) + msgs[1..n]
  }

  function DropReport(n: nat): seq<string> {
    if n > 1023 then [Numerals.Decimal(n - 1023) + " messages dropped\n"] else []
  }

  lemma OutputGrows(msgs: seq<string>, n: nat)
    requires n < |msgs|
    ensures Output(msgs, 0) == []
    ensures n > 0 ==> Output(msgs, n + 1) == Output(msgs, n) + [msgs[n]]
    ensures Output(msgs, 1) == [msgs[0]] + DropReport(|msgs|)
  {
    hide DropReport;
    if n > 0 { NextMessage(msgs, [msgs[0]] + DropReport(|msgs|), n); }
    assert msgs[1..1] == [];
  }

  lemma NextMessage(msgs: seq<string>, front: seq<string>, n: nat)
    requires 0 < n < |msgs|
    ensures front + msgs[1..n + 1] == (front + msgs[1..n]) + [msgs[n]]
  {
  }

  /** All messages are sent before the reader runs for the first time. */
  method SendAll(msgs: seq<string>) returns (l: Listener)
    ensures fresh(l) && fresh(l.msgQueue) && l.Valid() && l.phase.Ready? && l.taken == 0 && l.written == [] && l.lm < 0
    ensures l.accepted == msgs[..if |msgs| < 1023 then |msgs| else 1023]
    ensures l.dropped == if |msgs| < 1023 then 0 else |msgs| - 1023
  {
    l := new Listener();
    var i := 0;
    while i < |msgs|
      invariant 0 <= i <= |msgs| && fresh(l) && fresh(l.msgQueue)
      invariant l.Valid() && l.phase.Ready? && l.taken == 0 && l.written == [] && l.lm < 0
      invariant l.accepted == msgs[..if i < 1023 then i else 1023]
      invariant l.dropped == if i < 1023 then 0 else i - 1023
    {
      var _ := l.Enqueue(msgs[i]);
      i := i + 1;
    }
  }

  /** The text in hand goes out, and the reader looks for another. */
  method Turn(l: Listener) returns (text: string, asleep: bool)
    requires l.Valid() && l.phase.Holding?
    modifies l, l.msgQueue
    ensures l.Valid() && l.accepted == old(l.accepted)
    ensures text == match old(l.phase).source
      case Message(n) => old(l.accepted)[old(l.taken) - 1]
      case Report(drops) => Numerals.Decimal(drops) + " messages dropped\n"
    ensures old(l.dropped) > 0 ==>
      !asleep && l.dropped == 0 && l.taken == old(l.taken) && l.phase == Holding(Report(old(l.dropped)))
    ensures old(l.dropped) == 0 && old(l.taken) < |l.accepted| && l.accepted[old(l.taken)] != "" ==>
      !asleep && l.dropped == 0 && l.taken == old(l.taken) + 1 && l.phase == Holding(Message(old(l.taken)))
    ensures old(l.dropped) == 0 && old(l.taken) == |l.accepted| ==> asleep && l.dropped == 0 && l.taken == old(l.taken)
    ensures old(l.taken) > 0 && l.taken >= old(l.taken)
  {
    assert l.lm >= 0 && l.taken > 0;
    text := l.Write(true);
    hide Next, Inv;
    var r;
    asleep, r := l.Enter();
  }

  /** The reader then writes the first 1023 of them in order, and behind the first one how many were
      dropped; without drops these are all the messages. */
  method WriteAll(msgs: seq<string>) returns (out: seq<string>)
    requires forall i :: 0 <= i < |msgs| ==> msgs[i] != ""
    ensures out == Output(msgs, if |msgs| < 1023 then |msgs| else 1023)
  {
    hide Listener.Valid, Inv, Output, Next, Reached;
    var l := SendAll(msgs);
    ghost var n, drops := |l.accepted|, l.dropped;
    out := [];
    var asleep, r := l.Enter();
    FirstReached(msgs, n, drops, l.taken, l.dropped, l.phase, asleep);
    while !asleep
      invariant fresh(l) && fresh(l.msgQueue) && l.Valid() && l.accepted == msgs[..n]
      invariant Reached(msgs, n, drops, l.taken, l.dropped, l.phase, asleep, out)
      decreases n - l.taken, if asleep then 0 else l.dropped + 1
    {
      NextReached(msgs, n, drops, l.taken, l.dropped, l.phase, out);
      var text;
      text, asleep := Turn(l);
      out := out + [text];
    }
    LastReached(msgs, n, drops, l.taken, l.dropped, l.phase, out);
  }

  /** How far the reader has come when the text in its hands is the next to go out. */
  predicate Reached(msgs: seq<string>, n: nat, drops: nat, taken: nat, dropped: nat, phase: Phase, asleep: bool, out: seq<string>)
    requires n <= |msgs|
  {
    if asleep then taken == n && out == Output(msgs, n)
    else
      && 0 < taken <= n && phase.Holding?
      && match phase.source
         case Message(k) => k == taken - 1 && dropped == (if taken == 1 then drops else 0) && out == Output(msgs, taken - 1)
         case Report(d) => d == drops > 0 && dropped == 0 && taken == 1 && out == [msgs[0]]
  }

  lemma FirstReached(msgs: seq<string>, n: nat, drops: nat, taken: nat, dropped: nat, phase: Phase, asleep: bool)
    requires n <= |msgs| && dropped == drops && (msgs != [] ==> n > 0)
    requires if n > 0 then !asleep && taken == 1 && phase == Holding(Message(0)) else asleep && taken == 0
    ensures Reached(msgs, n, drops, taken, dropped, phase, asleep, [])
  {
  }

  lemma LastReached(msgs: seq<string>, n: nat, drops: nat, taken: nat, dropped: nat, phase: Phase, out: seq<string>)
    requires n <= |msgs| && Reached(msgs, n, drops, taken, dropped, phase, true, out)
    ensures out == Output(msgs, n)
  {
  }

  lemma NextReached(msgs: seq<string>, n: nat, drops: nat, taken: nat, dropped: nat, phase: Phase, out: seq<string>)
    requires n == (if |msgs| < 1023 then |msgs| else 1023) && drops == (if |msgs| < 1023 then 0 else |msgs| - 1023)
    requires Reached(msgs, n, drops, taken, dropped, phase, false, out)
    ensures phase.Holding? && 0 < taken <= n
    ensures var out' := out + [match phase.source
        case Message(k) => msgs[taken - 1]
        case Report(d) => Numerals.Decimal(d) + " messages dropped\n"];
      && (dropped > 0 ==> Reached(msgs, n, drops, taken, 0, Holding(Report(dropped)), false, out'))
      && (dropped == 0 && taken < n ==> Reached(msgs, n, drops, taken + 1, 0, Holding(Message(taken)), false, out'))
      && (dropped == 0 && taken == n ==> forall p: Phase :: Reached(msgs, n, drops, taken, 0, p, true, out'))
  {
    hide Output;
    OutputGrows(msgs, taken - 1);
  }
}
