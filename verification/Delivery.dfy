/**
 * Exactly-once delivery (console/mod.rs, `push` and `subscribe`; routes/console.rs,
 * `stream_log`), over every interleaving of the single steps those two take.
 *
 * A push locks the replay buffer for writing, appends a numbered line, sends it
 * and unlocks. A subscription locks for reading, attaches a receiver, copies the
 * buffer and unlocks. A step that a lock keeps waiting changes nothing. The log
 * a viewer did not choose only takes numbers from the shared arrival counter.
 */
module Delivery {
  import opened Wrappers
  import opened Sequences
  import opened LogHub

  datatype Source = Log | Audit

  datatype Stage = Locked | Appended(line: Line) | Sent

  datatype Lock = Free | Writing(text: string, stage: Stage) | Reading(readers: set<nat>)

  datatype HubState = HubState(capacity: nat, backlog: seq<Line>, sent: seq<Line>, lock: Lock)

  datatype Sub = Sub(
    source: Source, holding: bool, start: Option<nat>, snapshot: Option<seq<Line>>,
    next: nat, got: seq<Line>, missed: nat)

  datatype System = System(clock: nat, log: HubState, audit: HubState, subs: map<nat, Sub>)

  datatype Step =
    | LockForPush(source: Source, text: string)
    | Append(source: Source)
    | Send(source: Source)
    | UnlockPush(source: Source)
    | LockForSubscribe(source: Source, id: nat)
    | Attach(id: nat)
    | Copy(id: nat)
    | UnlockSubscribe(id: nat)
    | Recv(id: nat)
    | NumberElsewhere

  function HubOf(s: System, source: Source): HubState {
    if source == Log then s.log else s.audit
  }

  function WithHub(s: System, source: Source, h: HubState): System {
    if source == Log then s.(log := h) else s.(audit := h)
  }

  function WithSub(s: System, id: nat, sub: Sub): System {
    s.(subs := s.subs[id := sub])
  }

  function NewHub(capacity: nat): HubState {
    HubState(if capacity >= 1 then capacity else 1, [], [], Free)
  }

  function Start(logCapacity: nat, auditCapacity: nat): System {
    System(0, NewHub(logCapacity), NewHub(auditCapacity), map[])
  }

  /** One step of a push, on its own hub. */
  function HubStep(h: HubState, clock: nat, step: Step): HubState {
    match step
    case LockForPush(_, text) => if h.lock.Free? then h.(lock := Writing(text, Locked)) else h
    case Append(_) =>
      if h.lock.Writing? && h.lock.stage.Locked? then
        var line := Line(clock, h.lock.text);
        h.(backlog := LastN(h.backlog + [line], h.capacity), lock := Writing(h.lock.text, Appended(line)))
      else h
    case Send(_) =>
      if h.lock.Writing? && h.lock.stage.Appended? then
        h.(sent := h.sent + [h.lock.stage.line], lock := Writing(h.lock.text, Stage.Sent))
      else h
    case UnlockPush(_) => if h.lock.Writing? && h.lock.stage.Sent? then h.(lock := Free) else h
    case _ => h
  }

  /** The arrival counter moves when, and only when, a line takes its number. */
  function Tick(h: HubState, clock: nat, step: Step): nat {
    if step.Append? && h.lock.Writing? && h.lock.stage.Locked? then clock + 1 else clock
  }

  function PushStep(s: System, source: Source, step: Step): System {
    var h := HubOf(s, source);
    WithHub(s, source, HubStep(h, s.clock, step)).(clock := Tick(h, s.clock, step))
  }

  /** One step of a subscriber, against its hub. */
  function SubAfter(h: HubState, sub: Sub, step: Step): Sub {
    match step
    case Attach(_) =>
      if sub.holding && sub.start.None? then sub.(start := Some(|h.sent|), next := |h.sent|) else sub
    case Copy(_) =>
      if sub.holding && sub.start.Some? && sub.snapshot.None? then sub.(snapshot := Some(h.backlog)) else sub
    case UnlockSubscribe(_) => if sub.holding && sub.snapshot.Some? then sub.(holding := false) else sub
    case Recv(_) =>
      if !sub.holding && sub.next <= |h.sent| then
        match Receive(h.sent, sub.next)
        case Empty => sub
        case Message(line) => sub.(next := sub.next + 1, got := sub.got + [line])
        case Lagged(n) => sub.(next := sub.next + n, missed := sub.missed + n)
      else sub
    case _ => sub
  }

  function LockAfter(h: HubState, id: nat, sub: Sub, step: Step): Lock {
    if step.UnlockSubscribe? && sub.holding && sub.snapshot.Some? && h.lock.Reading? then
      var left := h.lock.readers - {id};
      if left == {} then Free else Reading(left)
    else h.lock
  }

  function SubscribeStep(s: System, id: nat, sub: Sub, step: Step): System {
    var h := HubOf(s, sub.source);
    WithSub(WithHub(s, sub.source, h.(lock := LockAfter(h, id, sub, step))), id, SubAfter(h, sub, step))
  }

  function Apply(s: System, step: Step): System {
    match step
    case LockForPush(source, _) => PushStep(s, source, step)
    case Append(source) => PushStep(s, source, step)
    case Send(source) => PushStep(s, source, step)
    case UnlockPush(source) => PushStep(s, source, step)
    case LockForSubscribe(source, id) =>
      var h := HubOf(s, source);
      if id in s.subs || h.lock.Writing? then s
      else
        var readers := (if h.lock.Reading? then h.lock.readers else {}) + {id};
        WithSub(WithHub(s, source, h.(lock := Reading(readers))), id, Sub(source, true, None, None, 0, [], 0))
    case Attach(id) => if id in s.subs then SubscribeStep(s, id, s.subs[id], step) else s
    case Copy(id) => if id in s.subs then SubscribeStep(s, id, s.subs[id], step) else s
    case UnlockSubscribe(id) => if id in s.subs then SubscribeStep(s, id, s.subs[id], step) else s
    case Recv(id) => if id in s.subs then SubscribeStep(s, id, s.subs[id], step) else s
    case NumberElsewhere => s.(clock := s.clock + 1)
  }

  function Run(s: System, steps: seq<Step>): System {
    if steps == [] then s else Apply(Run(s, steps[..|steps| - 1]), steps[|steps| - 1])
  }

  /** Every line of a hub that has its number, sent or about to be. */
  function Numbered(h: HubState): seq<Line> {
    if h.lock.Writing? && h.lock.stage.Appended? then h.sent + [h.lock.stage.line] else h.sent
  }

  ghost predicate HubInv(h: HubState, clock: nat) {
    && h.capacity >= 1
    && h.backlog == LastN(Numbered(h), h.capacity)
    && Increasing(Numbered(h))
    && forall i | 0 <= i < |Numbered(h)| :: Numbered(h)[i].number < clock
  }

  ghost predicate Apart(a: seq<Line>, b: seq<Line>) {
    forall i, j | 0 <= i < |a| && 0 <= j < |b| :: a[i].number != b[j].number
  }

  ghost predicate SubInv(h: HubState, id: nat, sub: Sub) {
    && (sub.holding ==> h.lock.Reading? && id in h.lock.readers)
    && (sub.start.None? ==> sub.holding && sub.snapshot.None? && sub.got == [] && sub.missed == 0)
    && (sub.snapshot.None? ==> sub.holding)
    && (sub.start.Some? ==> Placed(h, sub, sub.start.value))
  }

  /** What a subscriber attached at `start` holds of the channel. */
  ghost predicate Placed(h: HubState, sub: Sub, start: nat) {
    && start <= sub.next <= |h.sent|
    && (sub.holding ==> sub.next == start == |h.sent| && sub.got == [])
    && (sub.snapshot.Some? ==> sub.snapshot.value == LastN(h.sent[..start], h.capacity))
    && |sub.got| + sub.missed == sub.next - start
    && (sub.missed == 0 ==> sub.got == h.sent[start..sub.next])
    && Increasing(sub.got)
    && forall i | 0 <= i < |sub.got| :: sub.got[i] in h.sent[start..sub.next]
  }

  ghost predicate Inv(s: System) {
    && HubInv(s.log, s.clock) && HubInv(s.audit, s.clock)
    && Apart(Numbered(s.log), Numbered(s.audit))
    && forall id | id in s.subs :: SubInv(HubOf(s, s.subs[id].source), id, s.subs[id])
  }

  /** A step leaves the numbered lines alone, or adds the one numbered now. */
  lemma NumberedGrows(h: HubState, clock: nat, step: Step)
    requires HubInv(h, clock)
    ensures var n := Numbered(HubStep(h, clock, step));
            if Tick(h, clock, step) == clock then n == Numbered(h)
            else n == Numbered(h) + [Line(clock, h.lock.text)]
  {
  }

  lemma HubStepKeepsInv(h: HubState, clock: nat, step: Step)
    requires HubInv(h, clock)
    ensures HubInv(HubStep(h, clock, step), Tick(h, clock, step))
  {
    NumberedGrows(h, clock, step);
    if Tick(h, clock, step) != clock {
      LastNAppend(Numbered(h), Line(clock, h.lock.text), h.capacity);
    }
  }

  lemma LastNAppend<T>(s: seq<T>, x: T, n: nat)
    requires n >= 1
    ensures LastN(LastN(s, n) + [x], n) == LastN(s + [x], n)
  {
  }

  lemma HubStepKeepsSub(h: HubState, clock: nat, step: Step, id: nat, sub: Sub)
    requires HubInv(h, clock) && SubInv(h, id, sub)
    ensures SubInv(HubStep(h, clock, step), id, sub)
  {
    var t := HubStep(h, clock, step);
    if sub.start.Some? {
      assert t.sent[..sub.start.value] == h.sent[..sub.start.value];
      assert t.sent[sub.start.value..sub.next] == h.sent[sub.start.value..sub.next];
    }
  }

  /** Numbers taken from one counter stay apart. */
  lemma PushKeepsApart(h: HubState, other: HubState, clock: nat, step: Step)
    requires HubInv(h, clock) && HubInv(other, clock) && Apart(Numbered(h), Numbered(other))
    ensures var t := HubStep(h, clock, step);
            Apart(Numbered(t), Numbered(other)) && Apart(Numbered(other), Numbered(t))
            && HubInv(other, Tick(h, clock, step))
  {
    NumberedGrows(h, clock, step);
  }

  lemma PushKeepsInv(s: System, source: Source, step: Step)
    requires Inv(s)
    ensures Inv(PushStep(s, source, step))
  {
    var t := PushStep(s, source, step);
    PushKeepsApart(HubOf(s, source), HubOf(s, if source == Log then Audit else Log), s.clock, step);
    HubStepKeepsInv(HubOf(s, source), s.clock, step);
    forall id | id in t.subs ensures SubInv(HubOf(t, t.subs[id].source), id, t.subs[id]) {
      if s.subs[id].source == source {
        HubStepKeepsSub(HubOf(s, source), s.clock, step, id, s.subs[id]);
      }
    }
  }

  lemma SentInOrder(h: HubState, clock: nat)
    requires HubInv(h, clock)
    ensures Increasing(h.sent)
  {
    assert forall i | 0 <= i < |h.sent| :: h.sent[i] == Numbered(h)[i];
  }

  lemma RecvKeepsPlaced(h: HubState, sub: Sub, start: nat)
    requires !sub.holding && sub.start == Some(start) && Placed(h, sub, start) && Increasing(h.sent)
    ensures match Receive(h.sent, sub.next)
            case Empty => true
            case Message(line) => Placed(h, sub.(next := sub.next + 1, got := sub.got + [line]), start)
            case Lagged(n) => Placed(h, sub.(next := sub.next + n, missed := sub.missed + n), start)
  {
  }

  /** The reader's own lock keeps pushes out, so the copy ends where the receiver starts. */
  lemma CopyKeepsPlaced(h: HubState, id: nat, sub: Sub)
    requires h.backlog == LastN(Numbered(h), h.capacity)
    requires SubInv(h, id, sub) && sub.holding && sub.start.Some?
    ensures Placed(h, sub.(snapshot := Some(h.backlog)), sub.start.value)
  {
    assert h.sent[..sub.start.value] == h.sent;
  }

  lemma RecvKeepsSub(h: HubState, clock: nat, id: nat, sub: Sub, step: Step)
    requires HubInv(h, clock) && SubInv(h, id, sub) && step.Recv?
    ensures SubInv(h, id, SubAfter(h, sub, step))
  {
    if !sub.holding {
      SentInOrder(h, clock);
      RecvKeepsPlaced(h, sub, sub.start.value);
    }
  }

  lemma SubscriberKeepsItsPlace(h: HubState, clock: nat, id: nat, sub: Sub, step: Step)
    requires HubInv(h, clock) && SubInv(h, id, sub)
    ensures SubInv(h.(lock := LockAfter(h, id, sub, step)), id, SubAfter(h, sub, step))
  {
    if step.Recv? {
      RecvKeepsSub(h, clock, id, sub, step);
      assert h.(lock := h.lock) == h;
    } else if step.Copy? && sub.holding && sub.start.Some? {
      CopyKeepsPlaced(h, id, sub);
    }
  }

  lemma OthersKeepTheirPlace(h: HubState, id: nat, sub: Sub, step: Step, other: nat, otherSub: Sub)
    requires SubInv(h, other, otherSub) && other != id
    ensures SubInv(h.(lock := LockAfter(h, id, sub, step)), other, otherSub)
  {
    if h.lock.Reading? && otherSub.holding {
      assert other in h.lock.readers - {id};
    }
  }

  lemma ReadersLeaveTheHub(h: HubState, clock: nat, id: nat, sub: Sub, step: Step)
    requires HubInv(h, clock)
    ensures var t := h.(lock := LockAfter(h, id, sub, step)); Numbered(t) == Numbered(h) && HubInv(t, clock)
  {
  }

  lemma SubscribeKeepsInv(s: System, id: nat, step: Step)
    requires Inv(s) && id in s.subs
    ensures Inv(SubscribeStep(s, id, s.subs[id], step))
  {
    var sub := s.subs[id];
    var h := HubOf(s, sub.source);
    var t := SubscribeStep(s, id, sub, step);
    ReadersLeaveTheHub(h, s.clock, id, sub, step);
    SubscriberKeepsItsPlace(h, s.clock, id, sub, step);
    assert t.subs[id] == SubAfter(h, sub, step) && HubOf(t, sub.source) == h.(lock := LockAfter(h, id, sub, step));
    forall other | other in t.subs ensures SubInv(HubOf(t, t.subs[other].source), other, t.subs[other]) {
      if other != id {
        OtherSubscriberKeepsInv(s, id, step, other);
      }
    }
  }

  lemma OtherSubscriberKeepsInv(s: System, id: nat, step: Step, other: nat)
    requires Inv(s) && id in s.subs && other in s.subs && other != id
    ensures var t := SubscribeStep(s, id, s.subs[id], step);
            t.subs[other] == s.subs[other] && SubInv(HubOf(t, t.subs[other].source), other, t.subs[other])
  {
    assert SubInv(HubOf(s, s.subs[other].source), other, s.subs[other]);
    if s.subs[other].source == s.subs[id].source {
      OthersKeepTheirPlace(HubOf(s, s.subs[id].source), id, s.subs[id], step, other, s.subs[other]);
    }
  }

  lemma LockToSubscribeKeepsInv(s: System, source: Source, id: nat)
    requires Inv(s)
    ensures Inv(Apply(s, LockForSubscribe(source, id)))
  {
    var t := Apply(s, LockForSubscribe(source, id));
    forall other | other in t.subs ensures SubInv(HubOf(t, t.subs[other].source), other, t.subs[other]) {
      if other in s.subs { assert SubInv(HubOf(s, s.subs[other].source), other, s.subs[other]); }
    }
  }

  lemma NumberElsewhereKeepsInv(s: System)
    requires Inv(s)
    ensures Inv(Apply(s, NumberElsewhere))
  {
    var t := Apply(s, NumberElsewhere);
    forall id | id in t.subs ensures SubInv(HubOf(t, t.subs[id].source), id, t.subs[id]) {
      assert SubInv(HubOf(s, s.subs[id].source), id, s.subs[id]);
    }
  }

  lemma StepKeepsInv(s: System, step: Step)
    requires Inv(s)
    ensures Inv(Apply(s, step))
  {
    match step
    case LockForPush(source, _) => PushKeepsInv(s, source, step);
    case Append(source) => PushKeepsInv(s, source, step);
    case Send(source) => PushKeepsInv(s, source, step);
    case UnlockPush(source) => PushKeepsInv(s, source, step);
    case LockForSubscribe(source, id) => LockToSubscribeKeepsInv(s, source, id);
    case Attach(id) => if id in s.subs { SubscribeKeepsInv(s, id, step); }
    case Copy(id) => if id in s.subs { SubscribeKeepsInv(s, id, step); }
    case UnlockSubscribe(id) => if id in s.subs { SubscribeKeepsInv(s, id, step); }
    case Recv(id) => if id in s.subs { SubscribeKeepsInv(s, id, step); }
    case NumberElsewhere => NumberElsewhereKeepsInv(s);
  }

  lemma {:induction false} RunKeepsInv(s: System, steps: seq<Step>)
    requires Inv(s)
    ensures Inv(Run(s, steps))
  {
    if steps != [] {
      var n := |steps| - 1;
      RunKeepsInv(s, steps[..n]);
      StepKeepsInv(Run(s, steps[..n]), steps[n]);
    }
  }

  lemma RunOfFour(s: System, a: Step, b: Step, c: Step, d: Step)
    ensures Run(s, [a, b, c, d]) == Apply(Apply(Apply(Apply(s, a), b), c), d)
  {
    var steps := [a, b, c, d];
    assert steps[..3][..2] == steps[..2] && steps[..2][..1] == steps[..1] && steps[..1][..0] == [];
    assert Run(s, steps[..1]) == Apply(s, a);
    assert Run(s, steps[..2]) == Apply(Apply(s, a), b);
    assert Run(s, steps[..3]) == Apply(Apply(Apply(s, a), b), c);
  }

  /** The steps of one push, with none between them, do what `Hub.Push` ensures. */
  lemma UninterruptedPush(s: System, source: Source, text: string)
    requires Inv(s) && HubOf(s, source).lock.Free?
    ensures var h, line := HubOf(s, source), Line(s.clock, text);
            var sent := h.sent + [line];
            Run(s, [LockForPush(source, text), Append(source), Send(source), UnlockPush(source)])
            == WithHub(s, source, HubState(h.capacity, LastN(sent, h.capacity), sent, Free)).(clock := s.clock + 1)
  {
    var h, line := HubOf(s, source), Line(s.clock, text);
    RunOfFour(s, LockForPush(source, text), Append(source), Send(source), UnlockPush(source));
    LastNAppend(h.sent, line, h.capacity);
    var backlog := LastN(h.backlog + [line], h.capacity);
    var locked := Apply(s, LockForPush(source, text));
    assert locked == WithHub(s, source, h.(lock := Writing(text, Locked)));
    var appended := Apply(locked, Append(source));
    assert HubOf(appended, source) == HubState(h.capacity, backlog, h.sent, Writing(text, Appended(line)));
    var sent := Apply(appended, Send(source));
    assert HubOf(sent, source) == HubState(h.capacity, backlog, h.sent + [line], Writing(text, Stage.Sent));
  }

  /** ... and those of one subscription do what `Hub.Subscribe` ensures. */
  lemma UninterruptedSubscribe(s: System, source: Source, id: nat)
    requires Inv(s) && !HubOf(s, source).lock.Writing? && id !in s.subs
    ensures var h := HubOf(s, source);
            var t := Run(s, [LockForSubscribe(source, id), Attach(id), Copy(id), UnlockSubscribe(id)]);
            && HubOf(t, source).(lock := h.lock) == h && t.clock == s.clock
            && t.subs == s.subs[id := Sub(source, false, Some(|h.sent|), Some(LastN(h.sent, h.capacity)), |h.sent|, [], 0)]
  {
    var h := HubOf(s, source);
    RunOfFour(s, LockForSubscribe(source, id), Attach(id), Copy(id), UnlockSubscribe(id));
    var locked := Apply(s, LockForSubscribe(source, id));
    assert locked.subs[id] == Sub(source, true, None, None, 0, [], 0);
    var attached := Apply(locked, Attach(id));
    assert attached.subs[id] == Sub(source, true, Some(|h.sent|), None, |h.sent|, [], 0);
    var copied := Apply(attached, Copy(id));
    assert copied.subs[id] == Sub(source, true, Some(|h.sent|), Some(h.backlog), |h.sent|, [], 0);
  }

  /** Subscribed, and no longer holding the hub's lock. */
  ghost predicate Subscribed(s: System, id: nat) {
    id in s.subs && !s.subs[id].holding
  }

  /** A replay buffer keeps as many lines as it was made for, and one when it was made for none. */
  lemma {:induction false} CapacityIsAsAsked(logCapacity: nat, auditCapacity: nat, steps: seq<Step>)
    ensures var s := Run(Start(logCapacity, auditCapacity), steps);
            && s.log.capacity == (if logCapacity == 0 then 1 else logCapacity)
            && s.audit.capacity == (if auditCapacity == 0 then 1 else auditCapacity)
    decreases |steps|
  {
    if steps != [] {
      CapacityIsAsAsked(logCapacity, auditCapacity, steps[..|steps| - 1]);
    }
  }

  /**
   * In every interleaving: the snapshot is the last `capacity` lines sent before
   * the subscriber attached, and what it then received is every later line, in
   * order and once -- except for the lines the channel reported as lost.
   */
  lemma EveryLineExactlyOnce(logCapacity: nat, auditCapacity: nat, steps: seq<Step>, id: nat)
    requires Subscribed(Run(Start(logCapacity, auditCapacity), steps), id)
    ensures var s := Run(Start(logCapacity, auditCapacity), steps);
            var sub, h := s.subs[id], HubOf(s, s.subs[id].source);
            && sub.start.Some? && sub.start.value <= sub.next <= |h.sent|
            && sub.snapshot == Some(LastN(h.sent[..sub.start.value], h.capacity))
            && |sub.got| + sub.missed == sub.next - sub.start.value
            && (sub.missed == 0 ==> sub.got == h.sent[sub.start.value..sub.next])
            && Increasing(sub.got) && Increasing(h.sent)
            && forall i | 0 <= i < |sub.got| :: sub.got[i] in h.sent[sub.start.value..sub.next]
  {
    var s := Run(Start(logCapacity, auditCapacity), steps);
    RunKeepsInv(Start(logCapacity, auditCapacity), steps);
    var h := HubOf(s, s.subs[id].source);
    assert SubInv(h, id, s.subs[id]);
    SentInOrder(h, s.clock);
  }

  /** A `recv` that finds more than 1024 lines waiting. */
  ghost predicate Overrun(s: System, step: Step, id: nat) {
    && step == Recv(id) && id in s.subs && !s.subs[id].holding
    && s.subs[id].next + 1024 < |HubOf(s, s.subs[id].source).sent|
  }

  function MissedBy(s: System, id: nat): nat {
    if id in s.subs then s.subs[id].missed else 0
  }

  lemma OneStepMisses(s: System, step: Step, id: nat)
    ensures MissedBy(Apply(s, step), id) >= MissedBy(s, id)
    ensures MissedBy(Apply(s, step), id) > MissedBy(s, id) <==> Overrun(s, step, id)
  {
  }

  ghost predicate OverrunAt(start: System, steps: seq<Step>, id: nat, i: nat) {
    i < |steps| && Overrun(Run(start, steps[..i]), steps[i], id)
  }

  lemma OverrunBefore(start: System, steps: seq<Step>, id: nat, i: nat)
    requires i < |steps| - 1
    ensures OverrunAt(start, steps, id, i) <==> OverrunAt(start, steps[..|steps| - 1], id, i)
  {
    assert steps[..|steps| - 1][..i] == steps[..i];
  }

  /** A subscriber has lost lines exactly when it once stood more than 1024 lines behind at a `recv`. */
  lemma {:induction false} MissesOnlyWhenOverrun(start: System, steps: seq<Step>, id: nat)
    requires start.subs == map[]
    ensures MissedBy(Run(start, steps), id) > 0 <==> exists i: nat :: OverrunAt(start, steps, id, i)
    decreases |steps|
  {
    if steps != [] {
      var n := |steps| - 1;
      MissesOnlyWhenOverrun(start, steps[..n], id);
      OneStepMisses(Run(start, steps[..n]), steps[n], id);
      assert OverrunAt(start, steps, id, n) <==> Overrun(Run(start, steps[..n]), steps[n], id);
      forall i: nat | i < n ensures OverrunAt(start, steps, id, i) <==> OverrunAt(start, steps[..n], id, i) {
        OverrunBefore(start, steps, id, i);
      }
    }
  }

  /** A `recv` takes the next line while no more than 1024 are waiting, and else skips to the oldest of those. */
  lemma RecvTakesTheNext(s: System, id: nat)
    requires id in s.subs && !s.subs[id].holding && s.subs[id].next < |HubOf(s, s.subs[id].source).sent|
    ensures var before, sent := s.subs[id], HubOf(s, s.subs[id].source).sent;
            Apply(s, Recv(id)).subs[id]
            == if |sent| - before.next <= 1024 then before.(got := before.got + [sent[before.next]], next := before.next + 1)
               else before.(next := |sent| - 1024, missed := before.missed + (|sent| - 1024 - before.next))
  {
  }
}
