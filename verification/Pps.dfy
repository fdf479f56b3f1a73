/**
 The pulse capture: an interrupt handler publishes (count, timestamp) under a
 sequence lock, and the main loop's poll turns what it reads into a stream of
 events.  The two sides are modelled as atomic steps that may interleave in any
 order, with sequentially consistent memory.
 */
module Pps {
  import opened Wrappers
  import opened Numbers

  const MODULUS := 0x1_0000_0000
  const MAX_PULSES := 0x8000_0000

  /** Where the interrupt handler is between its three stores. */
  datatype Writer = Idle | Marked(nowUs: u64) | Stored(nowUs: u64)

  /** The two shared atomics, the handler, and the timestamps of all published pulses. */
  datatype Shared = Shared(seqNo: u32, edgeUs: u64, writer: Writer, history: seq<u64>)

  /** `snapshot` between its loads. */
  datatype Reader = Start | HasSeq(s1: u32) | HasEdge(s1: u32, edge: u64)

  datatype Cursor = Cursor(lastCount: u32, lastEdgeUs: u64)

  datatype PpsEvent =
    | First(edgeUs: u64)
    | Delta(intervalUs: u32, edgeUs: u64)

  /** The whole system; `counts` holds the pulse count behind each event, `retries` the failed confirmations. */
  datatype Machine = Machine(
    shared: Shared,
    reader: Reader,
    cursor: Cursor,
    events: seq<PpsEvent>,
    counts: seq<nat>,
    returned: seq<(nat, u64)>,
    retries: nat)

  datatype Action = Mark(nowUs: u64) | Store | Publish | LoadSeq | LoadEdge | Confirm

  const BOOT: Machine := Machine(Shared(0, 0, Idle, []), Start, Cursor(0, 0), [], [], [], 0)

  function Bump(x: u32): u32 {
    (x + 1) % MODULUS
  }

  predicate IsWriterStep(a: Action) {
    a.Mark? || a.Store? || a.Publish?
  }

  predicate Enabled(m: Machine, a: Action) {
    match a
    case Mark(_) => m.shared.writer.Idle?
    case Store => m.shared.writer.Marked?
    case Publish => m.shared.writer.Stored?
    case LoadSeq => m.reader.Start?
    case LoadEdge => m.reader.HasSeq?
    case Confirm => m.reader.HasEdge?
  }

  /** One store of the interrupt handler. */
  function WriterStep(s: Shared, a: Action): Shared
    requires IsWriterStep(a)
  {
    match (a, s.writer)
    case (Mark(now), Idle) => s.(seqNo := Bump(s.seqNo), writer := Marked(now))
    case (Store, Marked(now)) => s.(edgeUs := now, writer := Stored(now))
    case (Publish, Stored(now)) => s.(seqNo := Bump(s.seqNo), writer := Idle, history := s.history + [now])
    case _ => s
  }

  function DeltaUs(current: u64, previous: u64): u32 {
    (current - previous) % 0x1_0000_0000_0000_0000 % MODULUS
  }

  /** What `poll` makes of a snapshot. */
  function PollWith(cur: Cursor, count: u32, nowUs: u64): (Cursor, Option<PpsEvent>) {
    if count <= cur.lastCount then (cur, None)
    else
      (Cursor(count, nowUs),
       Some(if cur.lastEdgeUs > 0 then Delta(DeltaUs(nowUs, cur.lastEdgeUs), nowUs) else First(nowUs)))
  }

  function Apply(m: Machine, a: Action): Machine
    requires Enabled(m, a)
  {
    match a
    case LoadSeq => m.(reader := if m.shared.seqNo % 2 == 1 then Start else HasSeq(m.shared.seqNo))
    case LoadEdge => m.(reader := HasEdge(m.reader.s1, m.shared.edgeUs))
    case Confirm =>
      if m.shared.seqNo != m.reader.s1 then m.(reader := Start, retries := m.retries + 1)
      else
        var (count, now) := (m.reader.s1 / 2, m.reader.edge);
        var (cur, ev) := PollWith(m.cursor, count, now);
        m.(reader := Start, cursor := cur, returned := m.returned + [(count, now)],
           events := if ev.Some? then m.events + [ev.value] else m.events,
           counts := if ev.Some? then m.counts + [count] else m.counts)
    case _ => m.(shared := WriterStep(m.shared, a))
  }

  /** Edges come with nonzero, increasing timestamps, fewer than 2^31 of them. */
  ghost predicate GoodEdge(s: Shared, a: Action) {
    a.Mark? ==>
      && |s.history| + 1 < MAX_PULSES
      && 0 < a.nowUs < 0x8000_0000_0000_0000
      && (s.history != [] ==> s.history[|s.history| - 1] < a.nowUs)
  }

  /** `m` is reached from boot by the actions, each enabled when it happens. */
  ghost predicate Reaches(actions: seq<Action>, m: Machine)
    decreases |actions|
  {
    if actions == [] then m == BOOT
    else
      var a := actions[|actions| - 1];
      exists p :: Reaches(actions[..|actions| - 1], p) && Enabled(p, a) && GoodEdge(p.shared, a) && m == Apply(p, a)
  }

  // --- Invariant ---

  /** The timestamp of the `count`-th pulse; zero before the first. */
  ghost function PulseTime(history: seq<u64>, count: nat): u64
    requires count <= |history|
  {
    if count == 0 then 0 else history[count - 1]
  }

  ghost predicate Increasing(history: seq<u64>) {
    && (forall i :: 0 <= i < |history| ==> 0 < history[i] < 0x8000_0000_0000_0000)
    && (forall i, j :: 0 <= i < j < |history| ==> history[i] < history[j])
  }

  ghost predicate SharedInv(s: Shared) {
    && Increasing(s.history)
    && |s.history| + (if s.writer.Idle? then 0 else 1) < MAX_PULSES
    && s.seqNo == 2 * |s.history| + (if s.writer.Idle? then 0 else 1)
    && (s.edgeUs == if s.writer.Stored? then s.writer.nowUs else PulseTime(s.history, |s.history|))
    && (!s.writer.Idle? ==> Increasing(s.history + [s.writer.nowUs]))
  }

  ghost predicate ReaderInv(m: Machine) {
    match m.reader
    case Start => m.retries <= m.shared.seqNo
    case HasSeq(s1) => s1 % 2 == 0 && m.retries <= s1 <= m.shared.seqNo
    case HasEdge(s1, edge) =>
      && s1 % 2 == 0 && m.retries <= s1 <= m.shared.seqNo
      && (m.shared.seqNo == s1 ==> edge == PulseTime(m.shared.history, |m.shared.history|))
  }

  /** The log of events: real pulses in increasing order, one First in front, each Delta from the event before. */
  ghost predicate Stream(h: seq<u64>, es: seq<PpsEvent>, cs: seq<nat>) {
    && |es| == |cs|
    && (forall i :: 0 <= i < |cs| ==> 1 <= cs[i] <= |h| && es[i].edgeUs == h[cs[i] - 1])
    && (forall i, j :: 0 <= i < j < |cs| ==> cs[i] < cs[j])
    && (forall i :: 0 <= i < |es| ==> (es[i].First? <==> i == 0))
    && (forall i :: 0 < i < |es| ==> es[i].intervalUs == DeltaUs(es[i].edgeUs, es[i - 1].edgeUs))
  }

  ghost predicate CursorAt(cur: Cursor, es: seq<PpsEvent>, cs: seq<nat>) {
    && |es| == |cs|
    && cur.lastCount == (if cs == [] then 0 else cs[|cs| - 1])
    && cur.lastEdgeUs == (if es == [] then 0 else es[|es| - 1].edgeUs)
  }

  ghost predicate StreamInv(m: Machine) {
    Stream(m.shared.history, m.events, m.counts) && CursorAt(m.cursor, m.events, m.counts)
  }

  ghost predicate ReturnsInv(m: Machine) {
    forall i :: 0 <= i < |m.returned| ==>
      m.returned[i].0 <= |m.shared.history| && m.returned[i].1 == PulseTime(m.shared.history, m.returned[i].0)
  }

  ghost predicate Inv(m: Machine) {
    SharedInv(m.shared) && ReaderInv(m) && StreamInv(m) && ReturnsInv(m)
  }

  lemma WriterKeepsShared(s: Shared, a: Action)
    requires SharedInv(s) && IsWriterStep(a) && GoodEdge(s, a)
    ensures var s' := WriterStep(s, a);
            && SharedInv(s')
            && s.seqNo <= s'.seqNo && s.history <= s'.history
            && (s'.seqNo == s.seqNo && s.seqNo % 2 == 0 ==> s' == s)
  {
    var s' := WriterStep(s, a);
    if s.writer.Marked? && a.Store? {
      assert s' == s.(edgeUs := s.writer.nowUs, writer := Stored(s.writer.nowUs));
    }
  }

  /** A longer history reads the same for every pulse already counted. */
  lemma HistoryExtends(m: Machine, s: Shared)
    requires StreamInv(m) && ReturnsInv(m) && m.shared.history <= s.history
    ensures StreamInv(m.(shared := s)) && ReturnsInv(m.(shared := s))
  {
  }

  lemma AppendKeepsStream(h: seq<u64>, es: seq<PpsEvent>, cs: seq<nat>, ev: PpsEvent, count: nat)
    requires Stream(h, es, cs) && 1 <= count <= |h| && ev.edgeUs == h[count - 1]
    requires if es == [] then ev.First?
             else cs[|cs| - 1] < count && ev.Delta? && ev.intervalUs == DeltaUs(ev.edgeUs, es[|es| - 1].edgeUs)
    ensures Stream(h, es + [ev], cs + [count])
  {
    hide DeltaUs;
  }

  /** Polling with a true snapshot keeps the stream. */
  lemma PollKeepsStream(h: seq<u64>, es: seq<PpsEvent>, cs: seq<nat>, cur: Cursor, count: u32)
    requires Increasing(h) && Stream(h, es, cs) && CursorAt(cur, es, cs) && count <= |h|
    ensures var (cur', ev) := PollWith(cur, count, PulseTime(h, count));
            if ev.Some? then Stream(h, es + [ev.value], cs + [count]) && CursorAt(cur', es + [ev.value], cs + [count])
            else cur' == cur
  {
    var (_, ev) := PollWith(cur, count, PulseTime(h, count));
    if ev.Some? {
      assert es != [] ==> es[|es| - 1].edgeUs == h[cs[|cs| - 1] - 1];
      hide DeltaUs, Stream;
      AppendKeepsStream(h, es, cs, ev.value, count);
    }
  }

  lemma ConfirmKeepsInv(m: Machine)
    requires Inv(m) && m.reader.HasEdge?
    ensures Inv(Apply(m, Confirm))
  {
    hide Stream, PollWith, CursorAt, Increasing;
    if m.shared.seqNo == m.reader.s1 {
      PollKeepsStream(m.shared.history, m.events, m.counts, m.cursor, m.reader.s1 / 2);
    }
  }

  lemma ApplyKeepsInv(m: Machine, a: Action)
    requires Inv(m) && Enabled(m, a) && GoodEdge(m.shared, a)
    ensures Inv(Apply(m, a))
  {
    if IsWriterStep(a) {
      WriterKeepsShared(m.shared, a);
      HistoryExtends(m, WriterStep(m.shared, a));
    } else if a.Confirm? {
      ConfirmKeepsInv(m);
    }
  }

  lemma {:induction false} ReachableInv(actions: seq<Action>, m: Machine)
    requires Reaches(actions, m)
    ensures Inv(m)
    decreases |actions|
  {
    if actions != [] {
      var a := actions[|actions| - 1];
      var p :| Reaches(actions[..|actions| - 1], p) && Enabled(p, a) && GoodEdge(p.shared, a) && m == Apply(p, a);
      ReachableInv(actions[..|actions| - 1], p);
      ApplyKeepsInv(p, a);
    }
  }

  // --- Seqlock ---

  /**
   Whatever the interleaving of the handler's stores with the reader's loads and
   retries, every pair the reader returns has the timestamp of exactly the pulse
   it counts, and at most one retry is spent per handler store of the counter.
   */
  lemma SnapshotIsConsistent(actions: seq<Action>, m: Machine)
    requires Reaches(actions, m)
    ensures forall i :: 0 <= i < |m.returned| ==>
              m.returned[i].0 <= |m.shared.history|
              && m.returned[i].1 == PulseTime(m.shared.history, m.returned[i].0)
    ensures m.retries <= 2 * |m.shared.history| + 1
  {
    ReachableInv(actions, m);
  }

  /** The reader's next load. */
  function ReaderStep(m: Machine): Action {
    match m.reader
    case Start => LoadSeq
    case HasSeq(_) => LoadEdge
    case HasEdge(_, _) => Confirm
  }

  ghost function ReadAlone(m: Machine, n: nat): Machine
    decreases n
  {
    if n == 0 then m else ReadAlone(Apply(m, ReaderStep(m)), n - 1)
  }

  /** Steps a quiet reader needs: the rest of this attempt, and one more when it is bound to fail. */
  ghost function StepsToReturn(m: Machine): nat {
    match m.reader
    case Start => 3
    case HasSeq(s1) => if s1 == m.shared.seqNo then 2 else 5
    case HasEdge(s1, _) => if s1 == m.shared.seqNo then 1 else 4
  }

  lemma QuietStep(m: Machine)
    requires Inv(m) && m.shared.writer.Idle?
    ensures var q := Apply(m, ReaderStep(m));
            && q.shared == m.shared
            && (if StepsToReturn(m) == 1
                then q.returned == m.returned + [(|m.shared.history|, PulseTime(m.shared.history, |m.shared.history|))]
                else q.returned == m.returned && StepsToReturn(q) == StepsToReturn(m) - 1)
  {
    hide StreamInv, ReturnsInv, Increasing;
  }

  lemma {:induction false} QuietFrom(m: Machine)
    requires Inv(m) && m.shared.writer.Idle?
    ensures ReadAlone(m, StepsToReturn(m)).returned
         == m.returned + [(|m.shared.history|, PulseTime(m.shared.history, |m.shared.history|))]
    decreases StepsToReturn(m)
  {
    var q := Apply(m, ReaderStep(m));
    ApplyKeepsInv(m, ReaderStep(m));
    QuietStep(m);
    hide Inv, Apply, PulseTime;
    if StepsToReturn(m) > 1 {
      QuietFrom(q);
    } else {
      assert ReadAlone(q, 0) == q;
    }
  }

  /** Once the handler is quiet, the loop returns the latest pulse within five of its own steps. */
  lemma QuietReaderReturns(actions: seq<Action>, m: Machine)
    requires Reaches(actions, m) && m.shared.writer.Idle?
    ensures StepsToReturn(m) <= 5
    ensures ReadAlone(m, StepsToReturn(m)).returned
         == m.returned + [(|m.shared.history|, PulseTime(m.shared.history, |m.shared.history|))]
  {
    ReachableInv(actions, m);
    QuietFrom(m);
  }

  // --- Event stream ---

  /** The sum of all reported intervals. */
  ghost function Total(es: seq<PpsEvent>): int {
    if es == [] then 0
    else Total(es[..|es| - 1]) + (if es[|es| - 1].Delta? then es[|es| - 1].intervalUs else 0)
  }

  ghost predicate GapsFit(es: seq<PpsEvent>) {
    forall i :: 0 < i < |es| ==> es[i].edgeUs - es[i - 1].edgeUs < MODULUS
  }

  /**
   Over any run, `poll` emits at most one First, in front; it reports real edges
   in strictly increasing order; each interval is the gap to the edge reported
   before it, cut to 32 bits, and so the gap itself exactly when it fits.
   */
  lemma StreamIsFaithful(actions: seq<Action>, m: Machine)
    requires Reaches(actions, m)
    ensures forall i :: 0 <= i < |m.events| ==> (m.events[i].First? <==> i == 0)
    ensures forall i :: 0 <= i < |m.events| ==> m.events[i].edgeUs in m.shared.history
    ensures forall i, j :: 0 <= i < j < |m.events| ==> m.events[i].edgeUs < m.events[j].edgeUs
    ensures forall i :: 0 < i < |m.events| ==>
              m.events[i].intervalUs == (m.events[i].edgeUs - m.events[i - 1].edgeUs) % 0x1_0000_0000
    ensures forall i :: 0 < i < |m.events| ==>
              (m.events[i].intervalUs == m.events[i].edgeUs - m.events[i - 1].edgeUs
               <==> m.events[i].edgeUs - m.events[i - 1].edgeUs < MODULUS)
  {
    hide Reaches, DeltaUs, Stream, Increasing;
    StreamReached(actions, m);
    StreamReads(m.shared.history, m.events, m.counts);
  }

  lemma StreamReached(actions: seq<Action>, m: Machine)
    requires Reaches(actions, m)
    ensures Increasing(m.shared.history) && Stream(m.shared.history, m.events, m.counts)
  {
    ReachableInv(actions, m);
    hide Reaches, Stream, Increasing;
  }

  lemma StreamReads(h: seq<u64>, es: seq<PpsEvent>, cs: seq<nat>)
    requires Increasing(h) && Stream(h, es, cs)
    ensures forall i :: 0 <= i < |es| ==> (es[i].First? <==> i == 0)
    ensures forall i :: 0 <= i < |es| ==> es[i].edgeUs in h
    ensures forall i, j :: 0 <= i < j < |es| ==> es[i].edgeUs < es[j].edgeUs
    ensures forall i :: 0 < i < |es| ==> es[i].intervalUs == (es[i].edgeUs - es[i - 1].edgeUs) % 0x1_0000_0000
    ensures forall i :: 0 < i < |es| ==>
              (es[i].intervalUs == es[i].edgeUs - es[i - 1].edgeUs <==> es[i].edgeUs - es[i - 1].edgeUs < MODULUS)
  {
    hide DeltaUs;
    forall i | 0 < i < |es|
      ensures es[i].intervalUs == (es[i].edgeUs - es[i - 1].edgeUs) % 0x1_0000_0000
      ensures es[i].intervalUs == es[i].edgeUs - es[i - 1].edgeUs <==> es[i].edgeUs - es[i - 1].edgeUs < MODULUS
    {
      assert cs[i - 1] < cs[i];
      DeltaIsGap(es[i].edgeUs, es[i - 1].edgeUs);
    }
  }

  lemma DeltaIsGap(current: u64, previous: u64)
    requires previous <= current
    ensures DeltaUs(current, previous) == (current - previous) % 0x1_0000_0000
    ensures DeltaUs(current, previous) == current - previous <==> current - previous < MODULUS
  {
  }

  ghost predicate ExactDeltas(es: seq<PpsEvent>) {
    && (forall i :: 0 <= i < |es| ==> (es[i].First? <==> i == 0))
    && (forall i :: 0 < i < |es| ==> es[i].intervalUs == es[i].edgeUs - es[i - 1].edgeUs)
  }

  lemma {:induction false} ExactDeltasTelescope(es: seq<PpsEvent>)
    requires es != [] && ExactDeltas(es)
    ensures Total(es) == es[|es| - 1].edgeUs - es[0].edgeUs
  {
    var init := es[..|es| - 1];
    if init == [] {
      assert Total(init) == 0;
    } else {
      ExactDeltasTelescope(init);
    }
  }

  /** While reported edges are less than 2^32 us apart, the intervals add up to last edge minus first. */
  lemma IntervalsTelescope(actions: seq<Action>, m: Machine)
    requires Reaches(actions, m) && m.events != [] && GapsFit(m.events)
    ensures Total(m.events) == m.events[|m.events| - 1].edgeUs - m.events[0].edgeUs
  {
    StreamIsFaithful(actions, m);
    ExactDeltasTelescope(m.events);
  }

  // --- Nothing is lost by a prompt poll ---

  lemma Extend(actions: seq<Action>, p: Machine, a: Action)
    requires Reaches(actions, p) && Enabled(p, a) && GoodEdge(p.shared, a)
    ensures Reaches(actions + [a], Apply(p, a))
  {
    assert (actions + [a])[..|actions|] == actions;
  }

  function EventAfter(es: seq<PpsEvent>, nowUs: u64): PpsEvent {
    if es == [] then First(nowUs) else Delta(DeltaUs(nowUs, es[|es| - 1].edgeUs), nowUs)
  }

  /** Both sides at rest. */
  ghost predicate AtRest(m: Machine) {
    m.shared.writer.Idle? && m.reader.Start?
  }

  lemma PulseIsPublished(actions: seq<Action>, m: Machine, nowUs: u64) returns (later: seq<Action>, p: Machine)
    requires Reaches(actions, m) && AtRest(m) && GoodEdge(m.shared, Mark(nowUs))
    ensures Reaches(later, p) && AtRest(p)
    ensures p.shared.history == m.shared.history + [nowUs] && p.shared.edgeUs == nowUs
    ensures p.events == m.events && p.counts == m.counts && p.cursor == m.cursor
  {
    later, p := actions, m;
    Extend(later, p, Mark(nowUs));
    later, p := later + [Mark(nowUs)], Apply(p, Mark(nowUs));
    Extend(later, p, Store);
    later, p := later + [Store], Apply(p, Store);
    Extend(later, p, Publish);
    later, p := later + [Publish], Apply(p, Publish);
  }

  lemma ReadToConfirm(actions: seq<Action>, m: Machine) returns (p1: Machine, p2: Machine)
    requires Reaches(actions, m) && AtRest(m) && m.shared.seqNo % 2 == 0
    ensures Reaches(actions + [LoadSeq] + [LoadEdge], p2)
    ensures p2 == m.(reader := HasEdge(m.shared.seqNo, m.shared.edgeUs))
  {
    hide Reaches;
    Extend(actions, m, LoadSeq);
    p1 := m.(reader := HasSeq(m.shared.seqNo));
    assert Apply(m, LoadSeq) == p1;
    Extend(actions + [LoadSeq], p1, LoadEdge);
    p2 := m.(reader := HasEdge(m.shared.seqNo, m.shared.edgeUs));
    assert Apply(p1, LoadEdge) == p2;
  }

  lemma RestIsEven(actions: seq<Action>, m: Machine)
    requires Reaches(actions, m) && AtRest(m)
    ensures m.shared.seqNo == 2 * |m.shared.history|
  {
    ReachableInv(actions, m);
  }

  lemma ConfirmReads(m: Machine, q: Machine)
    requires m.shared.seqNo == 2 * |m.shared.history| && |m.shared.history| < MAX_PULSES
    requires q == m.(reader := HasEdge(m.shared.seqNo, m.shared.edgeUs))
    ensures var p := Apply(q, Confirm);
            var ev := PollWith(m.cursor, |m.shared.history|, m.shared.edgeUs).1;
            && p.shared == m.shared && p.reader.Start?
            && p.events == if ev.Some? then m.events + [ev.value] else m.events
  {
    hide PollWith;
  }

  /** A poll with both sides at rest reads the latest pulse. */
  lemma PublishedIsRead(actions: seq<Action>, m: Machine) returns (later: seq<Action>, p: Machine)
    requires Reaches(actions, m) && AtRest(m) && |m.shared.history| < MAX_PULSES
    ensures Reaches(later, p) && AtRest(p) && p.shared == m.shared
    ensures var ev := PollWith(m.cursor, |m.shared.history|, m.shared.edgeUs).1;
            p.events == if ev.Some? then m.events + [ev.value] else m.events
  {
    RestIsEven(actions, m);
    hide Reaches, PollWith;
    var _, p2 := ReadToConfirm(actions, m);
    ConfirmReads(m, p2);
    hide Apply;
    Extend(actions + [LoadSeq] + [LoadEdge], p2, Confirm);
    later, p := actions + [LoadSeq] + [LoadEdge] + [Confirm], Apply(p2, Confirm);
  }

  /** The cursor is behind a pulse that has just been published. */
  lemma NewPulseIsNews(m: Machine, nowUs: u64)
    requires Inv(m) && |m.shared.history| + 1 < MAX_PULSES
    ensures PollWith(m.cursor, |m.shared.history| + 1, nowUs).1 == Some(EventAfter(m.events, nowUs))
  {
    assert m.events != [] ==> m.events[|m.events| - 1].edgeUs == m.shared.history[m.counts[|m.counts| - 1] - 1];
    hide DeltaUs;
  }

  /** A pulse polled before the next edge is reported, as the next event. */
  lemma PromptPollReports(actions: seq<Action>, m: Machine, nowUs: u64) returns (later: seq<Action>, p: Machine)
    requires Reaches(actions, m) && AtRest(m) && GoodEdge(m.shared, Mark(nowUs))
    ensures Reaches(later, p) && AtRest(p)
    ensures p.shared.history == m.shared.history + [nowUs]
    ensures p.events == m.events + [EventAfter(m.events, nowUs)]
  {
    ReachableInv(actions, m);
    NewPulseIsNews(m, nowUs);
    hide Inv, PollWith, Reaches;
    var published, q := PulseIsPublished(actions, m, nowUs);
    later, p := PublishedIsRead(published, q);
  }

  /** The events of polls that keep up with every edge. */
  function Reported(edges: seq<u64>): (es: seq<PpsEvent>)
    ensures |es| == |edges|
  {
    if edges == [] then []
    else
      var before := Reported(edges[..|edges| - 1]);
      before + [EventAfter(before, edges[|edges| - 1])]
  }

  lemma BootIsReached()
    ensures Reaches([], BOOT) && AtRest(BOOT) && BOOT.shared.history == [] && BOOT.events == []
  {
  }

  lemma NextEdgeIsGood(edges: seq<u64>, s: Shared)
    requires Increasing(edges) && 0 < |edges| < MAX_PULSES && s.history == edges[..|edges| - 1]
    ensures Increasing(s.history) && GoodEdge(s, Mark(edges[|edges| - 1]))
  {
  }

  /** For any increasing edges there is a run that reports them all. */
  lemma {:induction false} AllReported(edges: seq<u64>) returns (actions: seq<Action>, m: Machine)
    requires Increasing(edges) && |edges| < MAX_PULSES
    ensures Reaches(actions, m) && AtRest(m)
    ensures m.shared.history == edges && m.events == Reported(edges)
    decreases |edges|
  {
    hide Reaches, AtRest, Increasing, GoodEdge, EventAfter;
    if edges == [] {
      BootIsReached();
      return [], BOOT;
    }
    NextEdgeIsGood(edges, BOOT.shared.(history := edges[..|edges| - 1]));
    actions, m := AllReported(edges[..|edges| - 1]);
    NextEdgeIsGood(edges, m.shared);
    actions, m := PromptPollReports(actions, m, edges[|edges| - 1]);
  }
}
