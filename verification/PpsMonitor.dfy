/**
 The monitor object itself: the handler's three stores, the reader's retry loop
 and the poll cursor, run against an environment that may interrupt between any
 two loads.
 */
module PpsMonitoring {
  import opened Wrappers
  import opened Numbers
  import opened Pps

  /** The poll cursor owned by the main loop. */
  class PpsPollState {
    var lastCount: u32
    var lastEdgeUs: u64

    constructor ()
      ensures View() == Cursor(0, 0)
    {
      lastCount, lastEdgeUs := 0, 0;
    }

    function View(): Cursor
      reads this
    {
      Cursor(lastCount, lastEdgeUs)
    }
  }

  class PpsMonitor {
    var edgeUs: u64
    var seqNo: u32

    // The environment: how far the handler is, which pulses it has published,
    // and the timestamps of the edges still to come.
    var writer: Writer
    var history: seq<u64>
    var upcoming: seq<u64>

    ghost function View(): Shared
      reads this
    {
      Shared(seqNo, edgeUs, writer, history)
    }

    function InFlight(): seq<u64>
      reads this
    {
      if writer.Idle? then [] else [writer.nowUs]
    }

    ghost predicate Valid()
      reads this
    {
      && SharedInv(View())
      && Increasing(history + InFlight() + upcoming)
      && |history| + |InFlight()| + |upcoming| < MAX_PULSES
    }

    /** Stores the handler has still to make. */
    function StoresLeft(): nat
      reads this
    {
      3 * |upcoming| + (match writer { case Idle => 0 case Marked(_) => 2 case Stored(_) => 1 })
    }

    constructor (edges: seq<u64>)
      requires Increasing(edges) && |edges| < MAX_PULSES
      ensures Valid() && history == [] && upcoming == edges && writer.Idle?
    {
      edgeUs, seqNo, writer, history, upcoming := 0, 0, Idle, [], edges;
      new;
      assert history + InFlight() + upcoming == edges;
    }

    /** One store of the handler, as it would happen next. */
    method HandlerStore()
      requires Valid() && StoresLeft() > 0
      modifies this
      ensures Valid() && StoresLeft() == old(StoresLeft()) - 1
      ensures old(writer.Idle?) ==> View() == WriterStep(old(View()), Mark(old(upcoming)[0]))
      ensures old(writer.Marked?) ==> View() == WriterStep(old(View()), Store)
      ensures old(writer.Stored?) ==> View() == WriterStep(old(View()), Publish)
      ensures upcoming == if old(writer.Idle?) then old(upcoming)[1..] else old(upcoming)
    {
      hide SharedInv;
      ghost var all := history + InFlight() + upcoming;
      match writer
      case Idle =>
        assert all == history + upcoming && all[|history|] == upcoming[0];
        assert history != [] ==> all[|history| - 1] == history[|history| - 1];
        WriterKeepsShared(View(), Mark(upcoming[0]));
        seqNo, writer, upcoming := Bump(seqNo), Marked(upcoming[0]), upcoming[1..];
        assert history + InFlight() + upcoming == all;
      case Marked(now) =>
        WriterKeepsShared(View(), Store);
        edgeUs, writer := now, Stored(now);
      case Stored(now) =>
        WriterKeepsShared(View(), Publish);
        seqNo, writer, history := Bump(seqNo), Idle, history + [now];
        assert history + InFlight() + upcoming == all;
    }

    /** The handler, run to completion on a rising edge: the timestamp and both counter bumps. */
    method RecordEdge(nowUs: u64)
      requires Valid() && writer.Idle? && upcoming != [] && upcoming[0] == nowUs
      modifies this
      ensures Valid()
      ensures seqNo == old(seqNo) + 2 && edgeUs == nowUs && history == old(history) + [nowUs]
      ensures writer.Idle? && upcoming == old(upcoming)[1..]
    {
      HandlerStore();
      HandlerStore();
      HandlerStore();
    }

    /** What may have happened since `was`: the counter only grows, and an unchanged even counter means nothing did. */
    ghost predicate After(was: Shared)
      reads this
    {
      && was.seqNo <= seqNo && was.history <= history
      && (seqNo == was.seqNo && seqNo % 2 == 0 ==> View() == was)
    }

    /** Any number of handler stores, possibly none. */
    method Interrupt()
      requires Valid()
      modifies this
      ensures Valid() && After(old(View()))
      ensures StoresLeft() <= old(StoresLeft())
      ensures seqNo != old(seqNo) ==> StoresLeft() < old(StoresLeft())
    {
      while StoresLeft() > 0
        invariant Valid() && After(old(View()))
        invariant StoresLeft() <= old(StoresLeft())
        invariant seqNo != old(seqNo) ==> StoresLeft() < old(StoresLeft())
        decreases StoresLeft()
      {
        if * {
          return;
        }
        HandlerStore();
      }
    }

    /** Spinning while the handler is between its stores: it gets to run. */
    method Spin()
      requires Valid() && seqNo % 2 == 1
      modifies this
      ensures Valid() && After(old(View())) && StoresLeft() < old(StoresLeft())
    {
      HandlerStore();
      Interrupt();
    }

    /**
     The reader: with finitely many edges to come the retry loop ends, and the
     pair it returns is a published pulse, no older than the call, with exactly
     that pulse's timestamp.
     */
    method Snapshot() returns (count: u32, edge: u64)
      requires Valid()
      modifies this
      ensures Valid() && After(old(View()))
      ensures |old(history)| <= count <= |history| && edge == PulseTime(history, count)
    {
      while true
        invariant Valid() && After(old(View()))
        decreases StoresLeft()
      {
        var s1 := seqNo;
        if s1 % 2 == 1 {
          Spin();
          continue;
        }
        Interrupt();
        edge := edgeUs;
        Interrupt();
        var s2 := seqNo;
        if s1 == s2 {
          count := s1 / 2;
          return;
        }
      }
    }

    /** One poll of the main loop: what `PollWith` makes of a true snapshot. */
    method Poll(state: PpsPollState) returns (event: Option<PpsEvent>, ghost count: u32)
      requires Valid()
      modifies this, state
      ensures Valid() && old(history) <= history && |old(history)| <= count <= |history|
      ensures (state.View(), event) == PollWith(old(state.View()), count, PulseTime(history, count))
    {
      var currentCount, nowUs := Snapshot();
      count := currentCount;
      if currentCount <= state.lastCount {
        return None, count;
      }
      if state.lastEdgeUs > 0 {
        event := Some(Delta(DeltaUs(nowUs, state.lastEdgeUs), nowUs));
      } else {
        event := Some(First(nowUs));
      }
      state.lastCount := currentCount;
      state.lastEdgeUs := nowUs;
    }
  }
}
