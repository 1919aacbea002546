/** The monitor's critical sections are the calls on the ring of slots. */
module FifoRefinement {
  import opened Fifo
  import Monitor = FifoMonitor

  /** The queue object is in the monitor's state. */
  ghost predicate Shows(f: FIFO<int>, c: Monitor.Config, s: Monitor.State)
    reads f, f.queue
  {
    f.Valid() && f.length == c.capacity && f.Contents() == s.items && f.closed == s.closed
  }

  /** A producer's step is a call of `Push`: the same item is accepted or refused, and a consumer is
      woken exactly when the call signals and one sleeps. */
  method PushStep(f: FIFO<int>, c: Monitor.Config, ghost s: Monitor.State, item: int, drop: bool, ghost wake: int)
    returns (err: PushError, ghost s': Monitor.State)
    requires Shows(f, c, s) && |s.items| <= c.capacity && Monitor.Enabled(c, s, Monitor.Push(item, drop, wake))
    modifies f, f.queue
    ensures s' == Monitor.Next(c, s, Monitor.Push(item, drop, wake)) && Shows(f, c, s')
    ensures s'.accepted == s.accepted + (if err.Pushed? then [item] else []) && s'.delivered == s.delivered
    ensures err.Closed? <==> s.closed
    ensures s'.modes == if err.Pushed? && s.items == [] && Monitor.Sleepers(s) != {}
                        then s.modes[wake := Monitor.Woken] else s.modes
  {
    var signal;
    err, signal := f.Push(item, drop);
    s' := Monitor.Next(c, s, Monitor.Push(item, drop, wake));
  }

  /** A pass of a blocking consumer is a call of `Pop` or `PopAll`: it takes what the call returns, goes
      to sleep when the call has to wait, and runs on otherwise. */
  method ConsumeStep(f: FIFO<int>, c: Monitor.Config, ghost s: Monitor.State, id: int)
    returns (taken: seq<int>, waits: bool, ghost s': Monitor.State)
    requires Shows(f, c, s) && Monitor.Enabled(c, s, Monitor.Consume(id))
    modifies f, f.queue
    ensures s' == Monitor.Next(c, s, Monitor.Consume(id)) && Shows(f, c, s')
    ensures s'.delivered == s.delivered + taken && s'.accepted == s.accepted
    ensures waits <==> s.items == [] && !s.closed
    ensures s'.modes == s.modes[id := if waits then Monitor.Asleep else Monitor.Running]
  {
    if c.consumers[id].One? {
      var r := f.Pop();
      taken := if r.Item? then [r.value] else [];
      waits := r.MustWait?;
    } else {
      var r := f.PopAll();
      taken := if r.Item? then r.value else [];
      waits := r.MustWait?;
      assert s.items[..|s.items|] == s.items;
    }
    s' := Monitor.Next(c, s, Monitor.Consume(id));
    assert s.delivered + [] == s.delivered;
  }

  /** A drain is a call of `TryPop` or `TryPopAll`. */
  method DrainStep(f: FIFO<int>, c: Monitor.Config, ghost s: Monitor.State, all: bool)
    returns (ghost taken: seq<int>, ghost s': Monitor.State)
    requires Shows(f, c, s)
    modifies f, f.queue
    ensures s' == Monitor.Next(c, s, Monitor.Drain(all)) && Shows(f, c, s')
    ensures s'.delivered == s.delivered + taken && s'.accepted == s.accepted && s'.modes == s.modes
  {
    if all {
      var vals, empty, wasClosed := f.TryPopAll();
      taken := vals;
      assert s.items[..|s.items|] == s.items;
    } else {
      ghost var items := f.Contents();
      var val, empty, wasClosed := f.TryPop();
      taken := if items == [] then [] else [val];
      assert items != [] ==> items[1..] == f.Contents() && items[..1] == [val];
    }
    s' := Monitor.Next(c, s, Monitor.Drain(all));
    assert s.delivered + [] == s.delivered;
  }

  /** A close is a call of `Close`, with its broadcast still to come. */
  method CloseStep(f: FIFO<int>, c: Monitor.Config, ghost s: Monitor.State) returns (ghost s': Monitor.State)
    requires Shows(f, c, s)
    modifies f
    ensures s' == Monitor.Next(c, s, Monitor.Close) && Shows(f, c, s') && s'.closed
    ensures s'.broadcasts == s.broadcasts + 1 && s'.modes == s.modes
    ensures s'.accepted == s.accepted && s'.delivered == s.delivered
  {
    f.Close();
    s' := Monitor.Next(c, s, Monitor.Close);
  }
}
