/** The queue as a monitor: any number of producers, blocking consumers, non-blocking drains and
    closers, in every interleaving. Each step is one critical section under the lock, except that
    a close sends its broadcast after it has released the lock. */
module FifoMonitor {
  import opened Sets

  /** What a blocking consumer takes when it finds items. */
  datatype Kind = One | All

  /** A consumer runs outside the queue, sleeps on the condition, or has been woken and has yet to
      retake the lock. */
  datatype Mode = Running | Asleep | Woken

  datatype Config = Config(capacity: nat, consumers: map<int, Kind>)

  datatype State = State(
    items: seq<int>,
    closed: bool,
    modes: map<int, Mode>,
    broadcasts: nat,
    accepted: seq<int>,
    delivered: seq<int>
  )

  datatype Step =
    | Push(item: int, drop: bool, wake: int)
    | Consume(id: int)
    | Drain(all: bool)
    | Close
    | Broadcast

  function Sleepers(s: State): set<int> {
    set i | i in s.modes && s.modes[i].Asleep?
  }

  function WokenOnes(s: State): set<int> {
    set i | i in s.modes && s.modes[i].Woken?
  }

  function Init(c: Config): State {
    State([], false, map i | i in c.consumers :: Running, 0, [], [])
  }

  /** A signal wakes some sleeper, if there is one; a sleeping consumer does nothing. */
  predicate Enabled(c: Config, s: State, step: Step) {
    match step
    case Push(_, _, wake) => Sleepers(s) == {} || wake in Sleepers(s)
    case Consume(id) => id in c.consumers && id in s.modes && !s.modes[id].Asleep?
    case Drain(_) => true
    case Close => true
    case Broadcast => s.broadcasts > 0
  }

  function Accept(c: Config, s: State, item: int, drop: bool, wake: int): State {
    if s.closed || |s.items| == c.capacity || drop then s else
    var modes := if s.items == [] && wake in Sleepers(s) then s.modes[wake := Woken] else s.modes;
    s.(items := s.items + [item], accepted := s.accepted + [item], modes := modes)
  }

  function Take(s: State, n: nat): State
    requires n <= |s.items|
  {
    s.(items := s.items[n..], delivered := s.delivered + s.items[..n])
  }

  /** One pass of the pop loop. */
  function Pass(s: State, id: int, kind: Kind): State {
    if s.items == [] then s.(modes := s.modes[id := if s.closed then Running else Asleep])
    else Take(s, if kind.One? then 1 else |s.items|).(modes := s.modes[id := Running])
  }

  /** The step's effect; a step that is not enabled does not happen. */
  function Next(c: Config, s: State, step: Step): State {
    if !Enabled(c, s, step) then s else
    match step
    case Push(item, drop, wake) => Accept(c, s, item, drop, wake)
    case Consume(id) => Pass(s, id, c.consumers[id])
    case Drain(all) => if s.items == [] then s else Take(s, if all then |s.items| else 1)
    case Close => s.(closed := true, broadcasts := s.broadcasts + 1)
    case Broadcast =>
      s.(broadcasts := s.broadcasts - 1,
         modes := map i | i in s.modes :: if s.modes[i].Asleep? then Woken else s.modes[i])
  }

  function After(c: Config, run: seq<Step>): State {
    if run == [] then Init(c) else Next(c, After(c, run[..|run| - 1]), run[|run| - 1])
  }

  // ----- What every run keeps

  /** Items leave in the order they were accepted, none lost, none invented. */
  ghost predicate Conserved(s: State) {
    s.accepted == s.delivered + s.items
  }

  /** After a close, a consumer sleeps only while a broadcast is on its way. */
  ghost predicate CloseHeard(s: State) {
    s.closed && s.broadcasts == 0 ==> Sleepers(s) == {}
  }

  /** Items are waiting, a consumer sleeps, and nobody has been woken to take them. */
  ghost predicate LostWakeup(s: State) {
    s.items != [] && Sleepers(s) != {} && WokenOnes(s) == {}
  }

  /** At most one blocking consumer, or none that takes single items, or room for one item only. */
  ghost predicate WakeupsSuffice(c: Config) {
    c.capacity <= 1 || |c.consumers| <= 1 || forall i :: i in c.consumers ==> c.consumers[i].All?
  }

  ghost predicate Inv(c: Config, s: State) {
    && s.modes.Keys == c.consumers.Keys && |s.items| <= c.capacity
    && Conserved(s) && CloseHeard(s)
    && (WakeupsSuffice(c) ==> !LostWakeup(s))
  }

  lemma PushKeeps(c: Config, s: State, item: int, drop: bool, wake: int)
    requires Inv(c, s) && Enabled(c, s, Push(item, drop, wake))
    ensures Inv(c, Accept(c, s, item, drop, wake))
  {
    var s' := Accept(c, s, item, drop, wake);
    if s' != s && s.items == [] && wake in Sleepers(s) {
      assert wake in WokenOnes(s');
    }
  }

  lemma OnlyOne(c: Config, i: int, j: int)
    requires |c.consumers| <= 1 && i in c.consumers && j in c.consumers
    ensures i == j
  {
    if i != j {
      assert {i, j} <= c.consumers.Keys;
      assert |{i, j}| <= |c.consumers.Keys| by { SubsetSize({i, j}, c.consumers.Keys); }
    }
  }

  lemma PassKeeps(c: Config, s: State, id: int)
    requires Inv(c, s) && Enabled(c, s, Consume(id))
    ensures Inv(c, Pass(s, id, c.consumers[id]))
  {
    var s' := Pass(s, id, c.consumers[id]);
    if WakeupsSuffice(c) && LostWakeup(s') {
      assert s.items != [] && c.consumers[id].One?;
      assert (forall j :: j in s'.modes ==> !s'.modes[j].Asleep?) ==> Sleepers(s') == {};
      var j :| j in s'.modes && s'.modes[j].Asleep?;
      assert j != id && j in c.consumers && j in Sleepers(s);
      if |c.consumers| <= 1 {
        OnlyOne(c, id, j);
      }
    }
  }

  lemma StepKeeps(c: Config, s: State, step: Step)
    requires Inv(c, s)
    ensures Inv(c, Next(c, s, step))
  {
    if Enabled(c, s, step) {
      match step
      case Push(item, drop, wake) => PushKeeps(c, s, item, drop, wake);
      case Consume(id) => PassKeeps(c, s, id);
      case Drain(all) => assert Sleepers(Next(c, s, step)) == Sleepers(s) && WokenOnes(Next(c, s, step)) == WokenOnes(s);
      case Close => assert Sleepers(Next(c, s, step)) == Sleepers(s) && WokenOnes(Next(c, s, step)) == WokenOnes(s);
      case Broadcast => assert Sleepers(Next(c, s, step)) == {};
    }
  }

  lemma {:induction false} RunKeeps(c: Config, run: seq<Step>)
    ensures Inv(c, After(c, run))
  {
    if run != [] {
      RunKeeps(c, run[..|run| - 1]);
      StepKeeps(c, After(c, run[..|run| - 1]), run[|run| - 1]);
    } else {
      assert Sleepers(Init(c)) == {};
    }
  }

  /** Once closed, a queue stays closed and accepts nothing more, whatever still happens to it. */
  lemma {:induction false} ClosedForGood(c: Config, run: seq<Step>, more: seq<Step>)
    requires After(c, run).closed
    ensures After(c, run + more).closed && After(c, run + more).accepted == After(c, run).accepted
  {
    if more == [] {
      assert run + more == run;
    } else {
      var front := more[..|more| - 1];
      ClosedForGood(c, run, front);
      assert (run + more)[..|run + more| - 1] == run + front;
    }
  }

  /** Until then it accepts every item it has room for that is not dropped. */
  lemma AcceptsIff(c: Config, s: State, item: int, drop: bool, wake: int)
    requires Inv(c, s) && Enabled(c, s, Push(item, drop, wake))
    ensures var s' := Next(c, s, Push(item, drop, wake));
            && (s'.accepted == s.accepted + [item] <==> !s.closed && |s.items| < c.capacity && !drop)
            && (s'.accepted == s.accepted || s'.accepted == s.accepted + [item])
  {
    assert |s.accepted + [item]| > |s.accepted|;
  }

  /** A consumer that has been woken, or has not slept, takes an item or all there are; a closed and
      empty queue lets it go. */
  lemma TakesIff(c: Config, s: State, id: int)
    requires Inv(c, s) && Enabled(c, s, Consume(id))
    ensures var s' := Next(c, s, Consume(id));
            && (s'.modes[id].Asleep? <==> s.items == [] && !s.closed)
            && |s'.delivered| - |s.delivered| == if s.items == [] then 0 else if c.consumers[id].One? then 1 else |s.items|
  {
  }

  // ----- Exactly when no wakeup is lost

  /** Two blocking consumers, one of which takes single items, and room for two. */
  ghost function LosingRun(single: int, other: int): seq<Step> {
    [Consume(single), Consume(other), Push(7, false, single), Push(8, false, other), Consume(single)]
  }

  lemma LosingRunLoses(c: Config, single: int, other: int)
    requires c.capacity >= 2 && single != other && single in c.consumers && other in c.consumers
    requires c.consumers[single].One?
    ensures LostWakeup(After(c, LosingRun(single, other)))
  {
    var run := LosingRun(single, other);
    var s0 := Init(c);
    var s1 := s0.(modes := s0.modes[single := Asleep]);
    var s2 := s1.(modes := s1.modes[other := Asleep]);
    var s3 := s2.(items := [7], accepted := [7], modes := s2.modes[single := Woken]);
    var s4 := s3.(items := [7, 8], accepted := [7, 8]);
    var s5 := s4.(items := [8], delivered := [7], modes := s4.modes[single := Running]);
    assert run[..1] == [Consume(single)] && run[..1][..0] == [];
    assert run[..2][..1] == run[..1] && run[..3][..2] == run[..2] && run[..4][..3] == run[..3] && run[..4] == run[..|run| - 1];
    assert After(c, run[..1]) == Next(c, s0, Consume(single)) == s1;
    assert After(c, run[..2]) == Next(c, s1, Consume(other)) == s2;
    assert single in Sleepers(s2) && other in Sleepers(s2);
    assert After(c, run[..3]) == Next(c, s2, Push(7, false, single)) == s3;
    assert other in Sleepers(s3);
    assert After(c, run[..4]) == Next(c, s3, Push(8, false, other)) == s4;
    assert After(c, run) == Next(c, s4, Consume(single)) == s5;
    assert other in Sleepers(s5);
  }

  lemma TwoConsumers(c: Config, i: int) returns (j: int)
    requires |c.consumers| > 1 && i in c.consumers
    ensures j in c.consumers && j != i
  {
    assert (forall j :: j in c.consumers ==> j == i) ==> c.consumers.Keys == {i};
    j :| j in c.consumers && j != i;
  }

  /** No run loses a wakeup exactly when there is at most one blocking consumer, or all of them
      take everything at once, or the queue holds one item at most. */
  lemma WakeupsSufficeIff(c: Config)
    ensures WakeupsSuffice(c) ==> forall run :: !LostWakeup(After(c, run))
    ensures !WakeupsSuffice(c) ==> exists run :: LostWakeup(After(c, run))
  {
    if WakeupsSuffice(c) {
      forall run ensures !LostWakeup(After(c, run)) {
        RunKeeps(c, run);
      }
    } else {
      var i :| i in c.consumers && c.consumers[i].One?;
      var j := TwoConsumers(c, i);
      LosingRunLoses(c, i, j);
    }
  }

  /** With one blocking consumer: it never sleeps unsignalled while items wait, nor after a close
      whose broadcast is out; and what it and the drains took is what was accepted, in order. */
  lemma SingleConsumer(c: Config, id: int, run: seq<Step>)
    requires c.consumers.Keys == {id}
    ensures var s := After(c, run);
            && id in s.modes && s.accepted == s.delivered + s.items
            && (s.modes[id].Asleep? ==> s.items == [] && (s.closed ==> s.broadcasts > 0))
  {
    RunKeeps(c, run);
    var s := After(c, run);
    assert |c.consumers| == |c.consumers.Keys| == 1;
    assert s.modes[id].Asleep? ==> id in Sleepers(s) && WokenOnes(s) == {};
  }
}
