/** The race of the ICE paths: one goroutine per candidate path, decided by a compare-and-swap on
    the selected path. Cancellation and timeouts show as failures, which may come at any time. */
module IceRace {
  import opened Wrappers

  datatype Side = Dial | Listen

  datatype Phase = Start | Connected | Bound | Nominated | Finished

  /** One step of the goroutine of path `i`. */
  datatype Event =
    | Connect(i: nat, ok: bool)
    | Bind(i: nat, ok: bool)
    | AwaitNomination(i: nat, ok: bool)
    | Swap(i: nat)

  datatype State = State(at: seq<Phase>, open: set<nat>, selected: Option<nat>, winners: set<nat>)

  function Initial(n: nat): State {
    State(seq(n, _ => Start), {}, None, {})
  }

  /** The phase in which the event may happen: the listening side waits to be nominated first. */
  function Before(side: Side, e: Event): Phase {
    match e
    case Connect(_, _) => Start
    case Bind(_, _) => Connected
    case AwaitNomination(_, _) => Bound
    case Swap(_) => if side.Dial? then Bound else Nominated
  }

  predicate Enabled(side: Side, s: State, e: Event) {
    e.i < |s.at| && s.at[e.i] == Before(side, e) && (e.AwaitNomination? ==> side.Listen?)
  }

  function Enter(s: State, i: nat, phase: Phase): State
    requires i < |s.at|
  {
    s.(at := s.at[i := phase])
  }

  function Close(s: State, i: nat): State {
    s.(open := s.open - {i})
  }

  /** A failed bind closes the connection on the dialling side only. */
  function Next(side: Side, s: State, e: Event): State
    requires Enabled(side, s, e)
  {
    match e
    case Connect(i, ok) =>
      if ok then Enter(s, i, Connected).(open := s.open + {i}) else Enter(s, i, Finished)
    case Bind(i, ok) =>
      if ok then Enter(s, i, Bound)
      else if side.Dial? then Close(Enter(s, i, Finished), i)
      else Enter(s, i, Finished)
    case AwaitNomination(i, ok) =>
      if ok then Enter(s, i, Nominated) else Close(Enter(s, i, Finished), i)
    case Swap(i) =>
      if s.selected.None? then Enter(s, i, Finished).(selected := Some(i), winners := s.winners + {i})
      else Close(Enter(s, i, Finished), i)
  }

  /** The state after a run, if it is one. */
  function After(side: Side, n: nat, run: seq<Event>): Option<State> {
    if run == [] then Some(Initial(n)) else
    var e := run[|run| - 1];
    match After(side, n, run[..|run| - 1])
    case None => None
    case Some(s) => if Enabled(side, s, e) then Some(Next(side, s, e)) else None
  }

  /** All goroutines have returned. */
  ghost predicate Joined(s: State) {
    forall i :: 0 <= i < |s.at| ==> s.at[i] == Finished
  }

  // ----- What every run keeps

  /** The path was still in the race when it came to the swap. */
  ghost predicate Contended(side: Side, run: seq<Event>, i: nat) {
    if side.Dial? then Bind(i, true) in run else AwaitNomination(i, true) in run
  }

  ghost predicate PathInv(side: Side, run: seq<Event>, s: State, i: nat)
    requires i < |s.at|
  {
    match s.at[i]
    case Start => i !in s.open && Bind(i, true) !in run && Bind(i, false) !in run && !Contended(side, run, i)
    case Connected => i in s.open && Bind(i, true) !in run && Bind(i, false) !in run && !Contended(side, run, i)
    case Bound => i in s.open && Bind(i, false) !in run && (side.Dial? <==> Contended(side, run, i))
    case Nominated => i in s.open && Bind(i, false) !in run && side.Listen? && Contended(side, run, i)
    case Finished =>
      && (Contended(side, run, i) ==> s.selected.Some? && Bind(i, false) !in run)
      && (i in s.open <==> s.selected == Some(i) || (side.Listen? && Bind(i, false) in run))
  }

  ghost predicate Inv(side: Side, n: nat, run: seq<Event>, s: State) {
    && |s.at| == n && (forall i :: i in s.open ==> i < n)
    && s.winners == (if s.selected.Some? then {s.selected.value} else {})
    && (s.selected.Some? ==> s.selected.value < n && s.at[s.selected.value] == Finished
                             && Contended(side, run, s.selected.value))
    && forall i :: 0 <= i < n ==> PathInv(side, run, s, i)
  }

  /** Steps of one path leave the record of another alone. */
  lemma Others(side: Side, run: seq<Event>, s: State, e: Event, j: nat)
    requires Enabled(side, s, e) && j < |s.at| && j != e.i && PathInv(side, run, s, j)
    requires s.selected.Some? ==> s.selected.value < |s.at| && s.at[s.selected.value] == Finished
    ensures PathInv(side, run + [e], Next(side, s, e), j)
  {
  }

  lemma Own(side: Side, run: seq<Event>, s: State, e: Event)
    requires Enabled(side, s, e) && PathInv(side, run, s, e.i)
    requires s.selected.Some? ==> s.selected.value < |s.at| && s.at[s.selected.value] == Finished
    ensures PathInv(side, run + [e], Next(side, s, e), e.i)
  {
  }

  lemma StillContended(side: Side, run: seq<Event>, e: Event, i: nat)
    ensures Contended(side, run, i) ==> Contended(side, run + [e], i)
  {
  }

  lemma NextKeeps(side: Side, n: nat, run: seq<Event>, s: State, e: Event)
    requires Inv(side, n, run, s) && Enabled(side, s, e)
    ensures Inv(side, n, run + [e], Next(side, s, e))
  {
    var s' := Next(side, s, e);
    forall j | 0 <= j < n
      ensures PathInv(side, run + [e], s', j)
    {
      if j == e.i {
        Own(side, run, s, e);
      } else {
        Others(side, run, s, e, j);
      }
    }
    assert PathInv(side, run, s, e.i);
    if s'.selected.Some? {
      StillContended(side, run, e, s'.selected.value);
    }
  }

  lemma {:induction false} RunKeeps(side: Side, n: nat, run: seq<Event>)
    requires After(side, n, run).Some?
    ensures Inv(side, n, run, After(side, n, run).value)
  {
    if run != [] {
      var k := |run| - 1;
      RunKeeps(side, n, run[..k]);
      assert run == run[..k] + [run[k]];
      NextKeeps(side, n, run[..k], After(side, n, run[..k]).value, run[k]);
    }
  }

  // ----- Results

  /** In every run on either side at most one goroutine reports a win, and it is the one whose path
      is selected, which had got through all its checks. */
  lemma AtMostOneWinner(side: Side, n: nat, run: seq<Event>)
    requires After(side, n, run).Some?
    ensures var s := After(side, n, run).value;
            && (forall i, j :: i in s.winners && j in s.winners ==> i == j)
            && (forall i :: i in s.winners <==> s.selected == Some(i))
            && (forall i :: i in s.winners ==> Contended(side, run, i))
  {
    RunKeeps(side, n, run);
  }

  /** After the join a path is selected exactly when some path got through its checks. */
  lemma SelectedIff(side: Side, n: nat, run: seq<Event>)
    requires After(side, n, run).Some? && Joined(After(side, n, run).value)
    ensures After(side, n, run).value.selected.Some? <==> exists i: nat :: i < n && Contended(side, run, i)
  {
    RunKeeps(side, n, run);
    var s := After(side, n, run).value;
    if i: nat :| i < n && Contended(side, run, i) {
      assert PathInv(side, run, s, i);
    }
  }

  /** On the dialling side every connection but the selected one is closed after the join. */
  lemma DialClosesLosers(n: nat, run: seq<Event>, i: nat)
    requires After(Dial, n, run).Some? && Joined(After(Dial, n, run).value) && i < n
    ensures var s := After(Dial, n, run).value; i in s.open <==> s.selected == Some(i)
  {
    RunKeeps(Dial, n, run);
    assert PathInv(Dial, run, After(Dial, n, run).value, i);
  }

  /** On the listening side a connection other than the selected one stays open exactly when its
      bind failed. */
  lemma ListenLeaksIff(n: nat, run: seq<Event>, i: nat)
    requires After(Listen, n, run).Some? && Joined(After(Listen, n, run).value) && i < n
    ensures var s := After(Listen, n, run).value;
            i in s.open && s.selected != Some(i) <==> Bind(i, false) in run
  {
    RunKeeps(Listen, n, run);
    assert PathInv(Listen, run, After(Listen, n, run).value, i);
  }

  /** Such a run. */
  lemma ListenLeaks()
    ensures var run := [Connect(0, true), Bind(0, false)];
            && After(Listen, 1, run).Some?
            && Joined(After(Listen, 1, run).value) && After(Listen, 1, run).value.open == {0}
  {
    var run := [Connect(0, true), Bind(0, false)];
    assert run[..1] == [Connect(0, true)] && run[..1][..0] == [];
    assert After(Listen, 1, run[..1]) == Some(Next(Listen, Initial(1), Connect(0, true)));
  }

  // ----- Every race comes to an end

  function StepsLeft(phase: Phase): nat {
    match phase
    case Start => 4
    case Connected => 3
    case Bound => 2
    case Nominated => 1
    case Finished => 0
  }

  function AllLeft(at: seq<Phase>): nat {
    if at == [] then 0 else AllLeft(at[..|at| - 1]) + StepsLeft(at[|at| - 1])
  }

  lemma {:induction false} AllLeftUpdate(at: seq<Phase>, i: nat, phase: Phase)
    requires i < |at|
    ensures AllLeft(at[i := phase]) == AllLeft(at) - StepsLeft(at[i]) + StepsLeft(phase)
  {
    var k := |at| - 1;
    if i < k {
      AllLeftUpdate(at[..k], i, phase);
      assert at[i := phase][..k] == at[..k][i := phase];
    } else {
      assert at[i := phase][..k] == at[..k];
    }
  }

  lemma {:induction false} AllLeftInitial(n: nat)
    ensures AllLeft(Initial(n).at) == 4 * n
  {
    if n > 0 {
      AllLeftInitial(n - 1);
      assert Initial(n).at[..n - 1] == Initial(n - 1).at;
    }
  }

  lemma NextNearer(side: Side, s: State, e: Event)
    requires Enabled(side, s, e)
    ensures AllLeft(Next(side, s, e).at) < AllLeft(s.at)
  {
    AllLeftUpdate(s.at, e.i, Next(side, s, e).at[e.i]);
  }

  /** No run takes more than four steps a path. */
  lemma {:induction false} RunsAreShort(side: Side, n: nat, run: seq<Event>)
    requires After(side, n, run).Some?
    ensures |run| + AllLeft(After(side, n, run).value.at) <= 4 * n
  {
    if run == [] {
      AllLeftInitial(n);
    } else {
      var k := |run| - 1;
      RunsAreShort(side, n, run[..k]);
      NextNearer(side, After(side, n, run[..k]).value, run[k]);
    }
  }

  /** As long as a goroutine has not returned, it can take a step. */
  lemma NeverStuck(side: Side, n: nat, run: seq<Event>)
    requires After(side, n, run).Some? && !Joined(After(side, n, run).value)
    ensures exists e :: Enabled(side, After(side, n, run).value, e)
  {
    RunKeeps(side, n, run);
    var s := After(side, n, run).value;
    var i :| 0 <= i < |s.at| && s.at[i] != Finished;
    assert PathInv(side, run, s, i);
    var e := if s.at[i] == Start then Connect(i, true)
             else if s.at[i] == Connected then Bind(i, true)
             else if s.at[i] == Bound && side.Listen? then AwaitNomination(i, true)
             else Swap(i);
    assert Enabled(side, s, e);
  }
}
