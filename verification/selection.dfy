/** What it means to take some elements out of a list and leave the others as they were. */
module Selection {
  /** The elements of `kept` are those of `xs` at rising positions. */
  ghost predicate InOrder<T>(xs: seq<T>, kept: seq<T>, at: seq<nat>) {
    && |at| == |kept| && (forall i, j :: 0 <= i < j < |at| ==> at[i] < at[j])
    && (forall i :: 0 <= i < |at| ==> at[i] < |xs| && kept[i] == xs[at[i]])
  }

  /** `kept` holds the elements of `xs` that pass the test, each as often as before and in the old
      order, and nothing else. */
  ghost predicate Selects<T>(xs: seq<T>, kept: seq<T>, test: T -> bool) {
    && (forall x :: x in xs ==> multiset(kept)[x] == if test(x) then multiset(xs)[x] else 0)
    && (forall x :: x in kept ==> x in xs)
    && exists at :: InOrder(xs, kept, at)
  }

  lemma SelectsNothing<T>(test: T -> bool)
    ensures Selects([], [], test)
  {
    assert InOrder<T>([], [], []);
  }

  lemma SelectsOne<T>(x: T, test: T -> bool)
    ensures Selects([x], if test(x) then [x] else [], test)
  {
    assert InOrder([x], if test(x) then [x] else [], if test(x) then [0] else []);
  }

  lemma InOrderAppend<T>(xs: seq<T>, kept: seq<T>, at: seq<nat>, ys: seq<T>, kept': seq<T>, at': seq<nat>)
    requires InOrder(xs, kept, at) && InOrder(ys, kept', at')
    ensures InOrder(xs + ys, kept + kept', at + seq(|at'|, i requires 0 <= i < |at'| => |xs| + at'[i]))
  {
  }

  lemma CountNone<T>(s: seq<T>, x: T)
    ensures x !in s <==> multiset(s)[x] == 0
  {
    assert x in s <==> x in multiset(s);
  }

  lemma CountSnoc<T>(s: seq<T>, x: T, y: T)
    ensures multiset(s + [x])[y] == multiset(s)[y] + if x == y then 1 else 0
  {
  }

  lemma SelectsAppend<T>(xs: seq<T>, kept: seq<T>, ys: seq<T>, kept': seq<T>, test: T -> bool)
    requires Selects(xs, kept, test) && Selects(ys, kept', test)
    ensures Selects(xs + ys, kept + kept', test)
  {
    hide InOrder;
    var at :| InOrder(xs, kept, at);
    var at' :| InOrder(ys, kept', at');
    InOrderAppend(xs, kept, at, ys, kept', at');
    forall x | x in xs + ys
      ensures multiset(kept + kept')[x] == if test(x) then multiset(xs + ys)[x] else 0
    {
      CountNone(xs, x);
      CountNone(ys, x);
      CountNone(kept, x);
      CountNone(kept', x);
    }
  }
}
