/**
  Logs of host actions, shared by the host object and the stand-alone
  driver: what a log contributes of one kind of action (the kernels it
  launches, say), collected in log order.
*/
module ActionLog {

  /** What the actions of t contribute under `pick`, in order. */
  function Collect<A, K>(t: seq<A>, pick: A -> seq<K>): seq<K>
  {
    if t == [] then [] else pick(t[0]) + Collect(t[1..], pick)
  }

  lemma CollectCons<A, K>(x: A, t: seq<A>, pick: A -> seq<K>)
    ensures Collect([x] + t, pick) == pick(x) + Collect(t, pick)
  {
    assert ([x] + t)[0] == x && ([x] + t)[1..] == t;
  }

  /** Collecting distributes over concatenation of logs. */
  lemma {:induction false} CollectAppend<A, K>(a: seq<A>, b: seq<A>, pick: A -> seq<K>)
    ensures Collect(a + b, pick) == Collect(a, pick) + Collect(b, pick)
  {
    if a == [] {
      assert a + b == b;
    } else {
      var x, rest := a[0], a[1..];
      assert a == [x] + rest;
      assert a + b == [x] + (rest + b);
      CollectAppend(rest, b, pick);
      CollectCons(x, rest + b, pick);
      CollectCons(x, rest, pick);
    }
  }

  /** A log none of whose actions contributes collects nothing. */
  lemma {:induction false} CollectNone<A, K>(t: seq<A>, pick: A -> seq<K>)
    requires forall i :: 0 <= i < |t| ==> pick(t[i]) == []
    ensures Collect(t, pick) == []
  {
    if t != [] {
      CollectNone(t[1..], pick);
    }
  }
}
