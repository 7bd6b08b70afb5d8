/** Sequence identities, each stated once so that larger proofs can cite them. */
module Seqs {

  function Elements<T>(s: seq<T>): set<T> { set x | x in s }

  lemma Associative<T>(a: seq<T>, b: seq<T>, c: seq<T>)
    ensures a + b + c == a + (b + c)
  {
  }

  lemma AppendNil<T>(a: seq<T>)
    ensures a + [] == a && [] + a == a
  {
  }

  lemma HeadTail<T>(s: seq<T>)
    requires s != []
    ensures s == [s[0]] + s[1..]
    ensures multiset(s) == multiset{s[0]} + multiset(s[1..])
  {
    assert s == [s[0]] + s[1..];
  }

  lemma TailOfCons<T>(x: T, s: seq<T>)
    ensures ([x] + s)[0] == x && ([x] + s)[1..] == s
  {
  }

  lemma TailOfAppend<T>(a: seq<T>, b: seq<T>)
    requires a != []
    ensures (a + b)[0] == a[0] && (a + b)[1..] == a[1..] + b
  {
  }

  lemma InitOfAppend<T>(a: seq<T>, b: seq<T>)
    requires b != []
    ensures (a + b)[|a + b| - 1] == b[|b| - 1] && (a + b)[..|a + b| - 1] == a + b[..|b| - 1]
  {
  }

  lemma LastOf<T>(a: seq<T>, b: seq<T>)
    ensures b != [] ==> (a + b)[|a + b| - 1] == b[|b| - 1]
  {
  }

  /** Places in a sequence, in order. */
  ghost predicate Ascending(at: seq<nat>) {
    forall i, j :: 0 <= i < j < |at| ==> at[i] < at[j]
  }

  function Later(at: seq<nat>): seq<nat> { seq(|at|, i requires 0 <= i < |at| => at[i] + 1) }

  /** The places in a sequence with one more element in front. */
  lemma LaterPlaces(at: seq<nat>, first: bool)
    requires Ascending(at)
    ensures var more := (if first then [0] else []) + Later(at);
            && Ascending(more) && |more| == |at| + (if first then 1 else 0)
            && (0 in more <==> first) && (forall k: nat :: k + 1 in more <==> k in at)
            && forall i :: 0 <= i < |at| ==> more[i + (if first then 1 else 0)] == at[i] + 1
  {
    var more := (if first then [0] else []) + Later(at);
    assert forall i :: 0 <= i < |at| ==> Later(at)[i] == at[i] + 1;
    forall k: nat ensures k + 1 in more <==> k in at {
      if k in at {
        var i :| 0 <= i < |at| && at[i] == k;
        assert more[i + (if first then 1 else 0)] == k + 1;
      }
    }
  }

  /** The places of the true elements. */
  ghost predicate PlacesOf(at: seq<nat>, flags: seq<bool>) {
    Ascending(at) && forall k: nat :: k in at <==> k < |flags| && flags[k]
  }

  lemma PlacesShift(at: seq<nat>, first: bool, rest: seq<bool>)
    requires PlacesOf(at, rest)
    ensures PlacesOf((if first then [0] else []) + Later(at), [first] + rest)
  {
    hide Later, Ascending;
    LaterPlaces(at, first);
    var more := (if first then [0] else []) + Later(at);
    forall k: nat ensures k in more <==> k < |[first] + rest| && ([first] + rest)[k] {
      if k > 0 {
        assert k - 1 + 1 in more <==> k - 1 in at;
        assert k - 1 < |rest| ==> ([first] + rest)[k] == rest[k - 1];
      }
    }
  }
}
