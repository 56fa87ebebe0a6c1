/** How one round of the leak benchmark splits its connections over workers. */
module BenchWork {

  function Max(a: nat, b: nat): nat {
    if a < b then b else a
  }

  /** The connections worker w makes. */
  function CountOf(conns: nat, concurrency: nat, w: nat): nat {
    conns / Max(concurrency, 1) + if w < conns % Max(concurrency, 1) then 1 else 0
  }

  predicate NoRepeats<T(==)>(s: seq<T>) {
    forall i, j :: 0 <= i < j < |s| ==> s[i] != s[j]
  }

  /** Worker w's i-th connection is in range exactly when i is below its count. */
  lemma InRangeIffCounted(conns: nat, c: nat, w: nat, i: nat)
    requires w < c
    ensures w + i * c < conns <==> i < CountOf(conns, c, w)
  {
    var q, r := conns / c, conns % c;
    assert conns == q * c + r;
    if i < q {
      assert (i + 1) * c <= q * c by { MulGrows(i + 1, q, c); }
      assert (i + 1) * c == i * c + c;
    } else if i > q {
      assert (q + 1) * c <= i * c by { MulGrows(q + 1, i, c); }
      assert (q + 1) * c == q * c + c;
    }
  }

  lemma MulGrows(a: nat, b: nat, c: nat)
    requires a <= b
    ensures a * c <= b * c
  {}

  /** An index belongs to one worker, at one place in its run. */
  lemma OwnerIsUnique(c: nat, w: nat, i: nat)
    requires w < c
    ensures (w + i * c) % c == w && (w + i * c) / c == i
  {
    var k := w + i * c;
    var q, r := k / c, k % c;
    assert (i - q) * c == r - w;
    if q < i {
      MulGrows(1, i - q, c);
    } else if i < q {
      assert (q - i) * c == w - r;
      MulGrows(1, q - i, c);
    }
  }

  /** Every index is some worker's: its remainder's, at its quotient. */
  lemma OwnerExists(conns: nat, c: nat, k: nat)
    requires 0 < c && k < conns
    ensures k == k % c + k / c * c && k / c < CountOf(conns, c, k % c)
  {
    InRangeIffCounted(conns, c, k % c, k / c);
  }

  /** The good connections below n that worker w makes before its i-th. */
  ghost function Done(conns: nat, c: nat, w: nat, i: nat, good: nat -> bool): set<nat>
    requires w < c
  {
    set k: nat | k < conns && k % c == w && k / c < i && good(k)
  }

  /** The indices worker w visits, in order, appended to the log. */
  predicate Visits(log: seq<nat>, before: seq<nat>, c: nat, w: nat, count: nat) {
    && |log| == |before| + count && log[..|before|] == before
    && forall i :: 0 <= i < count ==> log[|before| + i] == w + i * c
  }

  method RunWorker(conns: nat, c: nat, w: nat, succeeds: nat -> bool, log: seq<nat>)
    returns (ok: nat, visited: seq<nat>)
    requires w < c
    ensures ok == |Done(conns, c, w, CountOf(conns, c, w), succeeds)|
    ensures Visits(visited, log, c, w, CountOf(conns, c, w))
  {
    ok, visited := 0, log;
    for i := 0 to CountOf(conns, c, w)
      invariant ok == |Done(conns, c, w, i, succeeds)|
      invariant Visits(visited, log, c, w, i)
    {
      var idx := w + i * c;
      visited := visited + [idx];
      InRangeIffCounted(conns, c, w, i);
      OwnerIsUnique(c, w, i);
      DoneGrows(conns, c, w, i, succeeds);
      if succeeds(idx) {
        ok := ok + 1;
      }
    }
  }

  lemma DoneGrows(conns: nat, c: nat, w: nat, i: nat, good: nat -> bool)
    requires w < c && w + i * c < conns
    ensures |Done(conns, c, w, i + 1, good)| == |Done(conns, c, w, i, good)| + if good(w + i * c) then 1 else 0
  {
    var idx := w + i * c;
    OwnerIsUnique(c, w, i);
    forall k: nat | k % c == w && k / c == i ensures k == idx {}
    if good(idx) {
      assert Done(conns, c, w, i + 1, good) == Done(conns, c, w, i, good) + {idx};
    } else {
      assert Done(conns, c, w, i + 1, good) == Done(conns, c, w, i, good);
    }
  }

  /** The log holds each index owned by a worker below w exactly once. */
  ghost predicate Logged(log: seq<nat>, conns: nat, c: nat, w: nat)
    requires 0 < c
  {
    NoRepeats(log) && forall k: nat :: k in log <==> k < conns && k % c < w
  }

  /** From position n on the log is worker w's own run of indices. */
  ghost predicate OwnRun(visited: seq<nat>, n: nat, conns: nat, c: nat, w: nat)
    requires 0 < c
  {
    forall j :: n <= j < |visited| ==> visited[j] % c == w && visited[j] / c == j - n && visited[j] < conns
  }

  lemma RunIsOwn(visited: seq<nat>, log: seq<nat>, conns: nat, c: nat, w: nat)
    requires w < c && Visits(visited, log, c, w, CountOf(conns, c, w))
    ensures OwnRun(visited, |log|, conns, c, w)
  {
    forall j | |log| <= j < |visited|
      ensures visited[j] % c == w && visited[j] / c == j - |log| && visited[j] < conns
    {
      var i := j - |log|;
      assert visited[|log| + i] == w + i * c;
      OwnerIsUnique(c, w, i);
      InRangeIffCounted(conns, c, w, i);
    }
  }

  lemma RunAddsNoRepeats(visited: seq<nat>, log: seq<nat>, conns: nat, c: nat, w: nat)
    requires w < c && Logged(log, conns, c, w) && log <= visited && OwnRun(visited, |log|, conns, c, w)
    ensures NoRepeats(visited)
  {
    forall i, j | 0 <= i < j < |visited| ensures visited[i] != visited[j] {
      if i < |log| {
        assert visited[i] in log;
      }
    }
  }

  lemma RunIsComplete(visited: seq<nat>, log: seq<nat>, conns: nat, c: nat, w: nat, k: nat)
    requires w < c && k < conns && k % c == w
    requires Visits(visited, log, c, w, CountOf(conns, c, w))
    ensures k in visited
  {
    OwnerExists(conns, c, k);
    assert visited[|log| + k / c] == w + k / c * c;
  }

  lemma LogGrows(visited: seq<nat>, log: seq<nat>, conns: nat, c: nat, w: nat)
    requires w < c && Logged(log, conns, c, w)
    requires Visits(visited, log, c, w, CountOf(conns, c, w))
    ensures Logged(visited, conns, c, w + 1)
  {
    hide CountOf, NoRepeats;
    RunIsOwn(visited, log, conns, c, w);
    assert log <= visited;
    RunAddsNoRepeats(visited, log, conns, c, w);
    forall k: nat ensures k in visited <==> k < conns && k % c < w + 1 {
      if k in log {
      } else if k in visited {
        var j :| 0 <= j < |visited| && visited[j] == k;
        assert |log| <= j;
      } else if k < conns && k % c == w {
        RunIsComplete(visited, log, conns, c, w, k);
      }
    }
  }

  /** The connections of joined workers below w that succeeded. */
  ghost function Credited(conns: nat, c: nat, w: nat, succeeds: nat -> bool, joins: nat -> bool): set<nat>
    requires 0 < c
  {
    set k: nat | k < conns && k % c < w && succeeds(k) && joins(k % c)
  }

  lemma CreditGrows(conns: nat, c: nat, w: nat, succeeds: nat -> bool, joins: nat -> bool)
    requires w < c
    ensures |Credited(conns, c, w + 1, succeeds, joins)|
         == |Credited(conns, c, w, succeeds, joins)|
            + if joins(w) then |Done(conns, c, w, CountOf(conns, c, w), succeeds)| else 0
  {
    var was, own := Credited(conns, c, w, succeeds, joins), Done(conns, c, w, CountOf(conns, c, w), succeeds);
    if joins(w) {
      forall k: nat | k < conns && k % c == w ensures k / c < CountOf(conns, c, w) {
        OwnerExists(conns, c, k);
      }
      assert Credited(conns, c, w + 1, succeeds, joins) == was + own;
      assert was !! own;
    } else {
      assert Credited(conns, c, w + 1, succeeds, joins) == was;
    }
  }

  /** One round: with a worker to run them, each connection is made exactly
      once, and the total is the number of successes of joined workers. With no
      worker nothing runs. */
  method RunRound(conns: nat, concurrency: nat, succeeds: nat -> bool, joins: nat -> bool)
    returns (total: nat, requests: seq<nat>)
    ensures NoRepeats(requests)
    ensures concurrency > 0 ==> forall k: nat :: k in requests <==> k < conns
    ensures concurrency > 0 ==>
      total == |set k: nat | k < conns && succeeds(k) && joins(k % concurrency)|
    ensures concurrency == 0 ==> total == 0 && requests == []
  {
    requests := [];
    var counts: seq<nat> := [];
    for w := 0 to concurrency
      invariant |counts| == w
      invariant concurrency == 0 ==> requests == []
      invariant concurrency > 0 ==> Logged(requests, conns, concurrency, w)
      invariant forall v :: 0 <= v < w ==>
        counts[v] == |Done(conns, concurrency, v, CountOf(conns, concurrency, v), succeeds)|
    {
      ghost var before := requests;
      var ok;
      ok, requests := RunWorker(conns, concurrency, w, succeeds, requests);
      LogGrows(requests, before, conns, concurrency, w);
      counts := counts + [ok];
    }
    total := 0;
    for w := 0 to concurrency
      invariant concurrency == 0 ==> total == 0
      invariant concurrency > 0 ==> total == |Credited(conns, concurrency, w, succeeds, joins)|
    {
      CreditGrows(conns, concurrency, w, succeeds, joins);
      if joins(w) {
        total := total + counts[w];
      }
    }
    if concurrency > 0 {
      assert Credited(conns, concurrency, concurrency, succeeds, joins)
          == set k: nat | k < conns && succeeds(k) && joins(k % concurrency);
    }
  }
}
