/** Port lists: sorting and merging the spans of a payload into the one form that
    stands for its set of ports. */
module PortSpans {
  import opened Common

  datatype Span = Span(lo: nat, hi: nat)

  predicate Within(s: Span, port: nat) {
    s.lo <= port <= s.hi
  }

  /** The rule's meaning: some span holds the port. */
  predicate PortIn(spans: seq<Span>, port: nat) {
    exists i :: 0 <= i < |spans| && Within(spans[i], port)
  }

  predicate Valid(spans: seq<Span>) {
    forall i :: 0 <= i < |spans| ==> spans[i].lo <= spans[i].hi
  }

  /** Ascending, with at least one port between neighbours. */
  predicate Canonical(spans: seq<Span>) {
    Valid(spans) && forall i, j :: 0 <= i < j < |spans| ==> spans[i].hi + 1 < spans[j].lo
  }

  // ---- Sorting ----

  predicate Before(a: Span, b: Span) {
    a.lo < b.lo || (a.lo == b.lo && a.hi <= b.hi)
  }

  predicate Ordered(spans: seq<Span>) {
    forall i, j :: 0 <= i < j < |spans| ==> Before(spans[i], spans[j])
  }

  function Placed(spans: seq<Span>, s: Span): seq<Span> {
    if spans == [] then [s]
    else if Before(s, spans[0]) then [s] + spans
    else [spans[0]] + Placed(spans[1..], s)
  }

  function Sort(spans: seq<Span>): seq<Span> {
    if spans == [] then [] else Placed(Sort(spans[1..]), spans[0])
  }

  lemma {:induction false} PlacedHolds(spans: seq<Span>, s: Span)
    ensures |Placed(spans, s)| == |spans| + 1
    ensures forall x :: x in Placed(spans, s) <==> x in spans || x == s
    decreases |spans|
  {
    if spans != [] && !Before(s, spans[0]) {
      PlacedHolds(spans[1..], s);
      assert spans == [spans[0]] + spans[1..];
    }
  }

  lemma {:induction false} PlacedStaysOrdered(spans: seq<Span>, s: Span)
    requires Ordered(spans)
    ensures Ordered(Placed(spans, s))
    decreases |spans|
  {
    if spans != [] && !Before(s, spans[0]) {
      PlacedStaysOrdered(spans[1..], s);
      PlacedHolds(spans[1..], s);
      var rest := Placed(spans[1..], s);
      forall i | 0 <= i < |rest| ensures Before(spans[0], rest[i]) {
        assert rest[i] in rest;
      }
    }
  }

  /** Sorting keeps every span and adds none. */
  lemma {:induction false} SortHolds(spans: seq<Span>)
    ensures |Sort(spans)| == |spans| && Ordered(Sort(spans))
    ensures forall x :: x in Sort(spans) <==> x in spans
    decreases |spans|
  {
    if spans != [] {
      SortHolds(spans[1..]);
      PlacedHolds(Sort(spans[1..]), spans[0]);
      PlacedStaysOrdered(Sort(spans[1..]), spans[0]);
      assert spans == [spans[0]] + spans[1..];
    }
  }

  /** The same spans in another order hold the same ports. */
  lemma OrderDoesNotMatter(a: seq<Span>, b: seq<Span>, port: nat)
    requires forall x :: x in a <==> x in b
    ensures PortIn(a, port) == PortIn(b, port)
  {
    if i :| 0 <= i < |a| && Within(a[i], port) {
      assert a[i] in b;
    }
    if j :| 0 <= j < |b| && Within(b[j], port) {
      assert b[j] in a;
    }
  }

  // ---- Merging ----

  ghost predicate SamePorts(a: seq<Span>, b: seq<Span>) {
    forall port: nat :: PortIn(a, port) <==> PortIn(b, port)
  }

  lemma PortInSnoc(spans: seq<Span>, s: Span, port: nat)
    ensures PortIn(spans + [s], port) <==> PortIn(spans, port) || Within(s, port)
  {
    assert forall i :: 0 <= i < |spans| ==> (spans + [s])[i] == spans[i];
    assert (spans + [s])[|spans|] == s;
  }

  function Widened(last: Span, s: Span): Span {
    Span(last.lo, if last.hi < s.hi then s.hi else last.hi)
  }

  /** Widening the last span takes in exactly the ports of one that touches it. */
  lemma WidenedHolds(merged: seq<Span>, s: Span, port: nat)
    requires merged != []
    requires var last := merged[|merged| - 1]; last.lo <= s.lo <= last.hi + 1 && last.lo <= last.hi && s.lo <= s.hi
    ensures PortIn(merged[..|merged| - 1] + [Widened(merged[|merged| - 1], s)], port) <==>
            PortIn(merged, port) || Within(s, port)
  {
    var init, last := merged[..|merged| - 1], merged[|merged| - 1];
    assert merged == init + [last];
    PortInSnoc(init, last, port);
    PortInSnoc(init, Widened(last, s), port);
  }

  lemma WidenStep(merged: seq<Span>, seen: seq<Span>, s: Span)
    requires Canonical(merged) && SamePorts(merged, seen) && merged != [] && s.lo <= s.hi
    requires merged[|merged| - 1].lo <= s.lo <= merged[|merged| - 1].hi + 1
    ensures var next := merged[..|merged| - 1] + [Widened(merged[|merged| - 1], s)];
            Canonical(next) && SamePorts(next, seen + [s])
  {
    hide PortIn;
    var next := merged[..|merged| - 1] + [Widened(merged[|merged| - 1], s)];
    forall port: nat ensures PortIn(next, port) <==> PortIn(seen + [s], port) {
      WidenedHolds(merged, s, port);
      PortInSnoc(seen, s, port);
    }
  }

  lemma PushStep(merged: seq<Span>, seen: seq<Span>, s: Span)
    requires Canonical(merged) && SamePorts(merged, seen) && s.lo <= s.hi
    requires merged != [] ==> merged[|merged| - 1].hi + 1 < s.lo
    ensures Canonical(merged + [s]) && SamePorts(merged + [s], seen + [s])
  {
    hide PortIn;
    forall port: nat ensures PortIn(merged + [s], port) <==> PortIn(seen + [s], port) {
      PortInSnoc(merged, s, port);
      PortInSnoc(seen, s, port);
    }
    forall i | 0 <= i < |merged| ensures merged[i].hi + 1 < s.lo {
      if i < |merged| - 1 { assert merged[i].hi + 1 < merged[|merged| - 1].lo; }
    }
  }

  /** The spans of a port list, sorted and merged: `None` for no span at all. */
  method CompilePortMatcher(spans: seq<Span>) returns (r: Option<seq<Span>>)
    requires Valid(spans)
    ensures r.None? <==> spans == []
    ensures r.Some? ==> Canonical(r.value) && SamePorts(r.value, spans)
  {
    hide PortIn, SamePorts, Canonical, Sort;
    var sorted := Sort(spans);
    SortHolds(spans);
    SortKeepsValid(spans);
    var merged: seq<Span> := [];
    NothingMerged();
    for i := 0 to |sorted|
      invariant Canonical(merged) && SamePorts(merged, sorted[..i])
      invariant i > 0 ==> merged != [] && merged[|merged| - 1].lo <= sorted[i - 1].lo
      invariant i == 0 ==> merged == []
    {
      var s := sorted[i];
      assert sorted[..i + 1] == sorted[..i] + [s];
      assert i > 0 ==> Before(sorted[i - 1], s);
      if merged != [] && s.lo <= merged[|merged| - 1].hi + 1 {
        WidenStep(merged, sorted[..i], s);
        merged := merged[..|merged| - 1] + [Widened(merged[|merged| - 1], s)];
      } else {
        PushStep(merged, sorted[..i], s);
        merged := merged + [s];
      }
    }
    assert sorted[..|sorted|] == sorted;
    SamePortsSorted(merged, sorted, spans);
    r := if merged == [] then None else Some(merged);
  }

  lemma NothingMerged()
    ensures Canonical([]) && SamePorts([], [])
  {}

  lemma SamePortsSorted(merged: seq<Span>, sorted: seq<Span>, spans: seq<Span>)
    requires SamePorts(merged, sorted) && forall x :: x in sorted <==> x in spans
    ensures SamePorts(merged, spans)
  {
    hide PortIn;
    forall port: nat ensures PortIn(merged, port) <==> PortIn(spans, port) {
      OrderDoesNotMatter(sorted, spans, port);
    }
  }

  lemma SortKeepsValid(spans: seq<Span>)
    requires Valid(spans)
    ensures Valid(Sort(spans))
  {
    SortHolds(spans);
    forall i | 0 <= i < |Sort(spans)| ensures Sort(spans)[i].lo <= Sort(spans)[i].hi {
      assert Sort(spans)[i] in spans;
    }
  }

  // ---- One form per set of ports ----

  lemma HeadHoldsLeast(spans: seq<Span>, port: nat)
    requires Canonical(spans) && spans != [] && PortIn(spans, port)
    ensures spans[0].lo <= port && PortIn(spans, spans[0].lo)
    ensures port <= spans[0].hi || port > spans[0].hi + 1
  {
    assert Within(spans[0], spans[0].lo);
  }

  lemma TailHoldsRest(spans: seq<Span>, port: nat)
    requires Canonical(spans) && spans != []
    ensures PortIn(spans[1..], port) <==> PortIn(spans, port) && port > spans[0].hi
  {
    assert forall i :: 1 <= i < |spans| ==> spans[i] == spans[1..][i - 1];
    assert forall i :: 0 <= i < |spans| - 1 ==> spans[1..][i] == spans[i + 1];
  }

  lemma HeadsAgree(a: seq<Span>, b: seq<Span>)
    requires Canonical(a) && Canonical(b) && SamePorts(a, b) && a != [] && b != []
    ensures a[0].lo == b[0].lo && a[0].hi <= b[0].hi
  {
    assert Within(a[0], a[0].lo) && Within(b[0], b[0].lo);
    assert PortIn(a, a[0].lo) && PortIn(b, b[0].lo);
    HeadHoldsLeast(a, b[0].lo);
    HeadHoldsLeast(b, a[0].lo);
    if b[0].hi < a[0].hi {
      assert Within(a[0], b[0].hi + 1);
      HeadHoldsLeast(b, b[0].hi + 1);
    }
  }

  lemma HoldsItsFirst(spans: seq<Span>)
    requires Canonical(spans)
    ensures spans != [] ==> PortIn(spans, spans[0].lo)
    ensures spans == [] ==> forall port: nat :: !PortIn(spans, port)
  {
    if spans != [] { assert Within(spans[0], spans[0].lo); }
  }

  /** Two payloads get the same form exactly when they name the same ports, so
      one fingerprint stands for one predicate. */
  lemma {:induction false} CanonicalIsUnique(a: seq<Span>, b: seq<Span>)
    requires Canonical(a) && Canonical(b)
    ensures a == b <==> SamePorts(a, b)
    decreases |a|
  {
    if SamePorts(a, b) {
      HoldsItsFirst(a);
      HoldsItsFirst(b);
      if a != [] && b != [] {
        HeadsAgree(a, b);
        HeadsAgree(b, a);
        forall port: nat ensures PortIn(a[1..], port) <==> PortIn(b[1..], port) {
          TailHoldsRest(a, port);
          TailHoldsRest(b, port);
        }
        CanonicalIsUnique(a[1..], b[1..]);
        assert a == [a[0]] + a[1..] && b == [b[0]] + b[1..];
      }
    }
  }
}
