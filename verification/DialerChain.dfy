/** `dialer-proxy` resolution: the worklist of `apply_dialer_proxies`.

    A proxy block may name another proxy (its dialer) through which it dials.
    The worklist rebuilds every such proxy on top of its dialer's final form,
    deferring a block until its dialer is final. The module states what the
    outcome is, as a function of the effective (last) block of each name, and
    proves the loop computes exactly that.
 */
module DialerChain {
  import opened Common

  type Name = string

  /** One `proxies:` entry: the two keys read here, and everything else. */
  datatype Block<B> = Block(name: Option<Name>, dialer: Option<Name>, body: B)

  datatype DialerError =
    | PointsToItself(name: Name)
    | DialerNotFound(name: Name, dialer: Name)
    | NoRawBlock(name: Name, dialer: Name)
    | CycleDetected(edges: seq<(Name, Name)>)

  /** The registry before the pass, the raw blocks, the adapter parser with an
      injected dialer (a partial function) and the relay-based fallback. */
  datatype Chains<!B, !P> = Chains(
    registry: map<Name, P>,
    blocks: seq<Block<B>>,
    parse: (Block<B>, P) -> Option<P>,
    relay: (P, P) -> P)

  // ---------------------------------------------------------------------
  // What the blocks mean: the last block of a name is its definition.
  // ---------------------------------------------------------------------

  /** The last of the first `hi` blocks that carries name `n`. */
  function LastAmong<B>(blocks: seq<Block<B>>, n: Name, hi: nat): Option<Block<B>>
    requires hi <= |blocks|
  {
    if hi == 0 then None
    else if blocks[hi - 1].name == Some(n) then Some(blocks[hi - 1])
    else LastAmong(blocks, n, hi - 1)
  }

  function LastBlock<B>(blocks: seq<Block<B>>, n: Name): Option<Block<B>> {
    LastAmong(blocks, n, |blocks|)
  }

  /** An empty `dialer-proxy:` counts as absent. */
  function DeclaredDialer<B>(b: Block<B>): Option<Name> {
    if b.dialer.Some? && b.dialer.value != "" then b.dialer else None
  }

  /** The dialer the effective block of `n` names, if any. */
  function Edge<B>(blocks: seq<Block<B>>, n: Name): Option<Name> {
    match LastBlock(blocks, n)
    case None => None
    case Some(b) => DeclaredDialer(b)
  }

  ghost predicate SelfReferring<B>(blocks: seq<Block<B>>) {
    exists n :: Edge(blocks, n) == Some(n)
  }

  /** Where `k` dialer hops from `n` lead, if the chain is that long. */
  ghost function Hop<B>(blocks: seq<Block<B>>, n: Name, k: nat): Option<Name>
    decreases k
  {
    if k == 0 then Some(n)
    else match Edge(blocks, n)
      case None => None
      case Some(d) => Hop(blocks, d, k - 1)
  }

  ghost predicate HasCycle<B>(blocks: seq<Block<B>>) {
    exists n, k: nat :: k >= 1 && Hop(blocks, n, k) == Some(n)
  }

  /** The chain of `n` ends, in fewer than `k` hops, at a proxy without a dialer. */
  ghost predicate Grounded<B>(blocks: seq<Block<B>>, n: Name, k: nat)
    decreases k
  {
    k > 0 && (Edge(blocks, n).None? || Grounded(blocks, Edge(blocks, n).value, k - 1))
  }

  /** The chain of `n` never ends. */
  ghost predicate Endless<B>(blocks: seq<Block<B>>, n: Name) {
    forall k: nat :: !Grounded(blocks, n, k)
  }

  /** `n` rebuilt on top of its dialer's form: the block re-parsed with the
      dialer injected, else the old entry relayed through it, else nothing. */
  function Layer<B, P>(c: Chains<B, P>, n: Name, dialer: Option<P>): Option<P> {
    if dialer.None? || LastBlock(c.blocks, n).None? then None
    else match c.parse(LastBlock(c.blocks, n).value, dialer.value)
      case Some(p) => Some(p)
      case None => if n in c.registry then Some(c.relay(c.registry[n], dialer.value)) else None
  }

  /** The recursive definition of the final form of a grounded name. */
  ghost function Form<B, P>(c: Chains<B, P>, n: Name, k: nat): Option<P>
    requires Grounded(c.blocks, n, k)
    decreases k
  {
    match Edge(c.blocks, n)
    case None => Lookup(c.registry, n)
    case Some(d) => Layer(c, n, Form(c, d, k - 1))
  }

  /** Some chain that does end runs through a dialer that is not there. */
  ghost predicate Missing<B, P>(c: Chains<B, P>) {
    exists n, k: nat ::
      Edge(c.blocks, n).Some? && Grounded(c.blocks, Edge(c.blocks, n).value, k)
      && Form(c, Edge(c.blocks, n).value, k).None?
  }

  /** The chain of `n` through its dialer `d` is such a one. */
  ghost predicate BrokenAt<B, P>(c: Chains<B, P>, n: Name, d: Name) {
    Edge(c.blocks, n) == Some(d) && exists k: nat :: Grounded(c.blocks, d, k) && Form(c, d, k).None?
  }

  /** `r` solves the recursive equations, and every dialer named is in it. */
  ghost predicate Solves<B, P>(c: Chains<B, P>, r: map<Name, P>) {
    forall n ::
      match Edge(c.blocks, n)
      case None => Lookup(r, n) == Lookup(c.registry, n)
      case Some(d) => d in r && Lookup(r, n) == Layer(c, n, Lookup(r, d))
  }

  // ---------------------------------------------------------------------
  // Facts about chains.
  // ---------------------------------------------------------------------

  lemma {:induction false} FormIsStable<B, P>(c: Chains<B, P>, n: Name, k: nat, l: nat)
    requires Grounded(c.blocks, n, k) && Grounded(c.blocks, n, l)
    ensures Form(c, n, k) == Form(c, n, l)
    decreases k
  {
    if Edge(c.blocks, n).Some? {
      FormIsStable(c, Edge(c.blocks, n).value, k - 1, l - 1);
    }
  }

  lemma {:induction false} HopAdds<B>(blocks: seq<Block<B>>, n: Name, a: nat, b: nat)
    requires Hop(blocks, n, a).Some?
    ensures Hop(blocks, n, a + b) == Hop(blocks, Hop(blocks, n, a).value, b)
    decreases a
  {
    if a > 0 {
      HopAdds(blocks, Edge(blocks, n).value, a - 1, b);
    }
  }

  /** A grounded chain cannot be followed arbitrarily far. */
  lemma {:induction false} GroundedEnds<B>(blocks: seq<Block<B>>, n: Name, k: nat, l: nat)
    requires Grounded(blocks, n, k) && k <= l
    ensures Hop(blocks, n, l).None?
    decreases k
  {
    if Edge(blocks, n).Some? {
      GroundedEnds(blocks, Edge(blocks, n).value, k - 1, l - 1);
    }
  }

  lemma {:induction false} LoopsForever<B>(blocks: seq<Block<B>>, n: Name, period: nat, times: nat)
    requires period >= 1 && Hop(blocks, n, period) == Some(n)
    ensures Hop(blocks, n, period * times) == Some(n)
    decreases times
  {
    if times > 0 {
      LoopsForever(blocks, n, period, times - 1);
      HopAdds(blocks, n, period * (times - 1), period);
      assert period * times == period * (times - 1) + period;
    } else {
      assert period * times == 0;
    }
  }

  lemma CycleIsNotGrounded<B>(blocks: seq<Block<B>>, n: Name, period: nat, k: nat)
    requires period >= 1 && Hop(blocks, n, period) == Some(n)
    ensures !Grounded(blocks, n, k)
  {
    if Grounded(blocks, n, k) {
      LoopsForever(blocks, n, period, k);
      assert period * k >= k;
      GroundedEnds(blocks, n, k, period * k);
    }
  }

  /** Every name of `pool` has its dialer in `pool`. */
  ghost predicate MapsIntoItself<B>(blocks: seq<Block<B>>, pool: set<Name>) {
    forall n :: n in pool ==> Edge(blocks, n).Some? && Edge(blocks, n).value in pool
  }

  lemma {:induction false} StaysInPool<B>(blocks: seq<Block<B>>, pool: set<Name>, n: Name, k: nat)
    requires MapsIntoItself(blocks, pool) && n in pool
    ensures Hop(blocks, n, k).Some? && Hop(blocks, n, k).value in pool
    ensures !Grounded(blocks, n, k)
    decreases k
  {
    if k > 0 {
      StaysInPool(blocks, pool, Edge(blocks, n).value, k - 1);
    }
  }

  /** The pigeonhole step: a finite set that maps into itself holds a cycle. */
  lemma ClosedPoolHasCycle<B>(blocks: seq<Block<B>>, pool: set<Name>, n: Name)
    requires MapsIntoItself(blocks, pool) && n in pool
    ensures HasCycle(blocks)
  {
    forall k: nat
      ensures Hop(blocks, n, k).Some? && Hop(blocks, n, k).value in pool
    {
      StaysInPool(blocks, pool, n, k);
    }
    var walk := seq(|pool| + 1, (k: nat) requires Hop(blocks, n, k).Some? => Hop(blocks, n, k).value);
    var i, j := Pigeonhole(walk, pool);
    HopAdds(blocks, n, i, j - i);
    assert Hop(blocks, walk[i], j - i) == Some(walk[i]);
  }

  // ---------------------------------------------------------------------
  // The code.
  // ---------------------------------------------------------------------

  /** The names an edge list speaks of. */
  function Names(edges: seq<(Name, Name)>): set<Name> {
    set i | 0 <= i < |edges| :: edges[i].0
  }

  predicate DistinctNames(edges: seq<(Name, Name)>) {
    forall i, j :: 0 <= i < j < |edges| ==> edges[i].0 != edges[j].0
  }

  /** `edges` lists, without repetition, edges of the effective blocks. */
  ghost predicate AreEdges<B>(blocks: seq<Block<B>>, edges: seq<(Name, Name)>) {
    && DistinctNames(edges)
    && forall i :: 0 <= i < |edges| ==> Edge(blocks, edges[i].0) == Some(edges[i].1)
  }

  /** Block i is the last of the blocks that carry name `n`. */
  predicate LastAt<B>(blocks: seq<Block<B>>, n: Name, i: nat) {
    i < |blocks| && blocks[i].name == Some(n) && forall j :: i < j < |blocks| ==> blocks[j].name != Some(n)
  }

  /** By position: the effective block of a name is the last that carries it, and
      a name has none exactly when no block carries it. */
  lemma LastBlockIsLast<B>(blocks: seq<Block<B>>, n: Name)
    ensures forall i: nat :: LastAt(blocks, n, i) ==> LastBlock(blocks, n) == Some(blocks[i])
    ensures LastBlock(blocks, n).Some? ==>
            exists i: nat :: LastAt(blocks, n, i) && LastBlock(blocks, n) == Some(blocks[i])
    ensures LastBlock(blocks, n).None? <==> forall i :: 0 <= i < |blocks| ==> blocks[i].name != Some(n)
  {
    var k := LastAmongIsLast(blocks, n, |blocks|);
    if k < |blocks| { assert LastAt(blocks, n, k); }
  }

  lemma {:induction false} LastAmongIsLast<B>(blocks: seq<Block<B>>, n: Name, hi: nat) returns (k: nat)
    requires hi <= |blocks|
    ensures k <= hi && LastAmong(blocks, n, hi) == if k < hi then Some(blocks[k]) else None
    ensures k < hi ==> blocks[k].name == Some(n) && forall j :: k < j < hi ==> blocks[j].name != Some(n)
    ensures k == hi ==> forall j :: 0 <= j < hi ==> blocks[j].name != Some(n)
    decreases hi
  {
    if hi == 0 {
      k := 0;
    } else if blocks[hi - 1].name == Some(n) {
      k := hi - 1;
    } else {
      k := LastAmongIsLast(blocks, n, hi - 1);
      if k == hi - 1 { k := hi; }
    }
  }

  /** A name dials through the dialer its last block names, unless that is empty. */
  lemma EdgeIff<B>(blocks: seq<Block<B>>, n: Name, d: Name)
    ensures Edge(blocks, n) == Some(d) <==>
            exists i: nat :: LastAt(blocks, n, i) && blocks[i].dialer == Some(d) && d != ""
  {
    hide LastBlock;
    LastBlockIsLast(blocks, n);
  }

  /** What `r` must hold for name `n`, read off the blocks by position: with a
      dialer in its last block, that block parsed on top of the dialer's entry, or
      its old entry relayed through it; otherwise its old entry. */
  ghost predicate SolvedAt<B, P>(c: Chains<B, P>, r: map<Name, P>, n: Name, i: nat)
    requires LastAt(c.blocks, n, i)
  {
    var dialer := c.blocks[i].dialer;
    if dialer.None? || dialer.value == "" then Lookup(r, n) == Lookup(c.registry, n)
    else
      && dialer.value in r
      && Lookup(r, n) ==
         match c.parse(c.blocks[i], r[dialer.value])
         case Some(p) => Some(p)
         case None => if n in c.registry then Some(c.relay(c.registry[n], r[dialer.value])) else None
  }

  ghost predicate SolvedByPosition<B, P>(c: Chains<B, P>, r: map<Name, P>) {
    && (forall n, i: nat :: LastAt(c.blocks, n, i) ==> SolvedAt(c, r, n, i))
    && (forall n :: (forall i :: 0 <= i < |c.blocks| ==> c.blocks[i].name != Some(n)) ==>
          Lookup(r, n) == Lookup(c.registry, n))
  }

  /** The recursive equations, by position. */
  lemma SolvesIff<B, P>(c: Chains<B, P>, r: map<Name, P>)
    ensures Solves(c, r) <==> SolvedByPosition(c, r)
  {
    hide LastBlock;
    forall n
      ensures forall i: nat :: LastAt(c.blocks, n, i) ==> LastBlock(c.blocks, n) == Some(c.blocks[i])
      ensures LastBlock(c.blocks, n).Some? ==>
              exists i: nat :: LastAt(c.blocks, n, i) && LastBlock(c.blocks, n) == Some(c.blocks[i])
      ensures LastBlock(c.blocks, n).None? <==> forall i :: 0 <= i < |c.blocks| ==> c.blocks[i].name != Some(n)
    {
      LastBlockIsLast(c.blocks, n);
    }
  }

  lemma LastAmongIn<B>(blocks: seq<Block<B>>, n: Name, hi: nat)
    requires hi <= |blocks|
    ensures LastAmong(blocks, n, hi).Some? ==>
              LastAmong(blocks, n, hi).value in blocks && LastAmong(blocks, n, hi).value.name == Some(n)
  {
  }

  method CollectEdges<B>(blocks: seq<Block<B>>) returns (r: Result<seq<(Name, Name)>, DialerError>)
    ensures r.Ok? ==> AreEdges(blocks, r.value) && !SelfReferring(blocks)
    ensures r.Ok? ==> forall n :: n in Names(r.value) <==> Edge(blocks, n).Some?
    ensures r.Err? ==>
              r.error.PointsToItself? && Edge(blocks, r.error.name) == Some(r.error.name) && SelfReferring(blocks)
  {
    var pending: seq<(Name, Name)> := [];
    var seen: set<Name> := {};
    var i := |blocks|;
    while i > 0
      invariant 0 <= i <= |blocks|
      invariant forall n :: n !in seen ==> LastBlock(blocks, n) == LastAmong(blocks, n, i)
      invariant AreEdges(blocks, pending)
      invariant forall n :: n in Names(pending) <==> n in seen && Edge(blocks, n).Some?
      invariant forall n :: n in seen ==> Edge(blocks, n) != Some(n)
    {
      i := i - 1;
      var b := blocks[i];
      if b.name.None? || b.name.value in seen { continue; }
      var name := b.name.value;
      seen := seen + {name};
      assert LastBlock(blocks, name) == Some(b);
      if DeclaredDialer(b).None? { continue; }
      var dialer := DeclaredDialer(b).value;
      if dialer == name {
        return Err(PointsToItself(name));
      }
      NamesAfterPush(pending, (name, dialer));
      pending := pending + [(name, dialer)];
    }
    return Ok(pending);
  }

  /** Where the worklist stands: resolved names are in final form, all others
      still hold their original entry. */
  ghost predicate Progress<B, P>(c: Chains<B, P>, proxies: map<Name, P>, resolved: set<Name>) {
    && (forall n :: n !in resolved ==> Lookup(proxies, n) == Lookup(c.registry, n))
    && (forall n :: n in resolved ==>
          && Edge(c.blocks, n).Some?
          && Edge(c.blocks, n).value in proxies
          && (Edge(c.blocks, Edge(c.blocks, n).value).Some? ==> Edge(c.blocks, n).value in resolved)
          && exists k: nat :: Grounded(c.blocks, n, k) && Form(c, n, k) == Lookup(proxies, n))
  }

  /** `d` may be dialed through now: it never needed wrapping, or it is done. */
  lemma ReadyDialerIsFinal<B, P>(c: Chains<B, P>, proxies: map<Name, P>, resolved: set<Name>, d: Name) returns (k: nat)
    requires Progress(c, proxies, resolved)
    requires Edge(c.blocks, d).Some? ==> d in resolved
    ensures Grounded(c.blocks, d, k) && Form(c, d, k) == Lookup(proxies, d)
  {
    if Edge(c.blocks, d).Some? {
      k :| Grounded(c.blocks, d, k) && Form(c, d, k) == Lookup(proxies, d);
    } else {
      k := 1;
      assert d !in resolved;
    }
  }

  /** One iteration for an edge whose dialer is ready. */
  method ResolveOne<B, P>(c: Chains<B, P>, proxies: map<Name, P>, ghost resolved: set<Name>, name: Name, dialer: Name)
    returns (r: Result<map<Name, P>, DialerError>)
    requires Progress(c, proxies, resolved) && name !in resolved
    requires Edge(c.blocks, name) == Some(dialer) && dialer != name
    requires Edge(c.blocks, dialer).Some? ==> dialer in resolved
    ensures r.Ok? ==> Progress(c, r.value, resolved + {name})
    ensures r.Err? <==> dialer !in proxies
    ensures r.Err? ==> r.error == DialerNotFound(name, dialer) && Missing(c) && BrokenAt(c, name, dialer)
  {
    ghost var k := ReadyDialerIsFinal(c, proxies, resolved, dialer);
    if dialer !in proxies {
      assert Form(c, Edge(c.blocks, name).value, k).None?;
      return Err(DialerNotFound(name, dialer));
    }
    var dialerProxy := proxies[dialer];
    var raw := LastBlock(c.blocks, name);
    assert raw.Some?;
    var proxies' := proxies;
    match c.parse(raw.value, dialerProxy) {
      case Some(rebuilt) =>
        proxies' := proxies[name := rebuilt];
      case None =>
        if name in proxies {
          proxies' := proxies[name := c.relay(proxies[name], dialerProxy)];
        }
    }
    assert Lookup(proxies, name) == Lookup(c.registry, name);
    assert Grounded(c.blocks, name, k + 1);
    assert Form(c, name, k + 1) == Layer(c, name, Form(c, dialer, k));
    assert Form(c, name, k + 1) == Lookup(proxies', name);
    forall n | n != name
      ensures Lookup(proxies', n) == Lookup(proxies, n)
    {
    }
    return Ok(proxies');
  }

  /** One pass over the pending edges. */
  method Pass<B, P>(c: Chains<B, P>, needsWrap: set<Name>, proxies0: map<Name, P>, resolved0: set<Name>,
                    pending: seq<(Name, Name)>)
    returns (r: Result<map<Name, P>, DialerError>, resolved: set<Name>, deferred: seq<(Name, Name)>, progressed: bool)
    requires !SelfReferring(c.blocks)
    requires forall n :: n in needsWrap <==> Edge(c.blocks, n).Some?
    requires Progress(c, proxies0, resolved0)
    requires AreEdges(c.blocks, pending) && Names(pending) == needsWrap - resolved0
    ensures r.Err? ==> r.error.DialerNotFound? && Missing(c) && BrokenAt(c, r.error.name, r.error.dialer)
    ensures r.Ok? ==> Progress(c, r.value, resolved)
    ensures r.Ok? ==> AreEdges(c.blocks, deferred) && Names(deferred) == needsWrap - resolved
    ensures r.Ok? && progressed ==> |deferred| < |pending|
    ensures r.Ok? && !progressed ==> MapsIntoItself(c.blocks, Names(deferred))
  {
    hide Progress, Missing, BrokenAt;
    var proxies := proxies0;
    resolved, deferred, progressed := resolved0, [], false;
    assert pending[0..] == pending;
    for i := 0 to |pending|
      invariant Progress(c, proxies, resolved)
      invariant AreEdges(c.blocks, deferred)
      invariant Names(deferred) !! Names(pending[i..])
      invariant Names(deferred) + Names(pending[i..]) == needsWrap - resolved
      invariant if progressed then |deferred| < i else |deferred| == i && resolved == resolved0
      invariant !progressed ==> forall j :: 0 <= j < |deferred| ==>
                deferred[j].1 in needsWrap && deferred[j].1 !in resolved0
    {
      var (name, dialer) := pending[i];
      NamesAfterHead(pending, i);
      if dialer in needsWrap && dialer !in resolved {
        NamesAfterPush(deferred, pending[i]);
        deferred := deferred + [pending[i]];
        continue;
      }
      progressed := true;
      var step := ResolveOne(c, proxies, resolved, name, dialer);
      if step.Err? {
        return Err(step.error), resolved, deferred, progressed;
      }
      proxies := step.value;
      resolved := resolved + {name};
    }
    assert Names(pending[|pending|..]) == {};
    if !progressed {
      forall n | n in Names(deferred)
        ensures Edge(c.blocks, n).Some? && Edge(c.blocks, n).value in Names(deferred)
      {
        var j :| 0 <= j < |deferred| && deferred[j].0 == n;
        assert deferred[j].1 in needsWrap - resolved;
      }
    }
    return Ok(proxies), resolved, deferred, progressed;
  }

  lemma NamesAfterHead(edges: seq<(Name, Name)>, i: nat)
    requires i < |edges| && DistinctNames(edges)
    ensures Names(edges[i..]) == {edges[i].0} + Names(edges[i + 1..])
    ensures edges[i].0 !in Names(edges[i + 1..])
  {
    var tail := edges[i + 1..];
    forall n | n in Names(edges[i..]) && n != edges[i].0
      ensures n in Names(tail)
    {
      var j :| 0 <= j < |edges[i..]| && edges[i..][j].0 == n;
      assert tail[j - 1] == edges[i..][j];
    }
    forall j | 0 <= j < |tail|
      ensures tail[j].0 in Names(edges[i..])
    {
      assert tail[j] == edges[i..][j + 1];
    }
    assert edges[i..][0] == edges[i];
  }

  lemma NamesAfterPush(edges: seq<(Name, Name)>, e: (Name, Name))
    ensures Names(edges + [e]) == Names(edges) + {e.0}
    ensures DistinctNames(edges) && e.0 !in Names(edges) ==> DistinctNames(edges + [e])
  {
    assert (edges + [e])[|edges|] == e;
    forall j | 0 <= j < |edges|
      ensures (edges + [e])[j].0 in Names(edges) && edges[j].0 in Names(edges + [e])
    {
      assert (edges + [e])[j] == edges[j];
    }
  }

  /** The whole pass. The four outcomes are told apart by properties of the
      effective blocks alone, and success means the recursive equations hold. */
  method ApplyDialerProxies<B, P>(c: Chains<B, P>) returns (r: Result<map<Name, P>, DialerError>)
    ensures r.Err? && r.error.PointsToItself? <==> SelfReferring(c.blocks)
    ensures r.Err? && r.error.DialerNotFound? <==> !SelfReferring(c.blocks) && Missing(c)
    ensures r.Err? && r.error.CycleDetected? <==> !SelfReferring(c.blocks) && !Missing(c) && HasCycle(c.blocks)
    ensures r.Err? ==> !r.error.NoRawBlock?
    // The block named is at fault.
    ensures r.Err? && r.error.PointsToItself? ==> Edge(c.blocks, r.error.name) == Some(r.error.name)
    ensures r.Err? && r.error.DialerNotFound? ==> BrokenAt(c, r.error.name, r.error.dialer)
    // Success solves the recursive equations, also when the blocks are read by position.
    ensures r.Ok? ==> Solves(c, r.value) && SolvedByPosition(c, r.value)
    // The reported edges are exactly those whose chain never ends.
    ensures r.Err? && r.error.CycleDetected? ==>
              && AreEdges(c.blocks, r.error.edges)
              && forall n :: n in Names(r.error.edges) <==> Endless(c.blocks, n)
  {
    hide Missing, SelfReferring, HasCycle, Endless, BrokenAt, SolvedByPosition;
    var collected := CollectEdges(c.blocks);
    if collected.Err? {
      return Err(collected.error);
    }
    var pending := collected.value;
    var needsWrap := Names(pending);
    var resolved: set<Name> := {};
    var proxies := c.registry;
    if pending == [] {
      NothingPending(c, proxies, resolved);
      SolvesIff(c, proxies);
      return Ok(proxies);
    }
    while true
      invariant Progress(c, proxies, resolved)
      invariant AreEdges(c.blocks, pending) && Names(pending) == needsWrap - resolved
      decreases |pending|
    {
      var pass, resolved', deferred, progressed := Pass(c, needsWrap, proxies, resolved, pending);
      if pass.Err? {
        return Err(pass.error);
      }
      proxies, resolved, pending := pass.value, resolved', deferred;
      if pending == [] {
        assert needsWrap - resolved == Names(pending) == {};
        assert forall n :: Edge(c.blocks, n).Some? ==> n in needsWrap;
        NothingPending(c, proxies, resolved);
        SolvesIff(c, proxies);
        return Ok(proxies);
      }
      if !progressed {
        Stalled(c, proxies, resolved, pending);
        return Err(CycleDetected(pending));
      }
    }
  }

  lemma NotMissing<B, P>(c: Chains<B, P>, proxies: map<Name, P>, resolved: set<Name>)
    requires Progress(c, proxies, resolved)
    requires forall n :: Edge(c.blocks, n).Some? && n !in resolved ==> Endless(c.blocks, n)
    ensures !Missing(c)
  {
    forall n, k: nat | Edge(c.blocks, n).Some? && Grounded(c.blocks, Edge(c.blocks, n).value, k)
      ensures Form(c, Edge(c.blocks, n).value, k).Some?
    {
      assert Grounded(c.blocks, n, k + 1);
      var d := Edge(c.blocks, n).value;
      var l := ReadyDialerIsFinal(c, proxies, resolved, d);
      FormIsStable(c, d, k, l);
    }
  }

  lemma NothingPending<B, P>(c: Chains<B, P>, proxies: map<Name, P>, resolved: set<Name>)
    requires Progress(c, proxies, resolved)
    requires forall n :: Edge(c.blocks, n).Some? ==> n in resolved
    ensures Solves(c, proxies) && !Missing(c) && !HasCycle(c.blocks)
  {
    NotMissing(c, proxies, resolved);
    forall n | Edge(c.blocks, n).Some?
      ensures Lookup(proxies, n) == Layer(c, n, Lookup(proxies, Edge(c.blocks, n).value))
    {
      var d := Edge(c.blocks, n).value;
      var k: nat :| Grounded(c.blocks, n, k) && Form(c, n, k) == Lookup(proxies, n);
      var l := ReadyDialerIsFinal(c, proxies, resolved, d);
      FormIsStable(c, d, k - 1, l);
    }
    forall n, k: nat | k >= 1 && Hop(c.blocks, n, k) == Some(n)
      ensures false
    {
      var l := ReadyDialerIsFinal(c, proxies, resolved, n);
      CycleIsNotGrounded(c.blocks, n, k, l);
    }
  }

  lemma Stalled<B, P>(c: Chains<B, P>, proxies: map<Name, P>, resolved: set<Name>, pending: seq<(Name, Name)>)
    requires Progress(c, proxies, resolved) && pending != []
    requires forall n :: n in Names(pending) <==> Edge(c.blocks, n).Some? && n !in resolved
    requires MapsIntoItself(c.blocks, Names(pending))
    ensures !Missing(c) && HasCycle(c.blocks)
    ensures forall n :: n in Names(pending) <==> Endless(c.blocks, n)
  {
    PendingNeverEnds(c, proxies, resolved, Names(pending));
    NotMissing(c, proxies, resolved);
    assert pending[0].0 in Names(pending);
    ClosedPoolHasCycle(c.blocks, Names(pending), pending[0].0);
  }

  lemma PendingNeverEnds<B, P>(c: Chains<B, P>, proxies: map<Name, P>, resolved: set<Name>, pool: set<Name>)
    requires Progress(c, proxies, resolved)
    requires forall n :: n in pool <==> Edge(c.blocks, n).Some? && n !in resolved
    requires MapsIntoItself(c.blocks, pool)
    ensures forall n :: n in pool <==> Endless(c.blocks, n)
  {
    forall n
      ensures n in pool <==> Endless(c.blocks, n)
    {
      if n in pool {
        forall k: nat ensures !Grounded(c.blocks, n, k) {
          StaysInPool(c.blocks, pool, n, k);
        }
      } else {
        var k := ReadyDialerIsFinal(c, proxies, resolved, n);
      }
    }
  }

  // ---------------------------------------------------------------------
  // The outcome is a property of the effective blocks only.
  // ---------------------------------------------------------------------

  lemma {:induction false} GroundedFormsAgree<B, P>(c: Chains<B, P>, r: map<Name, P>, n: Name, k: nat)
    requires Solves(c, r) && Grounded(c.blocks, n, k)
    ensures Lookup(r, n) == Form(c, n, k)
    decreases k
  {
    if Edge(c.blocks, n).Some? {
      GroundedFormsAgree(c, r, Edge(c.blocks, n).value, k - 1);
    }
  }

  /** Without a cycle every chain is grounded. */
  lemma AcyclicIsGrounded<B>(blocks: seq<Block<B>>, n: Name) returns (k: nat)
    requires !HasCycle(blocks)
    ensures Grounded(blocks, n, k)
  {
    var names := set b | b in blocks && b.name.Some? :: b.name.value;
    if Endless(blocks, n) {
      var pool := set m | m in names && Endless(blocks, m);
      forall m | Endless(blocks, m)
        ensures Edge(blocks, m).Some? && m in pool
        ensures Endless(blocks, Edge(blocks, m).value)
      {
        assert !Grounded(blocks, m, 1);
        LastAmongIn(blocks, m, |blocks|);
        forall k: nat ensures !Grounded(blocks, Edge(blocks, m).value, k) {
          assert !Grounded(blocks, m, k + 1);
        }
      }
      ClosedPoolHasCycle(blocks, pool, n);
    }
    k :| Grounded(blocks, n, k);
  }

  /** The recursive equations have at most one solution when chains end. */
  lemma SolutionIsUnique<B, P>(c: Chains<B, P>, r1: map<Name, P>, r2: map<Name, P>)
    requires !HasCycle(c.blocks) && Solves(c, r1) && Solves(c, r2)
    ensures r1 == r2
  {
    forall n
      ensures Lookup(r1, n) == Lookup(r2, n)
    {
      var k := AcyclicIsGrounded(c.blocks, n);
      GroundedFormsAgree(c, r1, n, k);
      GroundedFormsAgree(c, r2, n, k);
    }
    forall n
      ensures n in r1 <==> n in r2
      ensures n in r1 ==> r1[n] == r2[n]
    {
      assert Lookup(r1, n) == Lookup(r2, n);
    }
  }

  predicate DistinctBlocks<B>(blocks: seq<Block<B>>) {
    forall i, j :: 0 <= i < j < |blocks| && blocks[i].name.Some? ==> blocks[i].name != blocks[j].name
  }

  lemma {:induction false} LastOfDistinct<B>(blocks: seq<Block<B>>, n: Name, i: nat, hi: nat)
    requires DistinctBlocks(blocks) && i < hi <= |blocks| && blocks[i].name == Some(n)
    ensures LastAmong(blocks, n, hi) == Some(blocks[i])
    decreases hi
  {
    if i < hi - 1 {
      LastOfDistinct(blocks, n, i, hi - 1);
    }
  }

  /** Reordering blocks with distinct names changes no effective definition. */
  lemma PermutedBlocksMeanTheSame<B>(blocks: seq<Block<B>>, other: seq<Block<B>>, n: Name)
    requires DistinctBlocks(blocks) && DistinctBlocks(other) && multiset(blocks) == multiset(other)
    ensures LastBlock(blocks, n) == LastBlock(other, n)
  {
    SameMembers(blocks, other);
    LastAmongIn(blocks, n, |blocks|);
    LastAmongIn(other, n, |other|);
    if LastBlock(blocks, n).Some? {
      var b := LastBlock(blocks, n).value;
      assert b in multiset(other);
      var i :| 0 <= i < |other| && other[i] == b;
      LastOfDistinct(other, n, i, |other|);
    } else if LastBlock(other, n).Some? {
      var b := LastBlock(other, n).value;
      assert b in multiset(blocks);
      var i :| 0 <= i < |blocks| && blocks[i] == b;
      LastOfDistinct(blocks, n, i, |blocks|);
    }
  }

  lemma SameMembers<T>(a: seq<T>, b: seq<T>)
    requires multiset(a) == multiset(b)
    ensures forall x :: x in a <==> x in b
  {
    forall x ensures x in a <==> x in b {
      assert x in a <==> x in multiset(a);
    }
  }

  /** Declaration order does not matter: with the same effective blocks, the
      same outcome is reported and a successful run has the same registry. */
  lemma OutcomeIgnoresOrder<B, P>(c: Chains<B, P>, blocks: seq<Block<B>>)
    requires forall n :: LastBlock(c.blocks, n) == LastBlock(blocks, n)
    ensures SelfReferring(c.blocks) == SelfReferring(blocks)
    ensures HasCycle(c.blocks) == HasCycle(blocks)
    ensures Missing(c) == Missing(c.(blocks := blocks))
    ensures forall r :: Solves(c, r) == Solves(c.(blocks := blocks), r)
  {
    var o := c.(blocks := blocks);
    forall n ensures Edge(c.blocks, n) == Edge(blocks, n) {}
    forall n, k: nat
      ensures Hop(c.blocks, n, k) == Hop(blocks, n, k)
      ensures Grounded(c.blocks, n, k) == Grounded(blocks, n, k)
      ensures Grounded(c.blocks, n, k) ==> Form(c, n, k) == Form(o, n, k)
    {
      SameChains(c, o, n, k);
    }
    forall r, n
      ensures (match Edge(c.blocks, n)
               case None => Lookup(r, n) == Lookup(c.registry, n)
               case Some(d) => d in r && Lookup(r, n) == Layer(c, n, Lookup(r, d)))
           == (match Edge(o.blocks, n)
               case None => Lookup(r, n) == Lookup(o.registry, n)
               case Some(d) => d in r && Lookup(r, n) == Layer(o, n, Lookup(r, d)))
    {
      if Edge(c.blocks, n).Some? {
        assert Layer(c, n, Lookup(r, Edge(c.blocks, n).value)) == Layer(o, n, Lookup(r, Edge(c.blocks, n).value));
      }
    }
  }

  lemma {:induction false} SameChains<B, P>(c: Chains<B, P>, o: Chains<B, P>, n: Name, k: nat)
    requires forall m :: LastBlock(c.blocks, m) == LastBlock(o.blocks, m)
    requires o == c.(blocks := o.blocks)
    ensures Hop(c.blocks, n, k) == Hop(o.blocks, n, k)
    ensures Grounded(c.blocks, n, k) == Grounded(o.blocks, n, k)
    ensures Grounded(c.blocks, n, k) ==> Form(c, n, k) == Form(o, n, k)
    decreases k
  {
    assert LastBlock(c.blocks, n) == LastBlock(o.blocks, n);
    if k > 0 && Edge(c.blocks, n).Some? {
      SameChains(c, o, Edge(c.blocks, n).value, k - 1);
    }
  }
}
