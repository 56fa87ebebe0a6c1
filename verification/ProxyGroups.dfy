/** Proxy-group resolution: the multi-pass loop of `rebuild_from_raw_impl`
    over the strict and lenient forms of `parse_proxy_group_inner`.

    Groups may name other groups. The loop retries the groups that still name
    an unknown member until a pass builds nothing, then builds what is left
    with the unknown members dropped. The module proves that the strict passes
    reach the least fixpoint of "all named members are present".
 */
module ProxyGroups {
  import opened Common

  type Name = string

  datatype Group = Group(
    name: Name,
    kind: string,
    proxies: Option<seq<Name>>,
    includeAllProxies: Option<bool>,
    useProviders: Option<seq<Name>>,
    includeAll: Option<bool>,
    strategy: Option<string>,
    filter: Option<string>)

  /** What is outside the loop: the known proxy providers, whether a group's
      filter compiles, the iteration order of a hash map, and the adapter made
      of a group, its static members and its provider slots. */
  datatype Env<!P> = Env(
    providers: set<Name>,
    filterCompiles: Group -> bool,
    order: set<Name> -> seq<Name>,
    make: (Group, seq<P>, seq<Name>) -> P)

  /** A hash map hands out every key once, in an order of its own. */
  ghost predicate Enumerates(order: set<Name> -> seq<Name>) {
    forall s :: multiset(order(s)) == multiset(s)
  }

  function OrElse<T>(o: Option<T>, d: T): T {
    if o.Some? then o.value else d
  }

  function Named(g: Group): seq<Name> { OrElse(g.proxies, []) }

  /** The named members that are registered, in declaration order. */
  function Known(names: seq<Name>, keys: set<Name>): seq<Name> {
    if names == [] then []
    else (if names[0] in keys then [names[0]] else []) + Known(names[1..], keys)
  }

  function Slots<P>(env: Env<P>, g: Group): seq<Name> {
    if OrElse(g.includeAll, false) then env.order(env.providers)
    else Known(OrElse(g.useProviders, []), env.providers)
  }

  /** The static members of a group over the registered names `keys`. */
  function Members<P>(env: Env<P>, g: Group, keys: set<Name>): seq<Name> {
    (if OrElse(g.includeAllProxies, false) then env.order(keys) else []) + Known(Named(g), keys)
  }

  predicate KindAccepts(g: Group, members: nat) {
    match g.kind
    case "select" => true
    case "url-test" => true
    case "fallback" => true
    case "load-balance" => OrElse(g.strategy, "round-robin") in {"round-robin", "consistent-hashing"}
    case "relay" => members >= 2
    case _ => false
  }

  predicate Buildable<P>(env: Env<P>, g: Group, keys: set<Name>) {
    var n := |Members(env, g, keys)|;
    env.filterCompiles(g) && (n > 0 || Slots(env, g) != []) && KindAccepts(g, n)
  }

  predicate AllNamedPresent(g: Group, keys: set<Name>) {
    forall m :: m in Named(g) ==> m in keys
  }

  predicate StrictlyBuildable<P>(env: Env<P>, g: Group, keys: set<Name>) {
    AllNamedPresent(g, keys) && Buildable(env, g, keys)
  }

  // ---- The same without the model's own notions ----

  /** The positions of the names that are among `keys`. */
  function Hits(names: seq<Name>, keys: set<Name>): set<nat> {
    set i: nat | i < |names| && names[i] in keys
  }

  /** Names are kept in order: a present one stands behind as many as were present
      before it, and there are no others. */
  lemma {:induction false} KnownInOrder(names: seq<Name>, keys: set<Name>)
    ensures |Known(names, keys)| == |Hits(names, keys)|
    ensures forall i: nat :: i < |names| && names[i] in keys ==>
              |Hits(names[..i], keys)| < |Known(names, keys)| &&
                Known(names, keys)[|Hits(names[..i], keys)|] == names[i]
    decreases |names|
  {
    if names != [] {
      var init, last := names[..|names| - 1], names[|names| - 1];
      KnownInOrder(init, keys);
      KnownSplits(init, [last], keys);
      assert init + [last] == names;
      HitsSnoc(names, keys);
      forall i: nat | i < |names| && names[i] in keys
        ensures |Hits(names[..i], keys)| < |Known(names, keys)| &&
                Known(names, keys)[|Hits(names[..i], keys)|] == names[i]
      {
        if i < |init| { assert init[..i] == names[..i] && init[i] == names[i]; }
      }
    }
  }

  lemma HitsSnoc(names: seq<Name>, keys: set<Name>)
    requires names != []
    ensures var init, k := names[..|names| - 1], |names| - 1;
      Hits(names, keys) == Hits(init, keys) + (if names[k] in keys then {k} else {}) && k !in Hits(init, keys)
  {
  }

  /** How many members the group has among the registered names. */
  function Headcount(g: Group, keys: set<Name>): nat {
    (if g.includeAllProxies == Some(true) then |keys| else 0)
    + if g.proxies.Some? then |Hits(g.proxies.value, keys)| else 0
  }

  /** The group has a provider to draw members from. */
  ghost predicate HasProvider<P>(env: Env<P>, g: Group) {
    if g.includeAll == Some(true) then env.providers != {}
    else g.useProviders.Some? && exists n :: n in g.useProviders.value && n in env.providers
  }

  /** Which groups of a type can be built from how many members. */
  ghost predicate Fits<P>(env: Env<P>, g: Group, keys: set<Name>) {
    var staffed := Headcount(g, keys) > 0 || HasProvider(env, g);
    if g.kind in {"select", "url-test", "fallback"} then staffed
    else if g.kind == "load-balance" then
      staffed && (g.strategy.None? || g.strategy.value in {"round-robin", "consistent-hashing"})
    else g.kind == "relay" && Headcount(g, keys) >= 2
  }

  ghost predicate FitsStrictly<P>(env: Env<P>, g: Group, keys: set<Name>) {
    Fits(env, g, keys) && (g.proxies.Some? ==> forall m :: m in g.proxies.value ==> m in keys)
  }

  /** A group is buildable exactly when its filter compiles and it fits. */
  lemma BuildableIff<P>(env: Env<P>, g: Group, keys: set<Name>)
    requires Enumerates(env.order)
    ensures Buildable(env, g, keys) <==> env.filterCompiles(g) && Fits(env, g, keys)
    ensures StrictlyBuildable(env, g, keys) <==> env.filterCompiles(g) && FitsStrictly(env, g, keys)
    ensures |Members(env, g, keys)| == Headcount(g, keys)
  {
    KnownInOrder(Named(g), keys);
    assert |multiset(env.order(keys))| == |keys|;
    SlotsIff(env, g);
  }

  lemma SlotsIff<P>(env: Env<P>, g: Group)
    requires Enumerates(env.order)
    ensures Slots(env, g) != [] <==> HasProvider(env, g)
  {
    var wanted := OrElse(g.useProviders, []);
    KnownInOrder(wanted, env.providers);
    assert multiset(env.order(env.providers)) == multiset(env.providers);
    assert |multiset(env.order(env.providers))| == |env.providers|;
    if n :| n in wanted && n in env.providers {
      var i :| 0 <= i < |wanted| && wanted[i] == n;
      assert i in Hits(wanted, env.providers);
    }
    if i :| i in Hits(wanted, env.providers) {
      assert wanted[i] in wanted;
    }
  }

  lemma {:induction false} KnownAreKeys(names: seq<Name>, keys: set<Name>)
    ensures forall i :: 0 <= i < |Known(names, keys)| ==> Known(names, keys)[i] in keys
  {
    if names != [] { KnownAreKeys(names[1..], keys); }
  }

  lemma MembersAreKeys<P>(env: Env<P>, g: Group, keys: set<Name>)
    requires Enumerates(env.order)
    ensures forall i :: 0 <= i < |Members(env, g, keys)| ==> Members(env, g, keys)[i] in keys
  {
    KnownAreKeys(Named(g), keys);
    var all := env.order(keys);
    forall i | 0 <= i < |all| ensures all[i] in keys {
      assert all[i] in multiset(all);
    }
  }

  /** The entries a list of names stands for. */
  function Entries<P>(names: seq<Name>, registry: map<Name, P>): (r: seq<P>)
    requires forall i :: 0 <= i < |names| ==> names[i] in registry
    ensures |r| == |names|
    ensures forall i :: 0 <= i < |names| ==> r[i] == registry[names[i]]
  {
    seq(|names|, (i: nat) requires i < |names| && names[i] in registry => registry[names[i]])
  }

  /** The adapter built for a group from the entries of a registry. */
  function Made<P>(env: Env<P>, g: Group, registry: map<Name, P>): P
    requires forall i :: 0 <= i < |Members(env, g, registry.Keys)| ==> Members(env, g, registry.Keys)[i] in registry
  {
    env.make(g, Entries(Members(env, g, registry.Keys), registry), Slots(env, g))
  }

  lemma {:induction false} KnownSplits(a: seq<Name>, b: seq<Name>, keys: set<Name>)
    ensures Known(a + b, keys) == Known(a, keys) + Known(b, keys)
  {
    if a == [] {
      assert a + b == b;
    } else {
      KnownSplits(a[1..], b, keys);
      assert (a + b)[1..] == a[1..] + b && (a + b)[0] == a[0];
      var head := if a[0] in keys then [a[0]] else [];
      assert head + (Known(a[1..], keys) + Known(b, keys)) == (head + Known(a[1..], keys)) + Known(b, keys);
    }
  }

  /** The member-collecting half of `parse_proxy_group_inner`. */
  method CollectMembers<P>(env: Env<P>, g: Group, existing: map<Name, P>, strict: bool) returns (r: Option<seq<P>>)
    requires Enumerates(env.order)
    requires forall i :: 0 <= i < |Members(env, g, existing.Keys)| ==> Members(env, g, existing.Keys)[i] in existing
    ensures r.None? <==> strict && !AllNamedPresent(g, existing.Keys)
    ensures r.Some? ==> r.value == Entries(Members(env, g, existing.Keys), existing)
  {
    hide Enumerates;
    ghost var want := Members(env, g, existing.Keys);
    var all := if OrElse(g.includeAllProxies, false) then env.order(existing.Keys) else [];
    assert forall i :: 0 <= i < |all| ==> all[i] == want[i];
    var proxies := Entries(all, existing);
    var names := Named(g);
    for i := 0 to |names|
      invariant strict ==> forall j :: 0 <= j < i ==> names[j] in existing
      invariant all + Known(names[..i], existing.Keys) <= want
      invariant proxies == Entries((all + Known(names[..i], existing.Keys)), existing)
    {
      KnownStep(names, i, existing.Keys);
      if names[i] in existing {
        proxies := proxies + [existing[names[i]]];
      } else if strict {
        return None;
      }
    }
    assert names[..|names|] == names;
    return Some(proxies);
  }

  lemma KnownStep(names: seq<Name>, i: nat, keys: set<Name>)
    requires i < |names|
    ensures Known(names[..i + 1], keys) == Known(names[..i], keys) + (if names[i] in keys then [names[i]] else [])
    ensures Known(names[..i + 1], keys) <= Known(names, keys)
  {
    assert names == names[..i + 1] + names[i + 1..];
    assert names[..i + 1] == names[..i] + [names[i]];
    KnownSplits(names[..i + 1], names[i + 1..], keys);
    KnownSplits(names[..i], [names[i]], keys);
  }

  /** `parse_proxy_group_inner`: the members, then the checks and the dispatch. */
  method ParseGroup<P>(env: Env<P>, g: Group, existing: map<Name, P>, strict: bool) returns (r: Option<P>)
    requires Enumerates(env.order)
    ensures r.Some? <==> (if strict then StrictlyBuildable(env, g, existing.Keys) else Buildable(env, g, existing.Keys))
    // By group type, without the predicates above.
    ensures r.Some? <==>
            env.filterCompiles(g) && if strict then FitsStrictly(env, g, existing.Keys) else Fits(env, g, existing.Keys)
    ensures r.Some? ==>
              && (forall i :: 0 <= i < |Members(env, g, existing.Keys)| ==>
                Members(env, g, existing.Keys)[i] in existing)
              && r.value == Made(env, g, existing)
  {
    hide Fits, FitsStrictly;
    BuildableIff(env, g, existing.Keys);
    MembersAreKeys(env, g, existing.Keys);
    var collected := CollectMembers(env, g, existing, strict);
    if collected.None? { return None; }
    var proxies := collected.value;
    if !env.filterCompiles(g) { return None; }
    var slots := Slots(env, g);
    if proxies == [] && slots == [] { return None; }
    if !KindAccepts(g, |proxies|) { return None; }
    return Some(env.make(g, proxies, slots));
  }

  // ---------------------------------------------------------------------
  // More names never make a group harder to build.
  // ---------------------------------------------------------------------

  lemma {:induction false} KnownGrows(names: seq<Name>, keys: set<Name>, more: set<Name>)
    requires keys <= more
    ensures |Known(names, keys)| <= |Known(names, more)|
  {
    if names != [] { KnownGrows(names[1..], keys, more); }
  }

  lemma CardinalityGrows(a: set<Name>, b: set<Name>)
    requires a <= b
    ensures |a| <= |b|
  {
    assert b == a + (b - a);
  }

  lemma BuildableGrows<P>(env: Env<P>, g: Group, keys: set<Name>, more: set<Name>)
    requires Enumerates(env.order) && keys <= more
    ensures Buildable(env, g, keys) ==> Buildable(env, g, more)
    ensures StrictlyBuildable(env, g, keys) ==> StrictlyBuildable(env, g, more)
  {
    KnownGrows(Named(g), keys, more);
    CardinalityGrows(keys, more);
    assert |multiset(env.order(keys))| == |keys|;
    assert |multiset(env.order(more))| == |more|;
  }

  // ---------------------------------------------------------------------
  // The least fixpoint.
  // ---------------------------------------------------------------------

  /** `keys` holds the initial names and every group it lets one build. */
  ghost predicate Closed<P>(env: Env<P>, initial: set<Name>, groups: seq<Group>, keys: set<Name>) {
    && initial <= keys
    && forall g :: g in groups && StrictlyBuildable(env, g, keys) ==> g.name in keys
  }

  ghost predicate LeastFixpoint<P>(env: Env<P>, initial: set<Name>, groups: seq<Group>, keys: set<Name>) {
    && Closed(env, initial, groups, keys)
    && forall other :: Closed(env, initial, groups, other) ==> keys <= other
  }

  /** The names registered by the strict passes that leave `leftover` behind. */
  function StrictKeys(initial: set<Name>, groups: seq<Group>, leftover: seq<Group>): set<Name> {
    initial + set g | g in groups && g !in leftover :: g.name
  }

  /** Group names are pairwise different and new to the registry, so that no
      entry is ever replaced. */
  predicate NothingReplaced(initial: set<Name>, groups: seq<Group>) {
    && (forall i, j :: 0 <= i < j < |groups| ==> groups[i].name != groups[j].name)
    && (forall i :: 0 <= i < |groups| ==> groups[i].name !in initial)
  }

  /** A group without `include-all-proxies` holds the registry's own entries. */
  ghost predicate HoldsEntriesOf<P>(env: Env<P>, g: Group, registry: map<Name, P>) {
    && g.name in registry
    && AllNamedPresent(g, registry.Keys)
    && registry[g.name] == env.make(g, Entries(Named(g), registry), Slots(env, g))
  }

  ghost predicate Plain(g: Group) { !OrElse(g.includeAllProxies, false) }

  lemma {:induction false} AllKnown(names: seq<Name>, keys: set<Name>)
    requires forall m :: m in names ==> m in keys
    ensures Known(names, keys) == names
  {
    if names != [] { AllKnown(names[1..], keys); }
  }

  /** Where the strict passes stand. `waiting` are the groups not built yet. */
  ghost predicate Strict<P>(env: Env<P>, initial: map<Name, P>, groups: seq<Group>, registry: map<Name, P>,
                            waiting: seq<Group>) {
    && initial.Keys <= registry.Keys
    && (forall g :: g in waiting ==> g in groups)
    && (forall g :: g in groups ==> g in waiting || (g.name in registry && StrictlyBuildable(env, g, registry.Keys)))
    && (forall n :: n in registry ==>
      n in initial || exists g :: g in groups && g.name == n && StrictlyBuildable(env, g, registry.Keys))
    && (forall other :: Closed(env, initial.Keys, groups, other) ==> registry.Keys <= other)
  }

  /** Part of the standing that needs `NothingReplaced`: entries are final. */
  ghost predicate Settled<P>(env: Env<P>, initial: map<Name, P>, groups: seq<Group>, registry: map<Name, P>,
                             waiting: seq<Group>) {
    && (forall n :: n in initial ==> n in registry && registry[n] == initial[n])
    && (forall i, j :: 0 <= i < j < |waiting| ==> waiting[i].name != waiting[j].name)
    && (forall i :: 0 <= i < |waiting| ==> waiting[i].name !in registry)
    && (forall g :: g in groups && g !in waiting && Plain(g) ==> HoldsEntriesOf(env, g, registry))
  }

  lemma StrictAfterBuild<P>(env: Env<P>, initial: map<Name, P>, groups: seq<Group>, registry: map<Name, P>,
                            before: seq<Group>, after: seq<Group>, g: Group, p: P)
    requires Enumerates(env.order)
    requires Strict(env, initial, groups, registry, before)
    requires g in groups && StrictlyBuildable(env, g, registry.Keys)
    requires forall h :: h in before ==> h in after || h == g
    requires forall h :: h in after ==> h in before
    ensures Strict(env, initial, groups, registry[g.name := p], after)
  {
    var grown := registry[g.name := p];
    forall h {:trigger StrictlyBuildable(env, h, grown.Keys)} | StrictlyBuildable(env, h, registry.Keys)
      ensures StrictlyBuildable(env, h, grown.Keys)
    {
      BuildableGrows(env, h, registry.Keys, grown.Keys);
    }
    forall other | Closed(env, initial.Keys, groups, other)
      ensures grown.Keys <= other
    {
      BuildableGrows(env, g, registry.Keys, other);
    }
  }

  lemma SettledAfterBuild<P>(env: Env<P>, initial: map<Name, P>, groups: seq<Group>, registry: map<Name, P>,
                             still: seq<Group>, rest: seq<Group>, g: Group)
    requires Enumerates(env.order)
    requires Settled(env, initial, groups, registry, still + [g] + rest)
    requires StrictlyBuildable(env, g, registry.Keys)
    requires forall i :: 0 <= i < |Members(env, g, registry.Keys)| ==> Members(env, g, registry.Keys)[i] in registry
    ensures Settled(env, initial, groups, registry[g.name := Made(env, g, registry)], still + rest)
  {
    var before := still + [g] + rest;
    var after := still + rest;
    var grown := registry[g.name := Made(env, g, registry)];
    assert before[|still|] == g;
    assert g.name !in registry;
    assert forall i :: 0 <= i < |after| ==> after[i] == before[if i < |still| then i else i + 1];
    forall h | h in groups && h !in after && Plain(h)
      ensures HoldsEntriesOf(env, h, grown)
    {
      if h == g {
        AllKnown(Named(g), registry.Keys);
        assert Members(env, g, registry.Keys) == Named(g);
        assert g.name !in Named(g);
        assert Entries(Named(g), registry) == Entries(Named(g), grown);
      } else {
        assert h !in before;
        assert g.name !in Named(h);
        assert Entries(Named(h), registry) == Entries(Named(h), grown);
      }
    }
  }

  /** One strict pass over the remaining groups. */
  method StrictPass<P>(env: Env<P>, ghost initial: map<Name, P>, ghost groups: seq<Group>, registry0: map<Name, P>,
                       remaining: seq<Group>)
    returns (registry: map<Name, P>, still: seq<Group>)
    requires Enumerates(env.order)
    requires Strict(env, initial, groups, registry0, remaining)
    requires NothingReplaced(initial.Keys, groups) ==> Settled(env, initial, groups, registry0, remaining)
    ensures |still| <= |remaining|
    ensures Strict(env, initial, groups, registry, still)
    ensures NothingReplaced(initial.Keys, groups) ==> Settled(env, initial, groups, registry, still)
    ensures |still| == |remaining| ==> still == remaining && registry == registry0
    ensures |still| == |remaining| ==> forall g :: g in still ==> !StrictlyBuildable(env, g, registry.Keys)
  {
    hide Strict, Settled, NothingReplaced, StrictlyBuildable, FitsStrictly, Enumerates;
    registry, still := registry0, [];
    assert still + remaining[0..] == remaining;
    for i := 0 to |remaining|
      invariant |still| <= i
      invariant Strict(env, initial, groups, registry, still + remaining[i..])
      invariant NothingReplaced(initial.Keys, groups) ==>
                Settled(env, initial, groups, registry, still + remaining[i..])
      invariant |still| == i ==> still == remaining[..i] && registry == registry0
      invariant |still| == i ==> forall g :: g in still ==> !StrictlyBuildable(env, g, registry0.Keys)
    {
      var g := remaining[i];
      assert remaining[i..] == [g] + remaining[i + 1..];
      assert still + remaining[i..] == still + [g] + remaining[i + 1..];
      var built := ParseGroup(env, g, registry, true);
      if built.Some? {
        if NothingReplaced(initial.Keys, groups) {
          SettledAfterBuild(env, initial, groups, registry, still, remaining[i + 1..], g);
        }
        WaitingAreGroups(env, initial, groups, registry, still + [g] + remaining[i + 1..], |still|);
        StrictAfterBuild(env, initial, groups, registry, still + [g] + remaining[i + 1..], still + remaining[i + 1..],
          g, built.value);
        registry := registry[g.name := built.value];
      } else {
        still := still + [g];
      }
    }
    assert still + remaining[|remaining|..] == still;
    assert remaining[..|remaining|] == remaining;
  }

  lemma WaitingAreGroups<P>(env: Env<P>, initial: map<Name, P>, groups: seq<Group>, registry: map<Name, P>,
                            waiting: seq<Group>, i: nat)
    requires Strict(env, initial, groups, registry, waiting) && i < |waiting|
    ensures waiting[i] in groups
  {
  }

  lemma Start<P>(env: Env<P>, initial: map<Name, P>, groups: seq<Group>)
    ensures Strict(env, initial, groups, initial, groups)
    ensures NothingReplaced(initial.Keys, groups) ==> Settled(env, initial, groups, initial, groups)
  {
  }

  lemma Stalled<P>(env: Env<P>, initial: map<Name, P>, groups: seq<Group>, registry: map<Name, P>, leftover: seq<Group>)
    requires Strict(env, initial, groups, registry, leftover)
    requires forall g :: g in leftover ==> !StrictlyBuildable(env, g, registry.Keys)
    ensures registry.Keys == StrictKeys(initial.Keys, groups, leftover)
    ensures LeastFixpoint(env, initial.Keys, groups, registry.Keys)
    ensures forall g :: g in groups ==> (g in leftover <==> !StrictlyBuildable(env, g, registry.Keys))
  {
    forall n | n in registry.Keys
      ensures n in StrictKeys(initial.Keys, groups, leftover)
    {
      if n !in initial {
        var g :| g in groups && g.name == n && StrictlyBuildable(env, g, registry.Keys);
        assert g !in leftover;
      }
    }
  }

  /** The whole loop: strict passes within the budget of one more than the
      number of groups, then one lenient pass over what is left. */
  method BuildGroups<P>(env: Env<P>, initial: map<Name, P>, groups: seq<Group>)
    returns (registry: map<Name, P>, leftover: seq<Group>)
    requires Enumerates(env.order)
    // The strict passes stop at the least fixpoint, and only there.
    ensures LeastFixpoint(env, initial.Keys, groups, StrictKeys(initial.Keys, groups, leftover))
    ensures forall g :: g in groups ==>
              (g in leftover <==> !StrictlyBuildable(env, g, StrictKeys(initial.Keys, groups, leftover)))
    // The lenient pass only adds names of leftover groups, and adds every one
    // that can be built from the names known at the stall.
    ensures StrictKeys(initial.Keys, groups, leftover) <= registry.Keys
    ensures forall n :: n in registry.Keys - StrictKeys(initial.Keys, groups, leftover) ==>
              exists g :: g in leftover && g.name == n && Buildable(env, g, registry.Keys)
    ensures forall g :: g in leftover && Buildable(env, g, StrictKeys(initial.Keys, groups, leftover)) ==>
            g.name in registry
    // When nothing is replaced, the initial entries stay and every group built
    // strictly holds the registry's own final entries.
    ensures NothingReplaced(initial.Keys, groups) ==>
              && (forall n :: n in initial ==> n in registry && registry[n] == initial[n])
              && (forall g :: g in groups && g !in leftover && Plain(g) ==> HoldsEntriesOf(env, g, registry))
  {
    hide Strict, LeastFixpoint, NothingReplaced, StrictlyBuildable, Buildable, HoldsEntriesOf, Lenient;
    registry := initial;
    var remaining := groups;
    var maxPasses := |remaining| + 1;
    Start(env, initial, groups);
    while remaining != [] && maxPasses > 0
      invariant maxPasses >= |remaining| + 1
      invariant Strict(env, initial, groups, registry, remaining)
      invariant NothingReplaced(initial.Keys, groups) ==> Settled(env, initial, groups, registry, remaining)
      decreases maxPasses
    {
      maxPasses := maxPasses - 1;
      var registry', still := StrictPass(env, initial, groups, registry, remaining);
      registry := registry';
      if |still| == |remaining| {
        leftover := still;
        Stalled(env, initial, groups, registry, leftover);
        ghost var before := registry;
        registry := LenientPass(env, registry, leftover);
        if NothingReplaced(initial.Keys, groups) { SettledSurvives(env, initial, groups, before, leftover, registry); }
        return;
      }
      remaining := still;
    }
    leftover := [];
    Stalled(env, initial, groups, registry, leftover);
  }

  /** The lenient pass: each leftover group in turn, from whatever is there. */
  function Lenient<P>(env: Env<P>, registry: map<Name, P>, leftover: seq<Group>): map<Name, P>
    decreases |leftover|
  {
    if leftover == [] then registry
    else
      var before, g := Lenient(env, registry, leftover[..|leftover| - 1]), leftover[|leftover| - 1];
      if Buildable(env, g, before.Keys)
         && (forall i :: 0 <= i < |Members(env, g, before.Keys)| ==> Members(env, g, before.Keys)[i] in before)
      then before[g.name := Made(env, g, before)] else before
  }

  method LenientPass<P>(env: Env<P>, registry0: map<Name, P>, leftover: seq<Group>) returns (registry: map<Name, P>)
    requires Enumerates(env.order)
    ensures registry == Lenient(env, registry0, leftover)
    ensures forall n :: n in registry0 && (forall g :: g in leftover ==> g.name != n) ==>
            n in registry && registry[n] == registry0[n]
    ensures registry0.Keys <= registry.Keys
    ensures forall n :: n in registry.Keys - registry0.Keys ==>
              exists g :: g in leftover && g.name == n && Buildable(env, g, registry.Keys)
    ensures forall g :: g in leftover && Buildable(env, g, registry0.Keys) ==> g.name in registry
  {
    hide Buildable, Fits;
    registry := registry0;
    for i := 0 to |leftover|
      invariant registry == Lenient(env, registry0, leftover[..i])
      invariant forall n :: n in registry0 && (forall g :: g in leftover ==> g.name != n) ==>
                n in registry && registry[n] == registry0[n]
      invariant registry0.Keys <= registry.Keys
      invariant forall n :: n in registry.Keys - registry0.Keys ==>
                  exists g :: g in leftover && g.name == n && Buildable(env, g, registry.Keys)
      invariant forall j :: 0 <= j < i && Buildable(env, leftover[j], registry0.Keys) ==> leftover[j].name in registry
    {
      var g := leftover[i];
      assert leftover[..i + 1][..i] == leftover[..i] && leftover[..i + 1][i] == g;
      BuildableGrows(env, g, registry0.Keys, registry.Keys);
      var built := ParseGroup(env, g, registry, false);
      if built.Some? {
        var grown := registry[g.name := built.value];
        BuildableGrows(env, g, registry.Keys, grown.Keys);
        forall n | n in grown.Keys - registry0.Keys
          ensures exists h :: h in leftover && h.name == n && Buildable(env, h, grown.Keys)
        {
          if n != g.name {
            assert n in registry.Keys - registry0.Keys;
            var h :| h in leftover && h.name == n && Buildable(env, h, registry.Keys);
            BuildableGrows(env, h, registry.Keys, grown.Keys);
          }
        }
        registry := grown;
      }
    }
    assert leftover[..|leftover|] == leftover;
  }

  lemma SameEntries<P>(names: seq<Name>, a: map<Name, P>, b: map<Name, P>)
    requires forall m :: m in names ==> m in a && m in b && a[m] == b[m]
    ensures Entries(names, a) == Entries(names, b)
  {
    assert forall i :: 0 <= i < |names| ==> names[i] in names;
  }

  /** The lenient pass leaves what the strict passes settled as it was. */
  lemma SettledSurvives<P>(env: Env<P>, initial: map<Name, P>, groups: seq<Group>, before: map<Name, P>,
                           leftover: seq<Group>, after: map<Name, P>)
    requires Settled(env, initial, groups, before, leftover)
    requires before.Keys <= after.Keys
    requires forall n :: n in before && (forall g :: g in leftover ==> g.name != n) ==>
             n in after && after[n] == before[n]
    ensures forall n :: n in initial ==> n in after && after[n] == initial[n]
    ensures forall g :: g in groups && g !in leftover && Plain(g) ==> HoldsEntriesOf(env, g, after)
  {
    assert forall n :: n in before ==> n in after && after[n] == before[n];
    forall g | g in groups && g !in leftover && Plain(g) ensures HoldsEntriesOf(env, g, after) {
      assert HoldsEntriesOf(env, g, before);
      SameEntries(Named(g), before, after);
    }
  }

  /** Declaration order does not matter to the strict passes. */
  lemma StrictKeysIgnoreOrder<P>(env: Env<P>, initial: set<Name>, groups: seq<Group>, other: seq<Group>, k1: set<Name>,
                                 k2: set<Name>)
    requires multiset(groups) == multiset(other)
    requires LeastFixpoint(env, initial, groups, k1) && LeastFixpoint(env, initial, other, k2)
    ensures k1 == k2
  {
    forall g ensures g in groups <==> g in other {
      assert g in groups <==> g in multiset(groups);
    }
    assert Closed(env, initial, other, k1);
    assert Closed(env, initial, groups, k2);
  }
}
