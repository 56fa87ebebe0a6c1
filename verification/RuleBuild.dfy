/** Building the compiled set: one pass over the rules, then the domain index. */
module RuleBuild {
  import opened Common
  import opened DomainTrie
  import opened Rules
  import opened RuleCoverage
  import opened DomainIndex
  import opened RuleCompiler

  datatype Slot = Slot(index: nat, ruleType: RuleType, payload: string, adapter: string,
                       demandsIp: bool, demandsProcess: bool, op: Op)

  function SlotOf(rules: seq<Rule>, pf: Platform, i: nat): Slot
    requires i < |rules|
  {
    var rule := rules[i];
    Slot(i, TypeOf(rule), PayloadOf(rule), AdapterOf(rule), DemandsIp(rule), DemandsProcess(rule), OpOf(rule, pf))
  }

  /** The slots of the live rules before n. */
  function SlotsUpTo(rules: seq<Rule>, pf: Platform, fates: seq<Fate>, n: nat): seq<Slot>
    requires n <= |rules|
  {
    if n == 0 then []
    else SlotsUpTo(rules, pf, fates, n - 1) + if LiveAt(fates, n - 1) then [SlotOf(rules, pf, n - 1)] else []
  }

  // ---------------------------------------------------------------------
  // Earlier fates decide.
  // ---------------------------------------------------------------------

  lemma LiveInBoth(a: seq<Fate>, b: seq<Fate>, t: nat)
    requires t < |a| && t < |b| && a[t] == b[t]
    ensures LiveAt(a, t) == LiveAt(b, t) && Considered(a, t) == Considered(b, t)
  {}

  ghost predicate SameBefore(a: seq<Fate>, b: seq<Fate>, n: nat) {
    n <= |a| && n <= |b| && forall t :: 0 <= t < n ==> a[t] == b[t]
  }

  lemma {:induction false} OracleFromPrefix(rules: seq<Rule>, pf: Platform, a: seq<Fate>, b: seq<Fate>, n: nat)
    requires n <= |rules| && SameBefore(a, b, n)
    ensures OracleAt(rules, pf, a, n) == OracleAt(rules, pf, b, n)
    decreases n
  {
    hide OpOf, Absorb;
    if n > 0 { OracleFromPrefix(rules, pf, a, b, n - 1); }
  }

  lemma {:induction false} CoverageFromPrefix(rules: seq<Rule>, pf: Platform, a: seq<Fate>, b: seq<Fate>, n: nat,
      src: bool)
    requires n <= |rules| && SameBefore(a, b, n)
    ensures CoverageAt(rules, pf, a, n, src) == CoverageAt(rules, pf, b, n, src)
    decreases n
  {
    hide OpOf, AbsorbNet;
    if n > 0 { CoverageFromPrefix(rules, pf, a, b, n - 1, src); }
  }

  lemma {:induction false} SlotsFromPrefix(rules: seq<Rule>, pf: Platform, a: seq<Fate>, b: seq<Fate>, n: nat)
    requires n <= |rules| && SameBefore(a, b, n)
    ensures SlotsUpTo(rules, pf, a, n) == SlotsUpTo(rules, pf, b, n)
    decreases n
  {
    hide SlotOf;
    if n > 0 { SlotsFromPrefix(rules, pf, a, b, n - 1); }
  }

  lemma FateFromPrefix(rules: seq<Rule>, pf: Platform, a: seq<Fate>, b: seq<Fate>, i: nat)
    requires i < |rules| && SameBefore(a, b, i)
    ensures FateOf(rules, pf, a, i) == FateOf(rules, pf, b, i)
  {
    hide OpOf, KeyOf, DemandsIp, Shadows, CoversNet, IsDead;
    OracleFromPrefix(rules, pf, a, b, i);
    CoverageFromPrefix(rules, pf, a, b, i, true);
    CoverageFromPrefix(rules, pf, a, b, i, false);
    forall t | 0 <= t < i
      ensures LiveAt(a, t) == LiveAt(b, t) && Considered(a, t) == Considered(b, t)
      ensures Twin(rules, pf, a, t, i) == Twin(rules, pf, b, t, i)
    {
      LiveInBoth(a, b, t);
    }
  }

  // ---------------------------------------------------------------------
  // The pass over the rules.
  // ---------------------------------------------------------------------

  ghost predicate FatedSoFar(rules: seq<Rule>, pf: Platform, fates: seq<Fate>) {
    |fates| <= |rules| && forall i :: 0 <= i < |fates| ==> fates[i] == FateOf(rules, pf, fates, i)
  }

  predicate ProcessDemandedBefore(rules: seq<Rule>, fates: seq<Fate>, i: nat)
    requires i <= |rules|
  {
    exists t :: 0 <= t < i && LiveAt(fates, t) && DemandsProcess(rules[t])
  }

  ghost predicate SeenKeys(rules: seq<Rule>, pf: Platform, fates: seq<Fate>, seen: set<Key>)
    requires |fates| <= |rules|
  {
    forall key :: key in seen <==>
      exists t :: 0 <= t < |fates| && Considered(fates, t) && KeyOf(rules[t], pf) == Some(key)
  }

  datatype Pass = Pass(slots: seq<Slot>, seen: set<Key>, oracle: Oracle, dst: Coverage, src: Coverage,
                       needsIp: bool, needsProcess: bool)

  /** The variables of the pass stand for the rules read so far. */
  ghost predicate Tracks(rules: seq<Rule>, pf: Platform, fates: seq<Fate>, p: Pass) {
    && FatedSoFar(rules, pf, fates)
    && p.slots == SlotsUpTo(rules, pf, fates, |fates|)
    && SeenKeys(rules, pf, fates, p.seen)
    && p.oracle == OracleAt(rules, pf, fates, |fates|)
    && p.dst == CoverageAt(rules, pf, fates, |fates|, false)
    && p.src == CoverageAt(rules, pf, fates, |fates|, true)
    && (p.needsIp <==> IpDemandedBefore(rules, fates, |fates|))
    && (p.needsProcess <==> ProcessDemandedBefore(rules, fates, |fates|))
  }

  lemma FatedGrows(rules: seq<Rule>, pf: Platform, fates: seq<Fate>, f: Fate)
    requires FatedSoFar(rules, pf, fates) && |fates| < |rules| && f == FateOf(rules, pf, fates, |fates|)
    ensures FatedSoFar(rules, pf, fates + [f])
    ensures SameBefore(fates, fates + [f], |fates|)
  {
    hide FateOf;
    var more := fates + [f];
    forall i | 0 <= i < |more| ensures more[i] == FateOf(rules, pf, more, i) {
      FateFromPrefix(rules, pf, fates, more, i);
    }
  }

  /** The fates of the first n rules, one after the other. */
  function FatesUpTo(rules: seq<Rule>, pf: Platform, n: nat): (fates: seq<Fate>)
    requires n <= |rules|
    ensures |fates| == n
  {
    if n == 0 then []
    else
      var before := FatesUpTo(rules, pf, n - 1);
      before + [FateOf(rules, pf, before, n - 1)]
  }

  function FatesOf(rules: seq<Rule>, pf: Platform): seq<Fate> {
    FatesUpTo(rules, pf, |rules|)
  }

  lemma SeenGrows(rules: seq<Rule>, pf: Platform, fates: seq<Fate>, seen: set<Key>, f: Fate)
    requires |fates| < |rules| && SeenKeys(rules, pf, fates, seen)
    ensures SeenKeys(rules, pf, fates + [f],
              if f !in {Dead, Unreachable} && KeyOf(rules[|fates|], pf).Some?
              then seen + {KeyOf(rules[|fates|], pf).value} else seen)
  {
    hide KeyOf;
    var more := fates + [f];
    assert forall t :: 0 <= t < |fates| ==> (Considered(more, t) <==> Considered(fates, t));
    assert Considered(more, |fates|) <==> f !in {Dead, Unreachable};
  }

  lemma DemandsGrow(rules: seq<Rule>, fates: seq<Fate>, f: Fate)
    requires |fates| < |rules|
    ensures IpDemandedBefore(rules, fates + [f], |fates| + 1) <==>
            IpDemandedBefore(rules, fates, |fates|) || (f.Live? && DemandsIp(rules[|fates|]))
    ensures ProcessDemandedBefore(rules, fates + [f], |fates| + 1) <==>
            ProcessDemandedBefore(rules, fates, |fates|) || (f.Live? && DemandsProcess(rules[|fates|]))
  {
    hide DemandsIp, DemandsProcess;
    var more := fates + [f];
    assert forall t :: 0 <= t < |fates| ==> (LiveAt(more, t) <==> LiveAt(fates, t));
    assert LiveAt(more, |fates|) <==> f.Live?;
  }

  /** The pass after rule |fates| met the fate f. */
  function Advance(rules: seq<Rule>, pf: Platform, p: Pass, i: nat, f: Fate): Pass
    requires i < |rules|
  {
    var rule, op := rules[i], OpOf(rules[i], pf);
    var seen := if f !in {Dead, Unreachable} && KeyOf(rule, pf).Some? then p.seen + {KeyOf(rule, pf).value} else p.seen;
    if !f.Live? then p.(seen := seen)
    else
      Pass(p.slots + [SlotOf(rules, pf, i)], seen, Absorb(p.oracle, op, PayloadOf(rule)),
           if op.IpCidr? && !op.src then AbsorbNet(p.dst, op.net) else p.dst,
           if op.IpCidr? && op.src then AbsorbNet(p.src, op.net) else p.src,
           p.needsIp || DemandsIp(rule), p.needsProcess || DemandsProcess(rule))
  }

  lemma TracksStep(rules: seq<Rule>, pf: Platform, fates: seq<Fate>, p: Pass, f: Fate)
    requires Tracks(rules, pf, fates, p) && |fates| < |rules| && f == FateOf(rules, pf, fates, |fates|)
    ensures Tracks(rules, pf, fates + [f], Advance(rules, pf, p, |fates|, f))
  {
    hide FateOf, OpOf, KeyOf, DemandsIp, DemandsProcess, Absorb, AbsorbNet, SlotOf, FatedSoFar, SeenKeys,
      IpDemandedBefore, ProcessDemandedBefore;
    var more, n := fates + [f], |fates|;
    FatedGrows(rules, pf, fates, f);
    SeenGrows(rules, pf, fates, p.seen, f);
    DemandsGrow(rules, fates, f);
    OracleFromPrefix(rules, pf, fates, more, n);
    CoverageFromPrefix(rules, pf, fates, more, n, true);
    CoverageFromPrefix(rules, pf, fates, more, n, false);
    SlotsFromPrefix(rules, pf, fates, more, n);
    assert LiveAt(more, n) <==> f.Live?;
    assert more[n] == f && |more| == n + 1;
  }

  lemma SeenIffTwin(rules: seq<Rule>, pf: Platform, fates: seq<Fate>, seen: set<Key>)
    requires |fates| < |rules| && SeenKeys(rules, pf, fates, seen)
    ensures HasTwin(rules, pf, fates, |fates|) <==>
            KeyOf(rules[|fates|], pf).Some? && KeyOf(rules[|fates|], pf).value in seen
  {
    hide KeyOf;
    var key := KeyOf(rules[|fates|], pf);
    forall t | 0 <= t < |fates|
      ensures Twin(rules, pf, fates, t, |fates|) <==> Considered(fates, t) && KeyOf(rules[t], pf) == key
    {}
  }

  /** `CompiledRuleSet::build`, the loop over the rules. */
  method CompileSlots(rules: seq<Rule>, pf: Platform) returns (p: Pass)
    ensures Tracks(rules, pf, FatesOf(rules, pf), p)
  {
    hide FateOf, OpOf, KeyOf, DemandsIp, DemandsProcess, Absorb, AbsorbNet, FatedSoFar, SeenKeys, Shadows,
      IpDemandedBefore, ProcessDemandedBefore, IsDead, Terminated, SlotOf;
    p := Pass([], {}, Oracle({}, {}, []), Empty(), Empty(), false, false);
    ghost var fates := [];
    var i, done := 0, false;
    TracksNothing(rules, pf);
    while i < |rules| && !done
      invariant i <= |rules| && fates == FatesUpTo(rules, pf, i)
      invariant Tracks(rules, pf, fates, p)
      invariant done <==> Terminated(rules, pf, fates, i)
    {
      var rule := rules[i];
      var f: Fate := Live;
      if IsDead(rule, pf) {
        f := Dead;
      } else {
        var op, payload, key := OpOf(rule, pf), PayloadOf(rule), KeyOf(rule, pf);
        SeenIffTwin(rules, pf, fates, p.seen);
        if key.Some? && key.value in p.seen {
          f := Duplicate;
        } else if Shadows(p.oracle, op, payload) {
          f := Shadowed;
        } else if op.IpCidr? && CoversNet(if op.src then p.src else p.dst, op.net) && (!DemandsIp(rule) || p.needsIp) {
          f := Covered;
        }
      }
      FateFound(rules, pf, fates, p, f);
      TracksStep(rules, pf, fates, p, f);
      TerminatedGrows(rules, pf, fates, f);
      done := f.Live? && OpOf(rule, pf).Match?;
      p := Advance(rules, pf, p, i, f);
      fates := fates + [f];
      i := i + 1;
    }
    while |fates| < |rules|
      invariant i <= |fates| <= |rules| && fates == FatesUpTo(rules, pf, |fates|)
      invariant i < |rules| ==> done
      invariant Tracks(rules, pf, fates, p)
      invariant done ==> Terminated(rules, pf, fates, |fates|)
    {
      UnreachableFrom(rules, pf, fates);
      TracksStep(rules, pf, fates, p, Unreachable);
      TerminatedGrows(rules, pf, fates, Unreachable);
      fates := fates + [Unreachable];
    }
  }

  lemma FatedAtEnd(rules: seq<Rule>, pf: Platform, fates: seq<Fate>)
    requires FatedSoFar(rules, pf, fates) && |fates| == |rules|
    ensures Fated(rules, pf, fates)
  {}

  lemma TracksNothing(rules: seq<Rule>, pf: Platform)
    ensures Tracks(rules, pf, [], Pass([], {}, Oracle({}, {}, []), Empty(), Empty(), false, false))
    ensures !Terminated(rules, pf, [], 0)
  {}

  lemma UnreachableFrom(rules: seq<Rule>, pf: Platform, fates: seq<Fate>)
    requires |fates| < |rules| && Terminated(rules, pf, fates, |fates|)
    ensures FateOf(rules, pf, fates, |fates|) == Unreachable
  {}

  lemma TerminatedGrows(rules: seq<Rule>, pf: Platform, fates: seq<Fate>, f: Fate)
    requires |fates| < |rules|
    ensures Terminated(rules, pf, fates + [f], |fates| + 1) <==>
            Terminated(rules, pf, fates, |fates|) || (f.Live? && OpOf(rules[|fates|], pf).Match?)
  {
    hide OpOf;
    var more := fates + [f];
    assert forall t :: 0 <= t < |fates| ==> (LiveAt(more, t) <==> LiveAt(fates, t));
    assert LiveAt(more, |fates|) <==> f.Live?;
  }

  /** The branch the pass takes is the rule's fate. */
  lemma FateFound(rules: seq<Rule>, pf: Platform, fates: seq<Fate>, p: Pass, f: Fate)
    requires |fates| < |rules| && Tracks(rules, pf, fates, p) && !Terminated(rules, pf, fates, |fates|)
    requires
      var rule, op := rules[|fates|], OpOf(rules[|fates|], pf);
      f == if IsDead(rule, pf) then Dead
           else if HasTwin(rules, pf, fates, |fates|) then Duplicate
           else if Shadows(p.oracle, op, PayloadOf(rule)) then Shadowed
           else if op.IpCidr? && CoversNet(if op.src then p.src else p.dst, op.net) &&
             (!DemandsIp(rule) || p.needsIp) then Covered
           else Live
    ensures f == FateOf(rules, pf, fates, |fates|)
  {
    hide OpOf, KeyOf, DemandsIp, Shadows, CoversNet, IsDead, HasTwin, Terminated, SeenKeys, FatedSoFar,
      IpDemandedBefore;
  }

  // ---------------------------------------------------------------------
  // The domain index.
  // ---------------------------------------------------------------------

  const LINEAR_SCAN_RULE_LIMIT: nat := 64

  datatype Plan = LinearScan | DomainIndexed

  datatype Compiled = Compiled(slots: seq<Slot>, trie: Trie<nat>, plan: Plan, needsIp: bool, needsProcess: bool)

  /** The trie holds these patterns and no others. */
  ghost predicate Holding(trie: Trie<nat>, patterns: seq<Pattern<nat>>) {
    trie.root == InsertAll(EmptyNode(), patterns) && trie.len == |patterns|
  }

  lemma InsertWrites(trie: Trie<nat>, patterns: seq<Pattern<nat>>, domain: string, index: nat)
    requires Holding(trie, patterns)
    ensures Holding(Insert(trie, domain, index), patterns + Written(PatternsOf(domain, index)))
  {
    hide PatternsOf;
    var more := Written(PatternsOf(domain, index));
    InsertAllJoins(EmptyNode(), patterns, more);
    if more == [] { assert patterns + more == patterns; }
  }

  method InsertRule(trie: Trie<nat>, index: nat, t: RuleType, payload: string, ghost patterns: seq<Pattern<nat>>)
    returns (after: Trie<nat>, owned: bool)
    requires Holding(trie, patterns)
    ensures owned == IndexRule(t, payload, index).owned
    ensures Holding(after, patterns + IndexRule(t, payload, index).patterns)
  {
    hide PatternsOf, IndexablePattern, StarWildcardIndexable, Holding, Insert;
    after, owned := trie, false;
    assert patterns + [] == patterns;
    match t {
      case TypeDomain =>
        if IndexablePattern(payload) {
          after, owned := Insert(trie, payload, index), PatternsOf(payload, index).Some?;
          InsertWrites(trie, patterns, payload, index);
        }
      case TypeSuffix =>
        if IndexablePattern(payload) {
          var below := Insert(trie, "+." + payload, index);
          after := Insert(below, payload, index);
          owned := PatternsOf("+." + payload, index).Some? && PatternsOf(payload, index).Some?;
          var first, second := Written(PatternsOf("+." + payload, index)), Written(PatternsOf(payload, index));
          InsertWrites(trie, patterns, "+." + payload, index);
          InsertWrites(below, patterns + first, payload, index);
          assert patterns + first + second == patterns + (first + second);
        }
      case TypeWildcard =>
        if StarWildcardIndexable(payload) {
          after, owned := Insert(trie, payload, index), PatternsOf(payload, index).Some?;
          InsertWrites(trie, patterns, payload, index);
        }
      case _ =>
    }
  }

  predicate DomainOp(op: Op) {
    op.Domain? || op.DomainSuffix? || op.DomainWildcard?
  }

  function IndexingOf(slot: Slot): Indexing {
    if DomainOp(slot.op) then IndexRule(slot.ruleType, slot.payload, slot.index) else Indexing([], false)
  }

  /** The slot with its predicate handed to the index, if the index takes it. */
  function HandedOver(slot: Slot): Slot {
    if IndexingOf(slot).owned then slot.(op := TrieOwned) else slot
  }

  function PatternsUpTo(slots: seq<Slot>, n: nat): seq<Pattern<nat>>
    requires n <= |slots|
  {
    if n == 0 then [] else PatternsUpTo(slots, n - 1) + IndexingOf(slots[n - 1]).patterns
  }

  /** The compiled set of the live rules. */
  ghost predicate Built(rules: seq<Rule>, pf: Platform, fates: seq<Fate>, c: Compiled) {
    var live := SlotsUpTo(rules, pf, fates, |rules|);
    && Fated(rules, pf, fates)
    && c.plan == (if |live| <= LINEAR_SCAN_RULE_LIMIT then LinearScan else DomainIndexed)
    && (c.plan.LinearScan? ==> c.slots == live)
    && (c.plan.DomainIndexed? ==>
          && |c.slots| == |live| && (forall k :: 0 <= k < |live| ==> c.slots[k] == HandedOver(live[k]))
          && Holding(c.trie, PatternsUpTo(live, |live|)))
    && (c.needsIp <==> IpDemandedBefore(rules, fates, |rules|))
    && (c.needsProcess <==> ProcessDemandedBefore(rules, fates, |rules|))
  }

  method IndexSlots(live: seq<Slot>) returns (slots: seq<Slot>, trie: Trie<nat>)
    ensures |slots| == |live| && forall k :: 0 <= k < |live| ==> slots[k] == HandedOver(live[k])
    ensures Holding(trie, PatternsUpTo(live, |live|))
  {
    hide IndexRule;
    slots, trie := [], EmptyTrie();
    for k := 0 to |live|
      invariant |slots| == k && forall j :: 0 <= j < k ==> slots[j] == HandedOver(live[j])
      invariant Holding(trie, PatternsUpTo(live, k))
    {
      var slot, owned := live[k], false;
      if DomainOp(slot.op) {
        trie, owned := InsertRule(trie, slot.index, slot.ruleType, slot.payload, PatternsUpTo(live, k));
      }
      assert PatternsUpTo(live, k) + [] == PatternsUpTo(live, k);
      slots := slots + [if owned then slot.(op := TrieOwned) else slot];
    }
  }

  /** `CompiledRuleSet::build` */
  method Build(rules: seq<Rule>, pf: Platform) returns (c: Compiled)
    ensures Built(rules, pf, FatesOf(rules, pf), c)
  {
    hide Fated, IpDemandedBefore, ProcessDemandedBefore, SeenKeys, FatedSoFar, OracleAt, CoverageAt, SlotsUpTo,
      HandedOver;
    var p := CompileSlots(rules, pf);
    FatedAtEnd(rules, pf, FatesOf(rules, pf));
    if |p.slots| <= LINEAR_SCAN_RULE_LIMIT {
      c := Compiled(p.slots, EmptyTrie(), LinearScan, p.needsIp, p.needsProcess);
    } else {
      var slots, trie := IndexSlots(p.slots);
      c := Compiled(slots, trie, DomainIndexed, p.needsIp, p.needsProcess);
    }
  }

  // ---------------------------------------------------------------------
  // Slots are the live rules, in order.
  // ---------------------------------------------------------------------

  lemma {:induction false} SlotsAreLive(rules: seq<Rule>, pf: Platform, fates: seq<Fate>, n: nat, k: nat)
    requires n <= |rules| && k < |SlotsUpTo(rules, pf, fates, n)|
    ensures var slot := SlotsUpTo(rules, pf, fates, n)[k];
            slot.index < n && LiveAt(fates, slot.index) && slot == SlotOf(rules, pf, slot.index)
    decreases n
  {
    hide SlotOf;
    SlotOfIndex(rules, pf, n - 1);
    if k < |SlotsUpTo(rules, pf, fates, n - 1)| { SlotsAreLive(rules, pf, fates, n - 1, k); }
  }

  lemma SlotOfIndex(rules: seq<Rule>, pf: Platform, i: nat)
    requires i < |rules|
    ensures SlotOf(rules, pf, i).index == i
  {}

  lemma {:induction false} SlotsAscend(rules: seq<Rule>, pf: Platform, fates: seq<Fate>, n: nat, j: nat, k: nat)
    requires n <= |rules| && j < k < |SlotsUpTo(rules, pf, fates, n)|
    ensures SlotsUpTo(rules, pf, fates, n)[j].index < SlotsUpTo(rules, pf, fates, n)[k].index
    decreases n
  {
    hide SlotOf;
    var before := SlotsUpTo(rules, pf, fates, n - 1);
    if k < |before| {
      SlotsAscend(rules, pf, fates, n - 1, j, k);
    } else {
      SlotsAreLive(rules, pf, fates, n - 1, j);
      SlotOfIndex(rules, pf, n - 1);
    }
  }

  lemma {:induction false} LiveHasSlot(rules: seq<Rule>, pf: Platform, fates: seq<Fate>, n: nat, i: nat)
    returns (k: nat)
    requires i < n <= |rules| && LiveAt(fates, i)
    ensures k < |SlotsUpTo(rules, pf, fates, n)| && SlotsUpTo(rules, pf, fates, n)[k] == SlotOf(rules, pf, i)
    decreases n
  {
    hide SlotOf;
    if i == n - 1 {
      k := |SlotsUpTo(rules, pf, fates, n - 1)|;
    } else {
      k := LiveHasSlot(rules, pf, fates, n - 1, i);
    }
  }
}
