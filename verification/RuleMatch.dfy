/** Matching with a compiled set: the indexed scan against first-match order, the
    compiled answer against the source rules, and the demand-driven scan. */
module RuleMatch {
  import opened Common
  import opened DomainTrie
  import opened DomainNames
  import opened Wildcard
  import opened Rules
  import opened RuleCoverage
  import opened DomainIndex
  import opened RuleCompiler
  import opened RuleBuild

  datatype Hit = Hit(index: nat, ruleType: RuleType, payload: string, adapter: string)

  // ---------------------------------------------------------------------
  // References.
  // ---------------------------------------------------------------------

  /** Naive first match: the first rule that resolves. */
  function Naive(rules: seq<Rule>, env: Env, meta: Meta, from: nat): (r: Option<Hit>)
    requires from <= |rules|
    decreases |rules| - from
  {
    if from == |rules| then None
    else
      var adapter := Resolve(rules[from], env, meta);
      if adapter.Some? then Some(Hit(from, TypeOf(rules[from]), PayloadOf(rules[from]), adapter.value))
      else Naive(rules, env, meta, from + 1)
  }

  /** What a slot says of a connection: the index speaks for the slots it owns. */
  predicate Verdict(slot: Slot, rules: seq<Rule>, env: Env, meta: Meta)
    requires slot.index < |rules|
  {
    match slot.op
    case TrieOwned => IndexSays(slot.ruleType, slot.payload, meta.host)
    case Fallback => Holds(rules[slot.index], env, meta)
    case op => OpHolds(op, env, meta)
  }

  predicate Indexed(c: Compiled, rules: seq<Rule>) {
    forall k :: 0 <= k < |c.slots| ==> c.slots[k].index < |rules|
  }

  /** The first slot from a position on that says yes. */
  function FirstVerdict(c: Compiled, rules: seq<Rule>, env: Env, meta: Meta, from: nat): (p: Option<nat>)
    requires Indexed(c, rules) && from <= |c.slots|
    ensures p.Some? ==> from <= p.value < |c.slots| && Verdict(c.slots[p.value], rules, env, meta)
    ensures p.Some? ==> forall q :: from <= q < p.value ==> !Verdict(c.slots[q], rules, env, meta)
    ensures p.None? ==> forall q :: from <= q < |c.slots| ==> !Verdict(c.slots[q], rules, env, meta)
    decreases |c.slots| - from
  {
    if from == |c.slots| then None
    else if Verdict(c.slots[from], rules, env, meta) then Some(from)
    else FirstVerdict(c, rules, env, meta, from + 1)
  }

  function HitOf(slot: Slot, rules: seq<Rule>, env: Env, meta: Meta): Hit
    requires slot.index < |rules|
  {
    var resolved := Resolve(rules[slot.index], env, meta);
    Hit(slot.index, slot.ruleType, slot.payload,
        if slot.op.Fallback? && slot.ruleType.TypeSubRule? && resolved.Some? then resolved.value else slot.adapter)
  }

  // ---------------------------------------------------------------------
  // The index finds the least slot it owns that says yes.
  // ---------------------------------------------------------------------

  predicate AllTidy(rules: seq<Rule>) {
    forall i :: 0 <= i < |rules| ==>
      Tidy(PayloadOf(rules[i])) || TypeOf(rules[i]) !in {TypeDomain, TypeSuffix, TypeWildcard}
  }

  predicate TidySlot(slot: Slot) {
    Tidy(slot.payload) || slot.ruleType !in {TypeDomain, TypeSuffix, TypeWildcard}
  }

  lemma TidyIndexing(slot: Slot)
    requires TidySlot(slot)
    ensures IndexRule(slot.ruleType, slot.payload, slot.index) ==
            if TakenOver(slot.ruleType, slot.payload)
            then Indexing(Stored(slot.ruleType, Base(slot.ruleType, slot.payload), slot.index), true)
            else Indexing([], false)
  {
    hide Tidy, Stored, Base, IndexablePattern, StarWildcardIndexable;
    if Tidy(slot.payload) { IndexedAsStored(slot.ruleType, slot.payload, slot.index); }
  }

  /** Some owned slot before n stores pattern i. */
  lemma {:induction false} PatternHasSlot(live: seq<Slot>, n: nat, i: nat) returns (k: nat)
    requires n <= |live| && i < |PatternsUpTo(live, n)|
    ensures k < n && PatternsUpTo(live, n)[i] in IndexingOf(live[k]).patterns
    decreases n
  {
    hide IndexingOf;
    var before := PatternsUpTo(live, n - 1);
    if i < |before| {
      k := PatternHasSlot(live, n - 1, i);
    } else {
      k := n - 1;
      assert PatternsUpTo(live, n)[i] == IndexingOf(live[k]).patterns[i - |before|];
    }
  }

  lemma {:induction false} SlotHasPattern(live: seq<Slot>, n: nat, k: nat, p: Pattern<nat>) returns (i: nat)
    requires k < n <= |live| && p in IndexingOf(live[k]).patterns
    ensures i < |PatternsUpTo(live, n)| && PatternsUpTo(live, n)[i] == p
    decreases n
  {
    hide IndexingOf;
    var before := PatternsUpTo(live, n - 1);
    if k == n - 1 {
      var j :| 0 <= j < |IndexingOf(live[k]).patterns| && IndexingOf(live[k]).patterns[j] == p;
      i := |before| + j;
    } else {
      i := SlotHasPattern(live, n - 1, k, p);
    }
  }

  ghost predicate TidyAndSorted(live: seq<Slot>) {
    && (forall k :: 0 <= k < |live| ==> TidySlot(live[k]))
    && (forall j, k :: 0 <= j < k < |live| ==> live[j].index < live[k].index)
  }

  lemma StoredValues(t: RuleType, base: string, index: nat)
    ensures forall p :: p in Stored(t, base, index) ==> p.value == index && |p.path| >= 1
  {
    hide Labels;
  }

  lemma SlotPatterns(slot: Slot)
    requires TidySlot(slot)
    ensures forall p :: p in IndexingOf(slot).patterns ==> p.value == slot.index && |p.path| >= 1
  {
    hide TakenOver, Base, Stored, IndexRule;
    TidyIndexing(slot);
    StoredValues(slot.ruleType, Base(slot.ruleType, slot.payload), slot.index);
  }

  lemma {:induction false} PatternsAscend(live: seq<Slot>, n: nat)
    requires TidyAndSorted(live) && n <= |live|
    ensures Ascending(PatternsUpTo(live, n)) && Rooted(PatternsUpTo(live, n))
    ensures forall i :: 0 <= i < |PatternsUpTo(live, n)| ==>
              n > 0 && PatternsUpTo(live, n)[i].value <= live[n - 1].index
    decreases n
  {
    hide IndexingOf, TidySlot;
    if n > 0 {
      PatternsAscend(live, n - 1);
      SlotPatterns(live[n - 1]);
    }
  }

  /** `search_min_normalized` over the index. */
  method SearchIndex(trie: Trie<nat>, host: string, ghost patterns: seq<Pattern<nat>>) returns (r: Option<nat>)
    requires Holding(trie, patterns) && Ascending(patterns) && Rooted(patterns)
    ensures TrimDots(host) == [] ==> r.None?
    ensures TrimDots(host) != [] ==> IsLeast(patterns, Labels(TrimDots(host)), |Labels(TrimDots(host))|, r)
  {
    hide InsertAll, LeastUpTo, Labels, Matches, Ascending, Rooted;
    var query := TrimDots(host);
    if trie.len == 0 || query == [] {
      return None;
    }
    LeastMatchIsFound(patterns, Labels(query));
    r := SearchMinLoop(trie.root, Labels(query));
  }

  predicate SomeMatches(patterns: seq<Pattern<nat>>, query: Path) {
    exists i :: 0 <= i < |patterns| && Matches(patterns[i], query)
  }

  /** An owned slot says yes exactly when one of its patterns matches. */
  lemma OwnedSaysIffPatternMatches(slot: Slot, host: string)
    requires TidySlot(slot) && DomainOp(slot.op) && TrimDots(host) != []
    ensures IndexSays(slot.ruleType, slot.payload, host) <==>
            SomeMatches(IndexingOf(slot).patterns, Labels(TrimDots(host)))
  {
    hide TakenOver, Base, Stored, IndexRule, Labels, Matches, SaysOf;
    TidyIndexing(slot);
    SaysIffStoredMatches(slot.ruleType, Base(slot.ruleType, slot.payload), TrimDots(host), slot.index);
  }

  predicate OwnedBy(slot: Slot) {
    IndexingOf(slot).owned
  }

  /** The least rule the index may speak for: of its own, and least. */
  ghost predicate LeastOwned(live: seq<Slot>, host: string, r: Option<nat>) {
    && (r.Some? ==> exists k :: 0 <= k < |live| && OwnedBy(live[k]) && live[k].index == r.value
                                && IndexSays(live[k].ruleType, live[k].payload, host))
    && (forall k :: 0 <= k < |live| && OwnedBy(live[k]) && IndexSays(live[k].ruleType, live[k].payload, host) ==>
          r.Some? && r.value <= live[k].index)
  }

  lemma OwnedIsDomainOp(slot: Slot)
    requires TidySlot(slot)
    ensures OwnedBy(slot) <==> DomainOp(slot.op) && TakenOver(slot.ruleType, slot.payload)
    ensures !OwnedBy(slot) ==> IndexingOf(slot).patterns == []
  {
    hide TakenOver, Base, Stored, IndexRule;
    TidyIndexing(slot);
  }

  lemma FoundHasSlot(live: seq<Slot>, host: string, i: nat) returns (k: nat)
    requires TidyAndSorted(live) && TrimDots(host) != [] && i < |PatternsUpTo(live, |live|)|
    requires Matches(PatternsUpTo(live, |live|)[i], Labels(TrimDots(host)))
    ensures k < |live| && OwnedBy(live[k]) && live[k].index == PatternsUpTo(live, |live|)[i].value
    ensures IndexSays(live[k].ruleType, live[k].payload, host)
  {
    hide Matches, Labels, IndexSays, IndexRule, PatternsUpTo, TidySlot;
    k := PatternHasSlot(live, |live|, i);
    OwnedIsDomainOp(live[k]);
    SlotPatterns(live[k]);
    OwnedSaysIffPatternMatches(live[k], host);
    var p := PatternsUpTo(live, |live|)[i];
    var j :| 0 <= j < |IndexingOf(live[k]).patterns| && IndexingOf(live[k]).patterns[j] == p;
    assert SomeMatches(IndexingOf(live[k]).patterns, Labels(TrimDots(host)));
  }

  lemma SayingIsFound(live: seq<Slot>, host: string, k: nat) returns (i: nat)
    requires TidyAndSorted(live) && TrimDots(host) != [] && k < |live| && OwnedBy(live[k])
    requires IndexSays(live[k].ruleType, live[k].payload, host)
    ensures i < |PatternsUpTo(live, |live|)| && PatternsUpTo(live, |live|)[i].value == live[k].index
    ensures Matches(PatternsUpTo(live, |live|)[i], Labels(TrimDots(host)))
  {
    hide Matches, Labels, IndexSays, IndexRule, PatternsUpTo, TidySlot;
    OwnedIsDomainOp(live[k]);
    OwnedSaysIffPatternMatches(live[k], host);
    var own := IndexingOf(live[k]).patterns;
    var j :| 0 <= j < |own| && Matches(own[j], Labels(TrimDots(host)));
    SlotPatterns(live[k]);
    i := SlotHasPattern(live, |live|, k, own[j]);
  }

  /** What the index finds is the least owned slot that says yes. */
  lemma IndexFindsLeast(live: seq<Slot>, host: string, r: Option<nat>)
    requires TidyAndSorted(live)
    requires TrimDots(host) == [] ==> r.None?
    requires TrimDots(host) != [] ==>
      IsLeast(PatternsUpTo(live, |live|), Labels(TrimDots(host)), |Labels(TrimDots(host))|, r)
    ensures LeastOwned(live, host, r)
  {
    hide Labels, TidySlot, PatternsUpTo, IndexRule;
    if TrimDots(host) != [] {
      var patterns, query := PatternsUpTo(live, |live|), Labels(TrimDots(host));
      if r.Some? {
        var i :| 0 <= i < |patterns| && Matches(patterns[i], query) && patterns[i].value == r.value;
        var k := FoundHasSlot(live, host, i);
      }
      forall k | 0 <= k < |live| && OwnedBy(live[k]) && IndexSays(live[k].ruleType, live[k].payload, host)
        ensures r.Some? && r.value <= live[k].index
      {
        var i := SayingIsFound(live, host, k);
        assert |patterns[i].path| <= |query|;
      }
    }
  }

  // ---------------------------------------------------------------------
  // Slots of a built set.
  // ---------------------------------------------------------------------

  function LiveSlots(rules: seq<Rule>, pf: Platform, fates: seq<Fate>): seq<Slot> {
    SlotsUpTo(rules, pf, fates, |rules|)
  }

  lemma OpIsNeverOwned(rule: Rule, pf: Platform)
    ensures !OpOf(rule, pf).TrieOwned?
  {
    hide Fold, LowerRule, NoFallback;
    LoweredHasNoFallback(rule);
    if LowerRule(rule).Some? {
      FoldInventsNoFallback(LowerRule(rule).value, pf.linux);
      NoFallbackIsNeither(OpOf(rule, pf));
    } else {
      FallbackFoldsToItself(pf.linux);
    }
  }

  /** A built set has one slot per live rule, in order, and the index owns the
      slots whose patterns it took over. */
  ghost predicate Slotted(c: Compiled, live: seq<Slot>, rules: seq<Rule>) {
    && Indexed(c, rules) && |c.slots| == |live| && TidyAndSorted(live)
    && (forall k :: 0 <= k < |live| ==>
          c.slots[k].(op := live[k].op) == live[k]
          && (c.slots[k].op.TrieOwned? <==> c.plan.DomainIndexed? && OwnedBy(live[k]))
          && (!c.slots[k].op.TrieOwned? ==> c.slots[k].op == live[k].op))
  }

  lemma LiveSlot(rules: seq<Rule>, pf: Platform, fates: seq<Fate>, k: nat)
    requires AllTidy(rules) && k < |LiveSlots(rules, pf, fates)|
    ensures var slot := LiveSlots(rules, pf, fates)[k];
            slot.index < |rules| && TidySlot(slot) && !slot.op.TrieOwned? && slot == SlotOf(rules, pf, slot.index)
  {
    hide OpOf, Tidy, SlotsUpTo;
    SlotsAreLive(rules, pf, fates, |rules|, k);
    OpIsNeverOwned(rules[LiveSlots(rules, pf, fates)[k].index], pf);
  }

  lemma BuiltIsSlotted(rules: seq<Rule>, pf: Platform, fates: seq<Fate>, c: Compiled)
    requires Built(rules, pf, fates, c) && AllTidy(rules)
    ensures Slotted(c, LiveSlots(rules, pf, fates), rules)
  {
    hide OpOf, Tidy, SlotsUpTo, IndexRule, AllTidy, TidySlot, Fated, SlotOf;
    var live := LiveSlots(rules, pf, fates);
    forall k | 0 <= k < |live|
      ensures live[k].index < |rules| && TidySlot(live[k]) && !live[k].op.TrieOwned?
    {
      LiveSlot(rules, pf, fates, k);
    }
    forall j, k | 0 <= j < k < |live| ensures live[j].index < live[k].index {
      SlotsAscend(rules, pf, fates, |rules|, j, k);
    }
  }

  /** `partition_point` over the slots' rule indices. */
  method PartitionPoint(slots: seq<Slot>, t: nat) returns (pos: nat)
    requires forall j, k :: 0 <= j < k < |slots| ==> slots[j].index < slots[k].index
    ensures pos <= |slots|
    ensures forall k :: 0 <= k < pos ==> slots[k].index < t
    ensures forall k :: pos <= k < |slots| ==> slots[k].index >= t
  {
    var lo, hi := 0, |slots|;
    while lo < hi
      invariant 0 <= lo <= hi <= |slots|
      invariant forall k :: 0 <= k < lo ==> slots[k].index < t
      invariant forall k :: hi <= k < |slots| ==> slots[k].index >= t
    {
      var mid := (lo + hi) / 2;
      if slots[mid].index < t { lo := mid + 1; } else { hi := mid; }
    }
    pos := lo;
  }

  // ---------------------------------------------------------------------
  // Scanning.
  // ---------------------------------------------------------------------

  predicate IpMissing(meta: Meta) {
    meta.dstIp.None? && meta.host != []
  }

  predicate ProcessMissing(meta: Meta) {
    meta.process == [] && meta.srcIp.Some? && meta.srcPort != 0
  }

  predicate Blocked(slot: Slot, meta: Meta) {
    (slot.demandsIp && IpMissing(meta)) || (slot.demandsProcess && ProcessMissing(meta))
  }

  datatype ScanOutcome = Matched(pos: nat, hit: Hit) | Stopped(pos: nat) | Exhausted

  /** Nothing happens at a slot: a scan passes it by. */
  predicate Passes(slot: Slot, rules: seq<Rule>, env: Env, meta: Meta, stopOnDemand: bool)
    requires slot.index < |rules|
  {
    !(stopOnDemand && Blocked(slot, meta)) && (slot.op.TrieOwned? || !Verdict(slot, rules, env, meta))
  }

  /** `scan_range_ctl` */
  method ScanRange(c: Compiled, lo: nat, hi: nat, rules: seq<Rule>, env: Env, meta: Meta, stopOnDemand: bool)
    returns (o: ScanOutcome)
    requires Indexed(c, rules) && lo <= hi <= |c.slots|
    ensures o.Matched? ==>
      && lo <= o.pos < hi && Verdict(c.slots[o.pos], rules, env, meta) && !c.slots[o.pos].op.TrieOwned?
      && !(stopOnDemand && Blocked(c.slots[o.pos], meta))
      && o.hit == HitOf(c.slots[o.pos], rules, env, meta)
    ensures o.Stopped? ==> stopOnDemand && lo <= o.pos < hi && Blocked(c.slots[o.pos], meta)
    ensures forall q :: lo <= q < (if o.Exhausted? then hi else o.pos) ==>
              Passes(c.slots[q], rules, env, meta, stopOnDemand)
  {
    hide OpHolds, Holds, IndexSays, Resolve;
    var i := lo;
    while i < hi
      invariant lo <= i <= hi
      invariant forall q :: lo <= q < i ==> Passes(c.slots[q], rules, env, meta, stopOnDemand)
    {
      var slot := c.slots[i];
      if stopOnDemand && Blocked(slot, meta) {
        return Stopped(i);
      }
      match slot.op {
        case TrieOwned =>
        case Fallback =>
          var rule := rules[slot.index];
          if slot.ruleType.TypeSubRule? {
            var adapter := Resolve(rule, env, meta);
            ResolvesIffHolds(rule, env, meta);
            if adapter.Some? {
              return Matched(i, Hit(slot.index, slot.ruleType, slot.payload, adapter.value));
            }
          } else if Holds(rule, env, meta) {
            return Matched(i, Hit(slot.index, slot.ruleType, slot.payload, slot.adapter));
          }
        case op =>
          if OpHolds(op, env, meta) {
            return Matched(i, Hit(slot.index, slot.ruleType, slot.payload, slot.adapter));
          }
      }
      i := i + 1;
    }
    return Exhausted;
  }

  /** Where the index sends a scan: the position of the slot it answers with. */
  method Consult(c: Compiled, rules: seq<Rule>, meta: Meta, ghost pf: Platform, ghost fates: seq<Fate>)
    returns (end: nat, hit: bool)
    requires Built(rules, pf, fates, c) && AllTidy(rules) && c.plan.DomainIndexed?
    ensures Slotted(c, LiveSlots(rules, pf, fates), rules)
    ensures end <= |c.slots| && (!hit ==> end == |c.slots|)
    ensures hit ==> end < |c.slots| && c.slots[end].op.TrieOwned?
                    && IndexSays(c.slots[end].ruleType, c.slots[end].payload, meta.host)
    ensures forall q :: 0 <= q < end && c.slots[q].op.TrieOwned? ==>
              !IndexSays(c.slots[q].ruleType, c.slots[q].payload, meta.host)
  {
    hide IndexSays, IndexRule, SlotsUpTo, TidySlot, Fated, AllTidy, OwnedBy, HandedOver, TrimDots, IsLeast;
    ghost var live := LiveSlots(rules, pf, fates);
    BuiltIsSlotted(rules, pf, fates, c);
    var found: Option<nat> := None;
    if meta.host != [] {
      PatternsAscend(live, |live|);
      found := SearchIndex(c.trie, meta.host, PatternsUpTo(live, |live|));
    } else {
      NoHostNoQuery();
    }
    IndexFindsLeast(live, meta.host, found);
    match found {
      case None => return |c.slots|, false;
      case Some(t) =>
        end := PartitionPoint(c.slots, t);
        ghost var k :| 0 <= k < |live| && OwnedBy(live[k]) && live[k].index == t
                       && IndexSays(live[k].ruleType, live[k].payload, meta.host);
        assert c.slots[k].index == t && end <= k;
        assert c.slots[end].index == live[end].index <= live[k].index;
        hit := end < |c.slots| && c.slots[end].index == t;
    }
  }

  lemma NoHostNoQuery()
    ensures TrimDots([]) == []
  {}

  // ---------------------------------------------------------------------
  // Matching.
  // ---------------------------------------------------------------------

  /** What the compiled set answers: the first slot that says yes. */
  function Answer(c: Compiled, rules: seq<Rule>, env: Env, meta: Meta): Option<Hit>
    requires Indexed(c, rules)
  {
    var p := FirstVerdict(c, rules, env, meta, 0);
    if p.Some? then Some(HitOf(c.slots[p.value], rules, env, meta)) else None
  }

  lemma AnswerIsAt(c: Compiled, rules: seq<Rule>, env: Env, meta: Meta, p: nat)
    requires Indexed(c, rules) && p < |c.slots| && Verdict(c.slots[p], rules, env, meta)
    requires forall q :: 0 <= q < p ==> !Verdict(c.slots[q], rules, env, meta)
    ensures Answer(c, rules, env, meta) == Some(HitOf(c.slots[p], rules, env, meta))
  {
    hide Verdict, HitOf;
    var first := FirstVerdict(c, rules, env, meta, 0);
    assert first.Some? && first.value == p;
  }

  lemma NoAnswer(c: Compiled, rules: seq<Rule>, env: Env, meta: Meta)
    requires Indexed(c, rules) && forall q :: 0 <= q < |c.slots| ==> !Verdict(c.slots[q], rules, env, meta)
    ensures Answer(c, rules, env, meta).None?
  {
    hide Verdict, HitOf;
  }

  /** A slot the index speaks for, or says nothing of, and a scan passes. */
  lemma PassedAndSilent(slot: Slot, rules: seq<Rule>, env: Env, meta: Meta, stopOnDemand: bool)
    requires slot.index < |rules| && Passes(slot, rules, env, meta, stopOnDemand)
    requires slot.op.TrieOwned? ==> !IndexSays(slot.ruleType, slot.payload, meta.host)
    ensures !Verdict(slot, rules, env, meta)
  {
    hide OpHolds, Holds, IndexSays;
  }

  lemma LinearOwnsNothing(rules: seq<Rule>, pf: Platform, fates: seq<Fate>, c: Compiled)
    requires Slotted(c, LiveSlots(rules, pf, fates), rules) && c.plan.LinearScan?
    ensures forall k :: 0 <= k < |c.slots| ==> !c.slots[k].op.TrieOwned?
  {
    hide OwnedBy, TidyAndSorted, SlotsUpTo;
  }

  /** The hit names one of the rules, with its type and payload, and the adapter it
      routes to: its own, or for a sub-rule that of its block. */
  ghost predicate Names(hit: Hit, rules: seq<Rule>, env: Env, meta: Meta) {
    && hit.index < |rules|
    && hit.ruleType == TypeOf(rules[hit.index]) && hit.payload == PayloadOf(rules[hit.index])
    && if rules[hit.index].SubRule? then RoutesTo(rules[hit.index], env, meta, hit.adapter)
       else hit.adapter == rules[hit.index].adapter
  }

  lemma AnswerNamesItsRule(c: Compiled, rules: seq<Rule>, env: Env, meta: Meta, pf: Platform, fates: seq<Fate>)
    requires Built(rules, pf, fates, c) && AllTidy(rules) && Slotted(c, LiveSlots(rules, pf, fates), rules)
    ensures Answer(c, rules, env, meta).Some? ==> Names(Answer(c, rules, env, meta).value, rules, env, meta)
  {
    hide SlotsUpTo, Holds, AllTidy, TidyAndSorted, TidySlot, Fated, IndexRule, RoutesTo, Resolve, OpHolds, IndexSays;
    var first := FirstVerdict(c, rules, env, meta, 0);
    if first.Some? {
      var k, live := first.value, LiveSlots(rules, pf, fates);
      var rule := rules[c.slots[k].index];
      LiveSlot(rules, pf, fates, k);
      if rule.SubRule? {
        FallbackFoldsToItself(pf.linux);
        assert live[k].op.Fallback?;
        SubRuleIsNotOwned(live[k]);
        ResolvesIffHolds(rule, env, meta);
        ResolvesIffRoutes(rule, env, meta, Resolve(rule, env, meta).value);
      }
    }
  }

  /** `match_rules`: the trie and the scans around its hit find the first slot
      that says yes. */
  method MatchRules(c: Compiled, rules: seq<Rule>, env: Env, meta: Meta, ghost pf: Platform, ghost fates: seq<Fate>)
    returns (r: Option<Hit>)
    requires Built(rules, pf, fates, c) && AllTidy(rules)
    ensures Indexed(c, rules) && r == Answer(c, rules, env, meta)
    ensures r.Some? ==> Names(r.value, rules, env, meta)
  {
    hide Built, Verdict, Passes, IndexSays, HitOf, Answer, AllTidy, Blocked, LiveSlots, TidyAndSorted, OwnedBy,
      FirstVerdict, Names;
    BuiltIsSlotted(rules, pf, fates, c);
    AnswerNamesItsRule(c, rules, env, meta, pf, fates);
    if c.plan.LinearScan? {
      LinearOwnsNothing(rules, pf, fates, c);
      var all := ScanRange(c, 0, |c.slots|, rules, env, meta, false);
      Conclude(c, rules, env, meta, all, |c.slots|, false);
      return if all.Matched? then Some(all.hit) else None;
    }
    var end, hit := Consult(c, rules, meta, pf, fates);
    var before := ScanRange(c, 0, end, rules, env, meta, false);
    Conclude(c, rules, env, meta, before, end, false);
    if before.Matched? {
      return Some(before.hit);
    }
    if hit {
      TrieSpeaks(c.slots[end], rules, env, meta);
      AnswerIsAt(c, rules, env, meta, end);
      var slot := c.slots[end];
      return Some(Hit(slot.index, slot.ruleType, slot.payload, slot.adapter));
    }
    // Without a hit the scan has covered every slot.
    return None;
  }

  lemma TrieSpeaks(slot: Slot, rules: seq<Rule>, env: Env, meta: Meta)
    requires slot.index < |rules| && slot.op.TrieOwned?
    ensures Verdict(slot, rules, env, meta) <==> IndexSays(slot.ruleType, slot.payload, meta.host)
    ensures HitOf(slot, rules, env, meta) == Hit(slot.index, slot.ruleType, slot.payload, slot.adapter)
  {
    hide IndexSays;
  }

  /** What a scan from the start tells, when the index owns no slot in it that
      says yes. */
  lemma Conclude(c: Compiled, rules: seq<Rule>, env: Env, meta: Meta, o: ScanOutcome, end: nat, stop: bool)
    requires Indexed(c, rules) && end <= |c.slots| && !o.Stopped?
    requires o.Matched? ==>
               && o.pos < end && Verdict(c.slots[o.pos], rules, env, meta)
               && o.hit == HitOf(c.slots[o.pos], rules, env, meta)
    requires forall q :: 0 <= q < (if o.Exhausted? then end else o.pos) ==> Passes(c.slots[q], rules, env, meta, stop)
    requires forall q :: 0 <= q < end && c.slots[q].op.TrieOwned? ==>
             !IndexSays(c.slots[q].ruleType, c.slots[q].payload, meta.host)
    ensures o.Matched? ==> Answer(c, rules, env, meta) == Some(o.hit)
    ensures o.Exhausted? ==> forall q :: 0 <= q < end ==> !Verdict(c.slots[q], rules, env, meta)
    ensures o.Exhausted? && end == |c.slots| ==> Answer(c, rules, env, meta).None?
  {
    hide Verdict, Passes, IndexSays, HitOf, Answer;
    var n := if o.Exhausted? then end else o.pos;
    forall q | 0 <= q < n ensures !Verdict(c.slots[q], rules, env, meta) {
      PassedAndSilent(c.slots[q], rules, env, meta, stop);
    }
    if o.Matched? {
      AnswerIsAt(c, rules, env, meta, o.pos);
    } else if end == |c.slots| {
      NoAnswer(c, rules, env, meta);
    }
  }

  // ---------------------------------------------------------------------
  // Demand-driven matching.
  // ---------------------------------------------------------------------

  datatype LazyOutcome = Found(hit: Hit) | NeedsEnrichment(ip: bool, process: bool) | NoMatch

  /** The first slot that needs metadata the connection can still supply, before
      any slot that says yes. */
  ghost predicate StopsAt(c: Compiled, rules: seq<Rule>, env: Env, meta: Meta, pos: nat)
    requires Indexed(c, rules)
  {
    && pos < |c.slots| && Blocked(c.slots[pos], meta)
    && forall q :: 0 <= q < pos ==> !Blocked(c.slots[q], meta) && !Verdict(c.slots[q], rules, env, meta)
  }

  predicate DemandedFrom(slots: seq<Slot>, from: nat, ip: bool) {
    exists q :: from <= q < |slots| && (if ip then slots[q].demandsIp else slots[q].demandsProcess)
  }

  /** `enrichment_needs`: one round asks for everything a later slot may need. */
  method EnrichmentNeeds(c: Compiled, from: nat, meta: Meta) returns (o: LazyOutcome)
    requires from < |c.slots| && Blocked(c.slots[from], meta)
    ensures o == NeedsEnrichment(IpMissing(meta) && DemandedFrom(c.slots, from, true),
                                 ProcessMissing(meta) && DemandedFrom(c.slots, from, false))
    ensures o.ip || o.process
  {
    var ip, process := false, false;
    for i := from to |c.slots|
      invariant ip <==> exists q :: from <= q < i && c.slots[q].demandsIp
      invariant process <==> exists q :: from <= q < i && c.slots[q].demandsProcess
    {
      ip := ip || c.slots[i].demandsIp;
      process := process || c.slots[i].demandsProcess;
    }
    ip := ip && IpMissing(meta);
    process := process && ProcessMissing(meta);
    assert c.slots[from].demandsIp || c.slots[from].demandsProcess;
    o := NeedsEnrichment(ip, process);
  }

  /** A slot the index owns demands nothing. */
  lemma OwnedDemandsNothing(rules: seq<Rule>, pf: Platform, fates: seq<Fate>, k: nat)
    requires AllTidy(rules) && k < |LiveSlots(rules, pf, fates)| && OwnedBy(LiveSlots(rules, pf, fates)[k])
    ensures var slot := LiveSlots(rules, pf, fates)[k]; !slot.demandsIp && !slot.demandsProcess
  {
    hide SlotsUpTo, OpOf, IndexablePattern, StarWildcardIndexable, IndexRule, AllTidy, TidySlot;
    LiveSlot(rules, pf, fates, k);
    OwnedIsDomainOp(LiveSlots(rules, pf, fates)[k]);
  }

  /** Everything before `end` is unblocked and says no, after a scan that passed it. */
  lemma QuietBefore(c: Compiled, rules: seq<Rule>, env: Env, meta: Meta, end: nat)
    requires Indexed(c, rules) && end <= |c.slots|
    requires forall q :: 0 <= q < end ==> Passes(c.slots[q], rules, env, meta, true)
    requires forall q :: 0 <= q < end && c.slots[q].op.TrieOwned? ==>
             !IndexSays(c.slots[q].ruleType, c.slots[q].payload, meta.host)
    ensures forall q :: 0 <= q < end ==> !Blocked(c.slots[q], meta) && !Verdict(c.slots[q], rules, env, meta)
  {
    hide Verdict, IndexSays, Blocked;
    forall q | 0 <= q < end ensures !Verdict(c.slots[q], rules, env, meta) {
      PassedAndSilent(c.slots[q], rules, env, meta, true);
    }
  }

  /** `match_rules_lazy`: agrees with the strict match, or stops at the first slot
      that still needs something and says what. */
  method MatchRulesLazy(c: Compiled, rules: seq<Rule>, env: Env, meta: Meta, ghost pf: Platform, ghost fates: seq<Fate>)
    returns (o: LazyOutcome)
    requires Built(rules, pf, fates, c) && AllTidy(rules)
    ensures Indexed(c, rules)
    ensures o.Found? ==> Answer(c, rules, env, meta) == Some(o.hit)
    ensures o.NoMatch? ==> Answer(c, rules, env, meta).None?
    ensures o.NeedsEnrichment? <==> exists pos :: StopsAt(c, rules, env, meta, pos)
    ensures o.NeedsEnrichment? ==> (o.ip || o.process)
    ensures forall pos :: StopsAt(c, rules, env, meta, pos) ==>
              o == NeedsEnrichment(IpMissing(meta) && DemandedFrom(c.slots, pos, true),
                                   ProcessMissing(meta) && DemandedFrom(c.slots, pos, false))
  {
    hide Built, Verdict, Passes, IndexSays, HitOf, Answer, AllTidy, Blocked, LiveSlots, TidyAndSorted, OwnedBy,
      FirstVerdict, DemandedFrom;
    BuiltIsSlotted(rules, pf, fates, c);
    var end, hit := |c.slots|, false;
    if c.plan.DomainIndexed? {
      end, hit := Consult(c, rules, meta, pf, fates);
    } else {
      LinearOwnsNothing(rules, pf, fates, c);
    }
    var before := ScanRange(c, 0, end, rules, env, meta, true);
    match before {
      case Matched(pos, found) =>
        Conclude(c, rules, env, meta, before, end, true);
        QuietBefore(c, rules, env, meta, pos);
        StopsNowhere(c, rules, env, meta, pos);
        return Found(found);
      case Stopped(pos) =>
        QuietBefore(c, rules, env, meta, pos);
        StopsHere(c, rules, env, meta, pos);
        o := EnrichmentNeeds(c, pos, meta);
      case Exhausted =>
        Conclude(c, rules, env, meta, before, end, true);
        QuietBefore(c, rules, env, meta, end);
        if hit {
          OwnedIsUnblocked(c, rules, pf, fates, meta, end);
          TrieSpeaks(c.slots[end], rules, env, meta);
          AnswerIsAt(c, rules, env, meta, end);
          StopsNowhere(c, rules, env, meta, end);
          var slot := c.slots[end];
          return Found(Hit(slot.index, slot.ruleType, slot.payload, slot.adapter));
        }
        return NoMatch;
    }
  }

  lemma OwnedIsUnblocked(c: Compiled, rules: seq<Rule>, pf: Platform, fates: seq<Fate>, meta: Meta, k: nat)
    requires AllTidy(rules) && Slotted(c, LiveSlots(rules, pf, fates), rules) && k < |c.slots| &&
             c.slots[k].op.TrieOwned?
    ensures !Blocked(c.slots[k], meta)
  {
    hide AllTidy, LiveSlots, TidyAndSorted, OwnedBy;
    OwnedDemandsNothing(rules, pf, fates, k);
  }

  lemma StopsHere(c: Compiled, rules: seq<Rule>, env: Env, meta: Meta, pos: nat)
    requires Indexed(c, rules) && StopsAt(c, rules, env, meta, pos)
    ensures forall p :: StopsAt(c, rules, env, meta, p) ==> p == pos
  {
    hide Verdict, Blocked;
  }

  lemma StopsNowhere(c: Compiled, rules: seq<Rule>, env: Env, meta: Meta, end: nat)
    requires Indexed(c, rules) && end < |c.slots| && !Blocked(c.slots[end], meta) &&
             Verdict(c.slots[end], rules, env, meta)
    requires forall q :: 0 <= q < end ==> !Blocked(c.slots[q], meta)
    ensures forall p :: !StopsAt(c, rules, env, meta, p)
  {
    hide Verdict, Blocked;
  }

  /** One round of enrichment suffices: once the reported fields are no longer
      missing, no slot is blocked. */
  lemma OneRoundSuffices(c: Compiled, rules: seq<Rule>, env: Env, meta: Meta, pos: nat, enriched: Meta, k: nat)
    requires Indexed(c, rules) && StopsAt(c, rules, env, meta, pos) && k < |c.slots|
    requires IpMissing(enriched) ==> IpMissing(meta) && !DemandedFrom(c.slots, pos, true)
    requires ProcessMissing(enriched) ==> ProcessMissing(meta) && !DemandedFrom(c.slots, pos, false)
    ensures !Blocked(c.slots[k], enriched)
  {
    hide Verdict, IpMissing, ProcessMissing;
    if k < pos {
      assert !Blocked(c.slots[k], meta);
    }
  }

  // ---------------------------------------------------------------------
  // The compiled set against its source rules.
  // ---------------------------------------------------------------------

  lemma {:induction false} NaiveIsFirst(rules: seq<Rule>, env: Env, meta: Meta, from: nat)
    requires from <= |rules|
    ensures var r := Naive(rules, env, meta, from);
      && (r.Some? ==>
            var w := r.value.index;
            && from <= w < |rules| && Holds(rules[w], env, meta)
            && (forall t :: from <= t < w ==> !Holds(rules[t], env, meta))
            && Resolve(rules[w], env, meta).Some?
            && r.value == Hit(w, TypeOf(rules[w]), PayloadOf(rules[w]), Resolve(rules[w], env, meta).value)
            && RoutesTo(rules[w], env, meta, r.value.adapter))
      && (r.None? ==> forall t :: from <= t < |rules| ==> !Holds(rules[t], env, meta))
    decreases |rules| - from
  {
    hide Holds, Resolve, RoutesTo;
    if from < |rules| {
      var adapter := Resolve(rules[from], env, meta);
      ResolvesIffHolds(rules[from], env, meta);
      if adapter.Some? {
        ResolvesIffRoutes(rules[from], env, meta, adapter.value);
      } else {
        NaiveIsFirst(rules, env, meta, from + 1);
      }
    }
  }

  /** An owned slot speaks for a rule that says what the index compares. */
  lemma OwnedRule(rule: Rule, env: Env, meta: Meta)
    requires TakenOver(TypeOf(rule), PayloadOf(rule))
    ensures Holds(rule, env, meta) <==> RuleSays(TypeOf(rule), PayloadOf(rule), meta.host)
  {
    hide IsAscii, HasPart, SuffixMatches, EqFold;
    if rule.WildcardRule? && meta.host == [] {
      assert !Glob(rule.payload, []);
    }
  }

  /** The host is one the index can be asked about, or is not asked about. */
  predicate Askable(c: Compiled, meta: Meta) {
    c.plan.DomainIndexed? ==> IsLower(meta.host)
  }

  /** A slot says what its rule says, unless the index owns it or it is misread;
      the index never misses a rule that holds. */
  lemma VerdictOfRule(rules: seq<Rule>, pf: Platform, fates: seq<Fate>, c: Compiled, env: Env, meta: Meta, k: nat)
    requires Built(rules, pf, fates, c) && AllTidy(rules) && Comparable(rules, pf, env, meta) && Askable(c, meta)
    requires Slotted(c, LiveSlots(rules, pf, fates), rules) && k < |c.slots|
    ensures var slot := c.slots[k];
      && (slot.op.TrieOwned? && Holds(rules[slot.index], env, meta) ==> Verdict(slot, rules, env, meta))
      && (!slot.op.TrieOwned? && !Misread(slot.op, meta) ==>
            (Verdict(slot, rules, env, meta) <==> Holds(rules[slot.index], env, meta)))
  {
    hide SlotsUpTo, OpOf, Holds, OpHolds, OpMeans, IndexSays, AllTidy, TidySlot, IndexRule, Addressed, PrintsApart,
      Fated, TidyAndSorted, IsLower, IsDead, Misread;
    var live := LiveSlots(rules, pf, fates);
    LiveSlot(rules, pf, fates, k);
    SlotsAreLive(rules, pf, fates, |rules|, k);
    var i := live[k].index;
    NotDeadWhenLive(rules, pf, fates, i);
    CompiledMeansRule(rules[i], pf, env, meta);
    if c.slots[k].op.TrieOwned? {
      OwnedIsDomainOp(live[k]);
      OwnedRule(rules[i], env, meta);
      MisreadIff(TypeOf(rules[i]), PayloadOf(rules[i]), meta.host);
    }
  }

  lemma NotDeadWhenLive(rules: seq<Rule>, pf: Platform, fates: seq<Fate>, i: nat)
    requires Fated(rules, pf, fates) && LiveAt(fates, i)
    ensures i < |rules| && !IsDead(rules[i], pf)
  {
    NotDeadUnlessDead(rules, pf, fates, i);
  }

  /** Before the limit the index, or an empty wildcard on an absent host, answers
      for a rule that does not hold. */
  predicate Preempted(c: Compiled, rules: seq<Rule>, env: Env, meta: Meta, limit: nat)
    requires Indexed(c, rules)
  {
    exists k :: 0 <= k < |c.slots| && PreemptsAt(c, rules, env, meta, limit, k)
  }

  predicate PreemptsAt(c: Compiled, rules: seq<Rule>, env: Env, meta: Meta, limit: nat, k: nat)
    requires Indexed(c, rules) && k < |c.slots|
  {
    var slot := c.slots[k];
    && slot.index < limit && !Holds(rules[slot.index], env, meta)
    && if slot.op.TrieOwned? then IndexSays(slot.ruleType, slot.payload, meta.host)
       else Misread(slot.op, meta) && OpHolds(slot.op, env, meta)
  }

  /** The slot of rule w, with an empty wildcard on an absent host, says no. */
  predicate Silenced(c: Compiled, env: Env, meta: Meta, w: nat) {
    exists k :: 0 <= k < |c.slots| && SilentAt(c, env, meta, w, k)
  }

  predicate SilentAt(c: Compiled, env: Env, meta: Meta, w: nat, k: nat)
    requires k < |c.slots|
  {
    c.slots[k].index == w && Misread(c.slots[k].op, meta) && !OpHolds(c.slots[k].op, env, meta)
  }

  lemma SaysUnheldIffPreempts(rules: seq<Rule>, pf: Platform, fates: seq<Fate>, c: Compiled, env: Env, meta: Meta,
                              limit: nat, k: nat)
    requires Built(rules, pf, fates, c) && AllTidy(rules) && Comparable(rules, pf, env, meta) && Askable(c, meta)
    requires Slotted(c, LiveSlots(rules, pf, fates), rules) && k < |c.slots|
    requires c.slots[k].index < limit && !Holds(rules[c.slots[k].index], env, meta)
    ensures Verdict(c.slots[k], rules, env, meta) <==> PreemptsAt(c, rules, env, meta, limit, k)
  {
    hide Built, AllTidy, Comparable, TidyAndSorted, OwnedBy, LiveSlots, Holds, IndexSays, Askable, OpHolds;
    VerdictOfRule(rules, pf, fates, c, env, meta, k);
    if c.slots[k].op.TrieOwned? { TrieSpeaks(c.slots[k], rules, env, meta); }
  }

  /** The slot of a rule that holds says no exactly when it is silenced. */
  lemma HeldSpeaksIff(rules: seq<Rule>, pf: Platform, fates: seq<Fate>, c: Compiled, env: Env, meta: Meta, k: nat)
    requires Built(rules, pf, fates, c) && AllTidy(rules) && Comparable(rules, pf, env, meta) && Askable(c, meta)
    requires Slotted(c, LiveSlots(rules, pf, fates), rules) && k < |c.slots| &&
             Holds(rules[c.slots[k].index], env, meta)
    ensures !Verdict(c.slots[k], rules, env, meta) <==> Silenced(c, env, meta, c.slots[k].index)
  {
    hide Built, AllTidy, Comparable, OwnedBy, LiveSlots, Holds, IndexSays, Askable, OpHolds, TidySlot;
    VerdictOfRule(rules, pf, fates, c, env, meta, k);
    var live, w := LiveSlots(rules, pf, fates), c.slots[k].index;
    forall q | 0 <= q < |c.slots| && SilentAt(c, env, meta, w, q) ensures q == k {
      assert live[q].index == live[k].index;
    }
    assert SilentAt(c, env, meta, w, k) ==> Silenced(c, env, meta, w);
  }

  /** A static hit names the rule's adapter; a sub-rule's is resolved. */
  lemma HitOfLive(rules: seq<Rule>, pf: Platform, fates: seq<Fate>, c: Compiled, env: Env, meta: Meta, k: nat)
    requires Built(rules, pf, fates, c) && AllTidy(rules) && Slotted(c, LiveSlots(rules, pf, fates), rules) &&
             k < |c.slots|
    requires Resolve(rules[c.slots[k].index], env, meta).Some?
    ensures var i := c.slots[k].index;
      HitOf(c.slots[k], rules, env, meta) ==
        Hit(i, TypeOf(rules[i]), PayloadOf(rules[i]), Resolve(rules[i], env, meta).value)
  {
    hide SlotsUpTo, Holds, AllTidy, TidyAndSorted, TidySlot, Fated, IndexRule;
    LiveSlot(rules, pf, fates, k);
    SlotsAreLive(rules, pf, fates, |rules|, k);
    var rule := rules[c.slots[k].index];
    if rule.SubRule? {
      FallbackFoldsToItself(pf.linux);
      var live := LiveSlots(rules, pf, fates);
      assert live[k].op.Fallback?;
      SubRuleIsNotOwned(live[k]);
    }
  }

  lemma SubRuleIsNotOwned(slot: Slot)
    requires slot.op.Fallback?
    ensures !OwnedBy(slot)
  {}

  /** Without a matching rule the compiled set answers nothing, unless the index
      answers for a rule that does not hold. */
  lemma AgreeOnNothing(rules: seq<Rule>, pf: Platform, fates: seq<Fate>, c: Compiled, env: Env, meta: Meta)
    requires Built(rules, pf, fates, c) && AllTidy(rules) && Comparable(rules, pf, env, meta) && Askable(c, meta)
    requires Slotted(c, LiveSlots(rules, pf, fates), rules) && Naive(rules, env, meta, 0).None?
    ensures Answer(c, rules, env, meta).None? <==> !Preempted(c, rules, env, meta, |rules|)
  {
    hide Built, AllTidy, Comparable, Holds, Naive, PreemptsAt, Verdict, LiveSlots, TidyAndSorted, OwnedBy, Askable,
      HitOf;
    NaiveIsFirst(rules, env, meta, 0);
    forall k | 0 <= k < |c.slots|
      ensures Verdict(c.slots[k], rules, env, meta) <==> PreemptsAt(c, rules, env, meta, |rules|, k)
    {
      SaysUnheldIffPreempts(rules, pf, fates, c, env, meta, |rules|, k);
    }
  }

  lemma AgreeOnFirst(rules: seq<Rule>, pf: Platform, fates: seq<Fate>, c: Compiled, env: Env, meta: Meta, w: nat,
                     k: nat)
    requires Built(rules, pf, fates, c) && AllTidy(rules) && Comparable(rules, pf, env, meta) && Askable(c, meta)
    requires Slotted(c, LiveSlots(rules, pf, fates), rules) && FirstToHold(rules, env, meta, w)
    requires k < |c.slots| && c.slots[k].index == w
    ensures Preempted(c, rules, env, meta, w) ==>
              Answer(c, rules, env, meta).Some? && Answer(c, rules, env, meta).value.index < w
    ensures Silenced(c, env, meta, w) && Answer(c, rules, env, meta).Some? ==>
            Answer(c, rules, env, meta).value.index != w
    ensures !Preempted(c, rules, env, meta, w) && !Silenced(c, env, meta, w) ==>
              Answer(c, rules, env, meta) == Some(HitOf(c.slots[k], rules, env, meta))
  {
    hide Built, AllTidy, Comparable, Holds, PreemptsAt, Verdict, LiveSlots, OwnedBy, Askable, HitOf, Answer, Silenced;
    var live := LiveSlots(rules, pf, fates);
    HeldSpeaksIff(rules, pf, fates, c, env, meta, k);
    forall q | 0 <= q < k
      ensures c.slots[q].index < w
      ensures Verdict(c.slots[q], rules, env, meta) <==> PreemptsAt(c, rules, env, meta, w, q)
    {
      assert live[q].index < live[k].index;
      SaysUnheldIffPreempts(rules, pf, fates, c, env, meta, w, q);
    }
    if Preempted(c, rules, env, meta, w) {
      var q :| 0 <= q < |c.slots| && PreemptsAt(c, rules, env, meta, w, q);
      PreemptsBelow(c, rules, env, meta, w, q);
      assert q < k;
      AnswerAtOrBefore(c, rules, env, meta, q);
    } else if Verdict(c.slots[k], rules, env, meta) {
      AnswerIsAt(c, rules, env, meta, k);
    } else {
      AnswerSkips(rules, pf, fates, c, env, meta, k);
    }
  }

  /** A slot that says no is not the answer. */
  lemma AnswerSkips(rules: seq<Rule>, pf: Platform, fates: seq<Fate>, c: Compiled, env: Env, meta: Meta, k: nat)
    requires Slotted(c, LiveSlots(rules, pf, fates), rules) && k < |c.slots| && !Verdict(c.slots[k], rules, env, meta)
    ensures Answer(c, rules, env, meta).Some? ==> Answer(c, rules, env, meta).value.index != c.slots[k].index
  {
    hide Verdict, SlotsUpTo, OwnedBy, TidySlot;
    var first := FirstVerdict(c, rules, env, meta, 0);
    if first.Some? {
      var live, p := LiveSlots(rules, pf, fates), first.value;
      assert HitOf(c.slots[p], rules, env, meta).index == live[p].index && c.slots[k].index == live[k].index;
    }
  }

  lemma PreemptsBelow(c: Compiled, rules: seq<Rule>, env: Env, meta: Meta, limit: nat, q: nat)
    requires Indexed(c, rules) && q < |c.slots| && PreemptsAt(c, rules, env, meta, limit, q)
    ensures c.slots[q].index < limit
  {
    hide IndexSays, Holds;
  }

  lemma AnswerAtOrBefore(c: Compiled, rules: seq<Rule>, env: Env, meta: Meta, q: nat)
    requires Indexed(c, rules) && q < |c.slots| && Verdict(c.slots[q], rules, env, meta)
    ensures Answer(c, rules, env, meta).Some?
    ensures exists p :: 0 <= p <= q && Answer(c, rules, env, meta).value.index == c.slots[p].index
  {
    hide Verdict;
    var first := FirstVerdict(c, rules, env, meta, 0);
    assert first.Some? && first.value <= q;
    assert HitOf(c.slots[first.value], rules, env, meta).index == c.slots[first.value].index;
  }

  lemma AnswerNeedsSlot(rules: seq<Rule>, pf: Platform, fates: seq<Fate>, c: Compiled, env: Env, meta: Meta, w: nat)
    requires Slotted(c, LiveSlots(rules, pf, fates), rules) && w < |rules| && !LiveAt(fates, w)
    ensures Answer(c, rules, env, meta).Some? ==> Answer(c, rules, env, meta).value.index != w
  {
    hide Verdict, SlotsUpTo, OwnedBy, TidyAndSorted;
    var first := FirstVerdict(c, rules, env, meta, 0);
    if first.Some? {
      SlotsAreLive(rules, pf, fates, |rules|, first.value);
      assert HitOf(c.slots[first.value], rules, env, meta).index == c.slots[first.value].index;
    }
  }

  /** The compiled set answers what the rules answer, first match first, if and
      only if the first matching rule was not misjudged while compiling, and no
      slot before it speaks for a rule that does not hold, and its own slot is not
      silenced: by the index, or by an empty wildcard on an absent host. */
  lemma CompiledAgreesIff(rules: seq<Rule>, pf: Platform, fates: seq<Fate>, c: Compiled, env: Env, meta: Meta)
    requires Built(rules, pf, fates, c) && AllTidy(rules) && Comparable(rules, pf, env, meta) && Askable(c, meta)
    ensures Indexed(c, rules) && |fates| == |rules|
    ensures var naive := Naive(rules, env, meta, 0);
      Answer(c, rules, env, meta) == naive <==>
        match naive
        case None => !Preempted(c, rules, env, meta, |rules|)
        case Some(hit) =>
          && hit.index < |rules| && !Misjudged(rules, pf, fates, hit.index)
          && !Preempted(c, rules, env, meta, hit.index) && !Silenced(c, env, meta, hit.index)
  {
    hide Silenced, Built, AllTidy, Comparable, Holds, Preempted, LiveSlots, Askable, HitOf, Answer, Misjudged,
      FirstVerdict, Naive, Slotted, Fated, Resolve;
    BuiltIsSlotted(rules, pf, fates, c);
    BuiltParts(rules, pf, fates, c);
    NaiveIsFirst(rules, env, meta, 0);
    var naive := Naive(rules, env, meta, 0);
    if naive.None? {
      AgreeOnNothing(rules, pf, fates, c, env, meta);
    } else {
      var w := naive.value.index;
      FirstIsLiveUnlessMisjudged(rules, pf, fates, env, meta, w);
      if LiveAt(fates, w) {
        var k := SlotOfLive(rules, pf, fates, c, w);
        AgreeOnFirst(rules, pf, fates, c, env, meta, w, k);
        HitOfLive(rules, pf, fates, c, env, meta, k);
      } else {
        AnswerNeedsSlot(rules, pf, fates, c, env, meta, w);
      }
    }
  }

  lemma BuiltParts(rules: seq<Rule>, pf: Platform, fates: seq<Fate>, c: Compiled)
    requires Built(rules, pf, fates, c) && Slotted(c, LiveSlots(rules, pf, fates), rules)
    ensures Fated(rules, pf, fates) && |fates| == |rules| && Indexed(c, rules)
  {
    hide FateOf, SlotsUpTo, OwnedBy, TidyAndSorted, Holding;
  }

  lemma SlotOfLive(rules: seq<Rule>, pf: Platform, fates: seq<Fate>, c: Compiled, w: nat) returns (k: nat)
    requires Slotted(c, LiveSlots(rules, pf, fates), rules) && w < |rules| && LiveAt(fates, w)
    ensures k < |c.slots| && c.slots[k].index == w
  {
    hide SlotsUpTo, OwnedBy, TidyAndSorted;
    k := LiveHasSlot(rules, pf, fates, |rules|, w);
    SlotOfIndex(rules, pf, w);
  }

  // ---- When they always agree ----

  /** No rule tests an absent host with an empty wildcard. */
  predicate NoneMisread(rules: seq<Rule>, pf: Platform, meta: Meta) {
    forall t :: 0 <= t < |rules| ==> !Misread(OpOf(rules[t], pf), meta)
  }

  lemma CleanIsUndisturbed(rules: seq<Rule>, pf: Platform, fates: seq<Fate>, c: Compiled, env: Env, meta: Meta,
                           limit: nat)
    requires Slotted(c, LiveSlots(rules, pf, fates), rules) && AllTidy(rules) && NoneMisread(rules, pf, meta)
    requires c.plan.DomainIndexed? ==> Clean(meta.host)
    ensures !Preempted(c, rules, env, meta, limit) && !Silenced(c, env, meta, limit)
  {
    hide Holds, IndexSays, AllTidy, Clean, SlotsUpTo, IndexRule, TidySlot, TidyAndSorted, OpHolds, Misread, OpOf;
    forall k | 0 <= k < |c.slots| ensures !c.slots[k].op.TrieOwned? ==> !Misread(c.slots[k].op, meta) {
      LiveSlot(rules, pf, fates, k);
    }
    OwnedIsNotMisread(meta);
    if k :| 0 <= k < |c.slots| && PreemptsAt(c, rules, env, meta, limit, k) {
      LiveSlot(rules, pf, fates, k);
      OwnedIsDomainOp(LiveSlots(rules, pf, fates)[k]);
      var rule := rules[c.slots[k].index];
      OwnedRule(rule, env, meta);
      CleanHostsAgree(TypeOf(rule), PayloadOf(rule), meta.host);
    }
  }

  lemma OwnedIsNotMisread(meta: Meta)
    ensures !Misread(TrieOwned, meta)
  {}

  /** For rules whose logic trees do not fold to a single test, and a host in
      lower case without a dot at either end, compilation changes nothing: the
      pruned, folded and indexed set answers what the rules answer in order. */
  lemma PlainRulesCompileFaithfully(rules: seq<Rule>, pf: Platform, fates: seq<Fate>, c: Compiled, env: Env, meta: Meta)
    requires Built(rules, pf, fates, c) && AllTidy(rules) && Comparable(rules, pf, env, meta)
    requires forall t :: 0 <= t < |rules| ==> !Collapses(rules[t], pf)
    requires NoneMisread(rules, pf, meta) && (c.plan.DomainIndexed? ==> Clean(meta.host))
    ensures Indexed(c, rules) && Answer(c, rules, env, meta) == Naive(rules, env, meta, 0)
  {
    hide Built, AllTidy, Holds, Preempted, LiveSlots, HitOf, Answer, Misjudged, FirstVerdict, Naive, Slotted, Fated,
      Resolve, Collapses, PrintsApart, Addressed, NoneMisread, Silenced;
    BuiltIsSlotted(rules, pf, fates, c);
    BuiltParts(rules, pf, fates, c);
    CompiledAgreesIff(rules, pf, fates, c, env, meta);
    var naive := Naive(rules, env, meta, 0);
    CleanIsUndisturbed(rules, pf, fates, c, env, meta, if naive.Some? then naive.value.index else |rules|);
    if naive.Some? {
      NaiveIsFirst(rules, env, meta, 0);
      OnlyCollapsesMisjudge(rules, pf, fates, naive.value.index);
    }
  }

  // ---- When they do not ----

  /** Two one-armed ANDs over the same name: the second is dropped as a duplicate
      of the first, though it is a suffix and the first an exact name, and the
      subdomains it alone matches are lost. */
  lemma CollapsedTwinIsLost(name: string, a: string, b: string, pf: Platform)
    ensures var rules := [AndRule([DomainRule(name, a)], a), AndRule([SuffixRule(name, b)], b)];
      && Fated(rules, pf, [Live, Duplicate]) && LostToTwin(rules, pf, [Live, Duplicate], 1)
      && forall env: Env, meta: Meta :: meta.host == "x." + name ==> FirstToHold(rules, env, meta, 1)
  {
    var rules := [AndRule([DomainRule(name, a)], a), AndRule([SuffixRule(name, b)], b)];
    var fates := [Live, Duplicate];
    CollapsedOp(DomainRule(name, a), a, pf);
    CollapsedOp(SuffixRule(name, b), b, pf);
    assert KeyOf(rules[0], pf) == Some(Key(TypeAnd, false, false, Lower(name))) == KeyOf(rules[1], pf);
    assert FateOf(rules, pf, fates, 0) == Live by {
      assert OracleAt(rules, pf, fates, 0) == Oracle({}, {}, []);
    }
    assert Twin(rules, pf, fates, 0, 1);
    assert FateOf(rules, pf, fates, 1) == Duplicate;
    forall env: Env, meta: Meta | meta.host == "x." + name ensures FirstToHold(rules, env, meta, 1) {
      assert |Lower(meta.host)| != |Lower(name)|;
      assert meta.host[1] == '.' && meta.host[2..] == name;
      assert Holds(rules[0].rules[0], env, meta) <==> EqFold(meta.host, name);
      assert Holds(rules[1].rules[0], env, meta) <==> SuffixMatches(meta.host, name);
    }
  }

  lemma CollapsedOp(inner: Rule, adapter: string, pf: Platform)
    requires inner.DomainRule? || inner.SuffixRule?
    ensures var rule := AndRule([inner], adapter);
      && OpOf(rule, pf) == LowerRule(inner).value && !IsDead(rule, pf)
      && PayloadOf(rule) == inner.payload && !DemandsIp(rule) && !DemandsProcess(rule)
  {
    var op := LowerRule(inner).value;
    assert LowerRules([inner]) == Some([op]) by {
      assert [inner][1..] == [] && LowerRules([]) == Some([]) && [op] + [] == [op];
      assert LowerRule([inner][0]) == Some(op);
    }
    assert PayloadOf(AndRule([inner], adapter)) == JoinPayloads([inner], " AND ") == PayloadOf(inner);
    assert DemandsIp([inner][0]) == false == DemandsProcess([inner][0]);
    assert FoldAll([op], pf.linux, []) == Kept(op) by {
      assert [op][1..] == [] && [] + [op] == [op];
    }
  }

  /** Off Linux an OR of a wildcard and a user id folds to the wildcard but keeps
      the payload `*.name OR uid`. Pruning reads a wildcard by its payload, finds
      the keyword `or` in it, and drops the rule, though hosts without `or` match. */
  lemma GarbledWildcardIsLost(name: string, uid: nat, text: string, a: string, b: string, pf: Platform)
    requires !pf.linux && name != [] && '*' !in name && '*' !in text && !KeywordMatches("x." + name, "or")
    ensures var rules := [KeywordRule("or", a), OrRule([WildcardRule("*." + name, b), UidRule(uid, text, b)], b)];
      && Fated(rules, pf, [Live, Shadowed]) && LostToGarbledWildcard(rules, pf, [Live, Shadowed], 1)
      && forall env: Env, meta: Meta :: meta.host == "x." + name ==> FirstToHold(rules, env, meta, 1)
  {
    hide FoldedOf, Shadows, DemandsIp, DemandsProcess, KeywordMatches, Glob;
    var wildcard, user := WildcardRule("*." + name, b), UidRule(uid, text, b);
    var rules := [KeywordRule("or", a), OrRule([wildcard, user], b)];
    var fates := [Live, Shadowed];
    KeywordOp(a, pf);
    FoldedWildcard(wildcard, user, b, pf);
    GarbledShadow(name, text);
    assert OracleAt(rules, pf, fates, 0) == Oracle({}, {}, []) == TrueOracleAt(rules, pf, fates, 0);
    assert OracleAt(rules, pf, fates, 1) == Oracle({}, {}, ["or"]) == TrueOracleAt(rules, pf, fates, 1);
    assert FateOf(rules, pf, fates, 0) == Live;
    assert !HasTwin(rules, pf, fates, 1);
    assert FateOf(rules, pf, fates, 1) == Shadowed;
    forall env: Env, meta: Meta | meta.host == "x." + name ensures FirstToHold(rules, env, meta, 1) {
      StarAccepts(name);
      assert Holds(rules[1].rules[0], env, meta);
    }
  }

  lemma KeywordOp(adapter: string, pf: Platform)
    ensures var rule := KeywordRule("or", adapter);
      OpOf(rule, pf) == DomainKeyword("or") && !IsDead(rule, pf) && !Shadows(Oracle({}, {}, []), OpOf(rule, pf), "or")
  {
    assert Lower("or") == "or";
  }

  lemma FoldedWildcard(wildcard: Rule, user: Rule, adapter: string, pf: Platform)
    requires wildcard.WildcardRule? && user.UidRule? && !pf.linux
    ensures var rule := OrRule([wildcard, user], adapter);
      && OpOf(rule, pf) == DomainWildcard(wildcard.payload) && !IsDead(rule, pf)
      && PayloadOf(rule) == wildcard.payload + " OR " + user.payload
  {
    var arms, ops := [wildcard, user], [DomainWildcard(wildcard.payload), Uid(user.uid)];
    assert arms[1..] == [user];
    LowerPair(wildcard, user, ops[0], ops[1]);
    assert ops[1..] == [ops[1]] && [ops[1]][1..] == [];
    assert FoldAny([], pf.linux, [ops[0]]) == Kept(ops[0]);
    assert FoldAny([ops[1]], pf.linux, [ops[0]]) == Kept(ops[0]);
    assert [] + [ops[0]] == [ops[0]];
    assert FoldAny(ops, pf.linux, []) == Kept(ops[0]);
    assert JoinPayloads(arms[1..], " OR ") == user.payload;
    assert JoinPayloads(arms, " OR ") == PayloadOf(arms[0]) + " OR " + user.payload;
  }

  /** The keyword is in the payload's star rest, and not in the pattern's. */
  lemma GarbledShadow(name: string, text: string)
    requires name != [] && '*' !in name && '*' !in text && !KeywordMatches("x." + name, "or")
    ensures var o, op := Oracle({}, {}, ["or"]), DomainWildcard("*." + name);
      && Shadows(o, op, "*." + name + " OR " + text) && !Shadows(o, op, "*." + name)
  {
    var payload := "*." + name + " OR " + text;
    assert payload[2..] == name + " OR " + text && ("*." + name)[2..] == name;
    var rest := Lower(payload[2..]);
    assert rest[|name| + 1..|name| + 3] == "or";
    assert PartAt(rest, "or", |name| + 1);
    assert HasPart(rest, ["or"][0]);
    if HasPart(Lower(name), "or") {
      var host := "x." + name;
      LowerTwice(name);
      assert host[2..2 + |name|] == name;
      assert WordAt(host, Lower(name), 2);
      WordChain(host, Lower(name), "or");
    }
  }

  lemma StarAccepts(name: string)
    requires name != [] && '*' !in name
    ensures Glob("*." + name, "x." + name)
  {
    var pattern, host := "*." + name, "x." + name;
    assert pattern[2..] == name == host[2..];
    assert DotFree(host[..1]);
    LowerTwice(name);
    StarGlob(pattern, host);
  }

  /** An empty wildcard takes a connection without a host from the rule that
      follows, and the negation of one lets it pass: neither is what the rule says. */
  lemma BlankWildcardMisleads(a: string, b: string, pf: Platform, c: Compiled, d: Compiled, env: Env, meta: Meta)
    requires Built([WildcardRule("", a), FinalRule(b)], pf, [Live, Live], c)
    requires Built([NotRule(WildcardRule("", a), a), FinalRule(b)], pf, [Live, Live], d)
    requires meta.host == []
    ensures var rules := [WildcardRule("", a), FinalRule(b)];
      && Indexed(c, rules) && Answer(c, rules, env, meta) == Some(Hit(0, TypeWildcard, "", a))
      && Naive(rules, env, meta, 0) == Some(Hit(1, TypeMatch, "", b))
    ensures var rules := [NotRule(WildcardRule("", a), a), FinalRule(b)];
      && Indexed(d, rules) && Answer(d, rules, env, meta) == Some(Hit(1, TypeMatch, "", b))
      && Naive(rules, env, meta, 0) == Some(Hit(0, TypeNot, "NOT ", a))
  {
    BlankTakes(a, b, pf, c, env, meta);
    BlankLetsPass(a, b, pf, d, env, meta);
  }

  lemma TwoSlots(rules: seq<Rule>, pf: Platform, c: Compiled)
    requires |rules| == 2 && Built(rules, pf, [Live, Live], c)
    ensures c.slots == [SlotOf(rules, pf, 0), SlotOf(rules, pf, 1)]
  {
    hide Fated, SlotOf, Holding;
    assert SlotsUpTo(rules, pf, [Live, Live], 1) == [SlotOf(rules, pf, 0)];
  }

  lemma BlankTakes(a: string, b: string, pf: Platform, c: Compiled, env: Env, meta: Meta)
    requires Built([WildcardRule("", a), FinalRule(b)], pf, [Live, Live], c) && meta.host == []
    ensures var rules := [WildcardRule("", a), FinalRule(b)];
      && Indexed(c, rules) && Answer(c, rules, env, meta) == Some(Hit(0, TypeWildcard, "", a))
      && Naive(rules, env, meta, 0) == Some(Hit(1, TypeMatch, "", b))
  {
    hide Built;
    var rules := [WildcardRule("", a), FinalRule(b)];
    TwoSlots(rules, pf, c);
    assert Verdict(c.slots[0], rules, env, meta);
    AnswerIsAt(c, rules, env, meta, 0);
    assert Naive(rules, env, meta, 0) == Naive(rules, env, meta, 1);
  }

  lemma BlankLetsPass(a: string, b: string, pf: Platform, c: Compiled, env: Env, meta: Meta)
    requires Built([NotRule(WildcardRule("", a), a), FinalRule(b)], pf, [Live, Live], c) && meta.host == []
    ensures var rules := [NotRule(WildcardRule("", a), a), FinalRule(b)];
      && Indexed(c, rules) && Answer(c, rules, env, meta) == Some(Hit(1, TypeMatch, "", b))
      && Naive(rules, env, meta, 0) == Some(Hit(0, TypeNot, "NOT ", a))
  {
    hide Built;
    var rules := [NotRule(WildcardRule("", a), a), FinalRule(b)];
    TwoSlots(rules, pf, c);
    var inner := WildcardRule("", a);
    assert LowerRule(inner) == Some(DomainWildcard("")) &&
      Fold(DomainWildcard(""), pf.linux) == Kept(DomainWildcard(""));
    assert LowerRule(rules[0]) == Some(NotOp(DomainWildcard("")));
    assert PayloadOf(rules[0]) == "NOT " + PayloadOf(inner) == "NOT ";
    assert !Holds(inner, env, meta) && Holds(rules[0], env, meta);
    assert Resolve(rules[0], env, meta) == Some(a);
    assert !Verdict(c.slots[0], rules, env, meta) && Verdict(c.slots[1], rules, env, meta);
    AnswerIsAt(c, rules, env, meta, 1);
  }

  /** The two lists do keep their rules. */
  lemma BlankWildcardIsKept(a: string, b: string, pf: Platform)
    ensures Fated([WildcardRule("", a), FinalRule(b)], pf, [Live, Live])
    ensures Fated([NotRule(WildcardRule("", a), a), FinalRule(b)], pf, [Live, Live])
  {
    var rules, others := [WildcardRule("", a), FinalRule(b)], [NotRule(WildcardRule("", a), a), FinalRule(b)];
    assert FateOf(rules, pf, [Live, Live], 0) == Live == FateOf(rules, pf, [Live, Live], 1);
    assert FateOf(others, pf, [Live, Live], 0) == Live == FateOf(others, pf, [Live, Live], 1);
  }

  /** A name rule the index owns is also given the name with a trailing dot,
      which the rule itself does not match. */
  lemma TrailingDotPreempts(c: Compiled, rules: seq<Rule>, env: Env, meta: Meta, k: nat)
    requires Indexed(c, rules) && k < |c.slots| && c.slots[k].op.TrieOwned? && TakenOver(TypeDomain, c.slots[k].payload)
    requires rules[c.slots[k].index].DomainRule? && c.slots[k].ruleType == TypeDomain
    requires c.slots[k].payload == rules[c.slots[k].index].payload && meta.host == Lower(c.slots[k].payload) + "."
    ensures Preempted(c, rules, env, meta, c.slots[k].index + 1)
  {
    var name := c.slots[k].payload;
    BaseEnd(TypeDomain, name);
    TrimDotsOnlyDots(Lower(name));
    assert meta.host[..|meta.host| - 1] == Lower(name);
    assert IndexSays(TypeDomain, name, meta.host);
    assert |Lower(meta.host)| != |Lower(name)|;
    assert PreemptsAt(c, rules, env, meta, c.slots[k].index + 1, k);
  }
}
