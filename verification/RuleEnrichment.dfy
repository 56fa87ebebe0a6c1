/** Routing one connection by rule: metadata looked up in advance and one strict
    match, against the demand-driven match that replaced it. What the lookups
    find is a parameter. */
module RuleEnrichment {
  import opened Common
  import opened Rules
  import opened RuleCoverage
  import opened RuleCompiler
  import opened RuleBuild
  import opened RuleMatch

  /** The process that owns a socket; `other` is the metadata with its path. */
  datatype Owner = Owner(name: string, uid: Option<nat>, other: nat)

  /** What the resolver and the process table answer for the connection. */
  datatype Lookup = Lookup(ip: Option<Ip>, owner: Option<Owner>)

  /** `maybe_enrich_with_process` */
  function WithOwner(meta: Meta, found: Lookup): Meta {
    if ProcessMissing(meta) && found.owner.Some? then
      var owner := found.owner.value;
      meta.(process := owner.name, uid := if meta.uid.None? then owner.uid else meta.uid, other := owner.other)
    else meta
  }

  /** `pre_resolve` */
  function WithIp(meta: Meta, found: Lookup): Meta {
    if IpMissing(meta) && found.ip.Some? then meta.(dstIp := found.ip) else meta
  }

  /** The metadata with what was asked for filled in. */
  function Enriched(meta: Meta, found: Lookup, ip: bool, process: bool): Meta {
    var resolved := if ip then WithIp(meta, found) else meta;
    if process then WithOwner(resolved, found) else resolved
  }

  /** The metadata with all a compiled set can ask for. */
  function FullyEnriched(c: Compiled, meta: Meta, found: Lookup): Meta {
    Enriched(meta, found, c.needsIp, c.needsProcess)
  }

  /** `pre_resolve` and `resolve_proxy`: look up, then match. */
  method ResolveProxy(c: Compiled, rules: seq<Rule>, env: Env, meta: Meta, found: Lookup, ghost pf: Platform,
                      ghost fates: seq<Fate>)
    returns (r: Option<Hit>)
    requires Built(rules, pf, fates, c) && AllTidy(rules)
    ensures Indexed(c, rules) && r == Answer(c, rules, env, FullyEnriched(c, meta, found))
  {
    hide Built, AllTidy, Answer;
    var full := meta;
    if c.needsIp { full := WithIp(full, found); }
    if c.needsProcess { full := WithOwner(full, found); }
    r := MatchRules(c, rules, env, full, pf, fates);
  }

  // ---------------------------------------------------------------------
  // The demand-driven pair.
  // ---------------------------------------------------------------------

  ghost predicate Stops(c: Compiled, rules: seq<Rule>, env: Env, meta: Meta)
    requires Indexed(c, rules)
  {
    exists pos :: StopsAt(c, rules, env, meta, pos)
  }

  /** What a slot makes of a connection. */
  function Says(slot: Slot, rules: seq<Rule>, env: Env, meta: Meta): Option<Hit>
    requires slot.index < |rules|
  {
    if Verdict(slot, rules, env, meta) then Some(HitOf(slot, rules, env, meta)) else None
  }

  /** How many slots a match on this metadata reads. */
  function ReadUpTo(c: Compiled, rules: seq<Rule>, env: Env, meta: Meta): nat
    requires Indexed(c, rules)
  {
    var first := FirstVerdict(c, rules, env, meta, 0);
    if first.Some? then first.value + 1 else |c.slots|
  }

  /** The lookups change the answer of slot q, which the lazy match reads. */
  predicate SwayedAt(c: Compiled, rules: seq<Rule>, env: Env, meta: Meta, found: Lookup, q: nat)
    requires Indexed(c, rules)
  {
    && q < |c.slots| && q < ReadUpTo(c, rules, env, meta)
    && Says(c.slots[q], rules, env, meta) != Says(c.slots[q], rules, env, FullyEnriched(c, meta, found))
  }

  ghost predicate Swayed(c: Compiled, rules: seq<Rule>, env: Env, meta: Meta, found: Lookup)
    requires Indexed(c, rules)
  {
    exists q: nat :: SwayedAt(c, rules, env, meta, found, q)
  }

  /** `resolve_proxy_lazy` in rule mode. It answers as the eager pair does, unless
      the scan never stopped for a lookup and a lookup would have swayed a slot it read. */
  method ResolveProxyLazy(c: Compiled, rules: seq<Rule>, env: Env, meta: Meta, found: Lookup, ghost pf: Platform,
                          ghost fates: seq<Fate>)
    returns (r: Option<Hit>)
    requires Built(rules, pf, fates, c) && AllTidy(rules)
    ensures Indexed(c, rules)
    ensures r == Answer(c, rules, env, if Stops(c, rules, env, meta) then FullyEnriched(c, meta, found) else meta)
    ensures r == Answer(c, rules, env, FullyEnriched(c, meta, found)) <==>
              Stops(c, rules, env, meta) || !Swayed(c, rules, env, meta, found)
  {
    hide Built, AllTidy, Answer, StopsAt, DemandedFrom, Swayed, WithOwner, WithIp, IpMissing, ProcessMissing;
    var lazy := MatchRulesLazy(c, rules, env, meta, pf, fates);
    match lazy {
      case Found(hit) => r := Some(hit);
      case NoMatch => r := None;
      case NeedsEnrichment(ip, process) =>
        var enriched := meta;
        if process { enriched := WithOwner(enriched, found); }
        if ip { enriched := WithIp(enriched, found); }
        LookupsCommute(meta, found);
        r := MatchRules(c, rules, env, enriched, pf, fates);
        ghost var pos :| StopsAt(c, rules, env, meta, pos);
        StoppedAsksForAll(c, rules, env, meta, pos, pf, fates);
        OnlyMissingMatters(meta, found, ip, process, c.needsIp, c.needsProcess);
    }
    if !lazy.NeedsEnrichment? { SameAnswerIffNotSwayed(c, rules, env, meta, found, pf, fates); }
  }

  lemma LookupsCommute(meta: Meta, found: Lookup)
    ensures WithIp(WithOwner(meta, found), found) == WithOwner(WithIp(meta, found), found)
  {}

  /** What is not missing is not filled in, asked for or not. */
  lemma OnlyMissingMatters(meta: Meta, found: Lookup, ip: bool, process: bool, ip': bool, process': bool)
    requires (IpMissing(meta) ==> ip == ip') && (ProcessMissing(meta) ==> process == process')
    ensures Enriched(meta, found, ip, process) == Enriched(meta, found, ip', process')
  {}

  /** The flags of a built set are the demands of its slots. */
  lemma FlagsAreDemands(c: Compiled, rules: seq<Rule>, pf: Platform, fates: seq<Fate>)
    requires Built(rules, pf, fates, c) && AllTidy(rules)
    ensures c.needsIp <==> DemandedFrom(c.slots, 0, true)
    ensures c.needsProcess <==> DemandedFrom(c.slots, 0, false)
  {
    hide FateOf, OpOf, AllTidy, TidyAndSorted, OwnedBy, Holding;
    BuiltIsSlotted(rules, pf, fates, c);
    if c.needsIp {
      var t :| 0 <= t < |rules| && LiveAt(fates, t) && DemandsIp(rules[t]);
      var k := SlotOfRule(c, rules, pf, fates, t);
    }
    if c.needsProcess {
      var t :| 0 <= t < |rules| && LiveAt(fates, t) && DemandsProcess(rules[t]);
      var k := SlotOfRule(c, rules, pf, fates, t);
    }
    forall k | 0 <= k < |c.slots|
      ensures c.slots[k].demandsIp ==> c.needsIp
      ensures c.slots[k].demandsProcess ==> c.needsProcess
    {
      SlotsAreLive(rules, pf, fates, |rules|, k);
    }
  }

  lemma SlotOfRule(c: Compiled, rules: seq<Rule>, pf: Platform, fates: seq<Fate>, t: nat) returns (k: nat)
    requires Built(rules, pf, fates, c) && AllTidy(rules) && t < |rules| && LiveAt(fates, t)
    ensures k < |c.slots| && c.slots[k].demandsIp == DemandsIp(rules[t]) &&
            c.slots[k].demandsProcess == DemandsProcess(rules[t])
  {
    hide Built, AllTidy, DemandsIp, DemandsProcess;
    BuiltIsSlotted(rules, pf, fates, c);
    k := SlotOfLive(rules, pf, fates, c, t);
    LiveSlot(rules, pf, fates, k);
  }

  /** A stopped scan asks for everything the set can demand and the connection lacks. */
  lemma StoppedAsksForAll(c: Compiled, rules: seq<Rule>, env: Env, meta: Meta, pos: nat, pf: Platform, fates: seq<Fate>)
    requires Built(rules, pf, fates, c) && AllTidy(rules) && Indexed(c, rules) && StopsAt(c, rules, env, meta, pos)
    ensures IpMissing(meta) ==> DemandedFrom(c.slots, pos, true) == c.needsIp
    ensures ProcessMissing(meta) ==> DemandedFrom(c.slots, pos, false) == c.needsProcess
  {
    hide Built, AllTidy, Verdict, IpMissing, ProcessMissing;
    FlagsAreDemands(c, rules, pf, fates);
  }

  /** A match on the metadata as it is gives the answer on the enriched metadata
      exactly when no slot it reads is swayed. */
  lemma SameAnswerIffNotSwayed(c: Compiled, rules: seq<Rule>, env: Env, meta: Meta, found: Lookup, pf: Platform,
                               fates: seq<Fate>)
    requires Built(rules, pf, fates, c) && AllTidy(rules) && Indexed(c, rules)
    ensures Answer(c, rules, env, meta) == Answer(c, rules, env, FullyEnriched(c, meta, found)) <==>
              !Swayed(c, rules, env, meta, found)
  {
    hide Built, AllTidy, Verdict, FullyEnriched, LiveSlots, OwnedBy, TidySlot;
    BuiltIsSlotted(rules, pf, fates, c);
    var full := FullyEnriched(c, meta, found);
    var before, after := FirstVerdict(c, rules, env, meta, 0), FirstVerdict(c, rules, env, full, 0);
    if !Swayed(c, rules, env, meta, found) {
      forall q: nat | q < |c.slots| && q < ReadUpTo(c, rules, env, meta)
        ensures Says(c.slots[q], rules, env, meta) == Says(c.slots[q], rules, env, full)
      {
        assert !SwayedAt(c, rules, env, meta, found, q);
      }
    } else {
      var q: nat :| SwayedAt(c, rules, env, meta, found, q);
      if Answer(c, rules, env, meta) == Answer(c, rules, env, full) { SamePlace(c, rules, env, meta, full, pf, fates); }
    }
  }

  /** Equal answers come from the same slot. */
  lemma SamePlace(c: Compiled, rules: seq<Rule>, env: Env, meta: Meta, full: Meta, pf: Platform, fates: seq<Fate>)
    requires Slotted(c, LiveSlots(rules, pf, fates), rules)
    requires Answer(c, rules, env, meta) == Answer(c, rules, env, full)
    ensures FirstVerdict(c, rules, env, meta, 0) == FirstVerdict(c, rules, env, full, 0)
  {
    hide Verdict, LiveSlots, OwnedBy, TidySlot;
    var before, after := FirstVerdict(c, rules, env, meta, 0), FirstVerdict(c, rules, env, full, 0);
    if before.Some? {
      assert c.slots[before.value].index == c.slots[after.value].index;
      assert LiveSlots(rules, pf, fates)[before.value].index == LiveSlots(rules, pf, fates)[after.value].index;
    }
  }

  // ---------------------------------------------------------------------
  // Only a slot that does not demand what it reads can be swayed unseen.
  // ---------------------------------------------------------------------

  lemma {:induction false} FirstBlockedStops(c: Compiled, rules: seq<Rule>, env: Env, meta: Meta, q: nat)
    requires Indexed(c, rules) && q < |c.slots| && q < ReadUpTo(c, rules, env, meta) && Blocked(c.slots[q], meta)
    ensures Stops(c, rules, env, meta)
    decreases q
  {
    hide Verdict, Blocked;
    if e: nat :| e < q && Blocked(c.slots[e], meta) {
      FirstBlockedStops(c, rules, env, meta, e);
    } else {
      assert StopsAt(c, rules, env, meta, q);
    }
  }

  /** A slot swayed in a scan that did not stop demands nothing that is missing. */
  lemma SwayedDemandsNothing(c: Compiled, rules: seq<Rule>, env: Env, meta: Meta, found: Lookup, q: nat)
    requires Indexed(c, rules) && !Stops(c, rules, env, meta) && SwayedAt(c, rules, env, meta, found, q)
    ensures IpMissing(meta) ==> !c.slots[q].demandsIp
    ensures ProcessMissing(meta) ==> !c.slots[q].demandsProcess
  {
    hide Verdict, Stops, IpMissing, ProcessMissing;
    if Blocked(c.slots[q], meta) { FirstBlockedStops(c, rules, env, meta, q); }
  }

  /** A no-resolve network, a name, and a network that resolves. In advance the
      third rule has the name resolved and the first takes the connection; on
      demand the second takes it before anything is resolved. */
  lemma NoResolveIsSwayed(net: Net, other: Net, name: string, ip: Ip, texts: (string, string),
                          adapters: (string, string, string), pf: Platform, c: Compiled, env: Env, meta: Meta,
                          owner: Option<Owner>)
    requires var rules := [CidrRule(net, texts.0, adapters.0, false, true), DomainRule(name, adapters.1),
                           CidrRule(other, texts.1, adapters.2, false, false)];
             Built(rules, pf, [Live, Live, Live], c)
    requires meta.host == name && name != [] && meta.dstIp.None? && Contains(net, ip)
    ensures var rules := [CidrRule(net, texts.0, adapters.0, false, true), DomainRule(name, adapters.1),
                          CidrRule(other, texts.1, adapters.2, false, false)];
            var found := Lookup(Some(ip), owner);
            && Indexed(c, rules) && !Stops(c, rules, env, meta)
            && Answer(c, rules, env, meta) == Some(Hit(1, TypeDomain, name, adapters.1))
            && Answer(c, rules, env, FullyEnriched(c, meta, found)) == Some(Hit(0, TypeCidr, texts.0, adapters.0))
  {
    var rules := [CidrRule(net, texts.0, adapters.0, false, true), DomainRule(name, adapters.1),
                  CidrRule(other, texts.1, adapters.2, false, false)];
    var found := Lookup(Some(ip), owner);
    ThreeSlots(rules, pf, c);
    assert c.needsIp by { assert LiveAt([Live, Live, Live], 2) && DemandsIp(rules[2]); }
    var full := FullyEnriched(c, meta, found);
    assert full.dstIp == Some(ip);
    assert Verdict(c.slots[0], rules, env, full) && !Verdict(c.slots[0], rules, env, meta);
    assert Verdict(c.slots[1], rules, env, meta);
    AnswerIsAt(c, rules, env, full, 0);
    AnswerIsAt(c, rules, env, meta, 1);
    StopsNowhere(c, rules, env, meta, 1);
  }

  lemma ThreeSlots(rules: seq<Rule>, pf: Platform, c: Compiled)
    requires |rules| == 3 && Built(rules, pf, [Live, Live, Live], c)
    ensures c.slots == [SlotOf(rules, pf, 0), SlotOf(rules, pf, 1), SlotOf(rules, pf, 2)]
  {
    hide Fated, SlotOf, Holding;
    var fates := [Live, Live, Live];
    assert SlotsUpTo(rules, pf, fates, 0) == [];
    assert SlotsUpTo(rules, pf, fates, 1) == [SlotOf(rules, pf, 0)];
    assert SlotsUpTo(rules, pf, fates, 2) == [SlotOf(rules, pf, 0), SlotOf(rules, pf, 1)];
  }

  /** The three rules do keep their slots, so such a set is built from them. */
  lemma NoResolveIsKept(net: Net, other: Net, name: string, texts: (string, string), adapters: (string, string, string),
                        pf: Platform)
    ensures var rules := [CidrRule(net, texts.0, adapters.0, false, true), DomainRule(name, adapters.1),
                          CidrRule(other, texts.1, adapters.2, false, false)];
            Fated(rules, pf, [Live, Live, Live])
  {
    var rules := [CidrRule(net, texts.0, adapters.0, false, true), DomainRule(name, adapters.1),
                  CidrRule(other, texts.1, adapters.2, false, false)];
    var fates := [Live, Live, Live];
    assert OracleAt(rules, pf, fates, 0) == OracleAt(rules, pf, fates, 1) == Oracle({}, {}, []);
    assert FateOf(rules, pf, fates, 0) == Live;
    assert FateOf(rules, pf, fates, 1) == Live;
    assert FateOf(rules, pf, fates, 2) == Live;
  }

  /** A user id that only the process table knows reaches the rules: on Linux the
      rule for that user takes the connection, looked up in advance or on demand. */
  lemma LookedUpUserIsRouted(uid: nat, text: string, a: string, b: string, pf: Platform, c: Compiled, env: Env,
                             meta: Meta, owner: Owner)
    requires Built([UidRule(uid, text, a), FinalRule(b)], pf, [Live, Live], c) && pf.linux && env.linux
    requires ProcessMissing(meta) && meta.uid.None? && owner.uid == Some(uid)
    ensures var rules := [UidRule(uid, text, a), FinalRule(b)];
            && Indexed(c, rules) && Stops(c, rules, env, meta)
            && Answer(c, rules, env, FullyEnriched(c, meta, Lookup(None, Some(owner)))) ==
              Some(Hit(0, TypeUid, text, a))
  {
    var rules, found := [UidRule(uid, text, a), FinalRule(b)], Lookup(None, Some(owner));
    TwoSlots(rules, pf, c);
    assert c.needsProcess by { assert LiveAt([Live, Live], 0) && DemandsProcess(rules[0]); }
    var full := FullyEnriched(c, meta, found);
    assert full.uid == Some(uid);
    assert Verdict(c.slots[0], rules, env, full);
    AnswerIsAt(c, rules, env, full, 0);
    assert StopsAt(c, rules, env, meta, 0);
  }

  /** A sub-rule asks for what the rules of its block ask for: an address looked up
      for a network in the block, or a user for a user rule in it, decides. */
  lemma LookupsReachBlocks(inner: Rule, name: string, b: string, pf: Platform, c: Compiled, env: Env, meta: Meta,
                           found: Lookup)
    requires Built([SubRule([inner], name), FinalRule(b)], pf, [Live, Live], c)
    requires
      || (inner.CidrRule? && !inner.src && !inner.noResolve && meta.dstIp.None? && meta.host != []
          && found.ip.Some? && Contains(inner.net, found.ip.value))
      || (inner.UidRule? && env.linux && ProcessMissing(meta) && meta.uid.None?
          && found.owner.Some? && found.owner.value.uid == Some(inner.uid))
    ensures var rules := [SubRule([inner], name), FinalRule(b)];
            && Indexed(c, rules) && Stops(c, rules, env, meta)
            && Answer(c, rules, env, FullyEnriched(c, meta, found)) == Some(Hit(0, TypeSubRule, name, inner.adapter))
  {
    hide Built;
    var rules := [SubRule([inner], name), FinalRule(b)];
    TwoSlots(rules, pf, c);
    BlockFlags(inner, name, b, pf, c);
    var full := FullyEnriched(c, meta, found);
    var block := [inner];
    assert block[0] == inner && block[1..] == [];
    assert Holds(inner, env, full);
    assert Resolve(inner, env, full) == Some(inner.adapter);
    assert ResolveBlock(block, env, full) == Some(inner.adapter);
    assert Holds(block[0], env, full);
    assert Verdict(c.slots[0], rules, env, full);
    AnswerIsAt(c, rules, env, full, 0);
    assert StopsAt(c, rules, env, meta, 0);
  }

  lemma BlockFlags(inner: Rule, name: string, b: string, pf: Platform, c: Compiled)
    requires Built([SubRule([inner], name), FinalRule(b)], pf, [Live, Live], c)
    ensures var block := SubRule([inner], name);
            && (DemandsIp(inner) ==> DemandsIp(block) && c.needsIp)
            && (DemandsProcess(inner) ==> DemandsProcess(block) && c.needsProcess)
  {
    hide DemandsIp, DemandsProcess, Built;
    BlockDemands(inner, name);
    FlagsOfFirst([SubRule([inner], name), FinalRule(b)], pf, c);
  }

  lemma BlockDemands(inner: Rule, name: string)
    ensures DemandsIp(inner) ==> DemandsIp(SubRule([inner], name))
    ensures DemandsProcess(inner) ==> DemandsProcess(SubRule([inner], name))
  {
    assert [inner][0] == inner;
  }

  lemma FlagsOfFirst(rules: seq<Rule>, pf: Platform, c: Compiled)
    requires |rules| == 2 && Built(rules, pf, [Live, Live], c)
    ensures (DemandsIp(rules[0]) ==> c.needsIp) && (DemandsProcess(rules[0]) ==> c.needsProcess)
  {
    hide Fated, Holding, SlotsUpTo, HandedOver, PatternsUpTo, DemandsIp, DemandsProcess;
    assert LiveAt([Live, Live], 0);
  }

  /** A user id the connection came with is not replaced. */
  lemma OwnUserStays(c: Compiled, meta: Meta, found: Lookup)
    requires meta.uid.Some?
    ensures FullyEnriched(c, meta, found).uid == meta.uid
  {}

  /** Neither is an address, and without a host none is looked up. */
  lemma OwnAddressStays(c: Compiled, meta: Meta, found: Lookup)
    requires meta.dstIp.Some? || meta.host == []
    ensures FullyEnriched(c, meta, found).dstIp == meta.dstIp
  {}

  /** The rules of that input keep their slots. */
  lemma UserRuleIsKept(uid: nat, text: string, a: string, b: string, pf: Platform)
    requires pf.linux
    ensures Fated([UidRule(uid, text, a), FinalRule(b)], pf, [Live, Live])
  {
    var rules := [UidRule(uid, text, a), FinalRule(b)];
    assert FateOf(rules, pf, [Live, Live], 0) == Live == FateOf(rules, pf, [Live, Live], 1);
  }
}
