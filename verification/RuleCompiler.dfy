/** The rule compiler: which rules keep a slot, and how the compiled set matches. */
module RuleCompiler {
  import opened Common
  import opened DomainTrie
  import opened Wildcard
  import opened Rules
  import opened RuleCoverage

  /** What compilation knows: the platform and how networks and user ids print. */
  datatype Platform = Platform(linux: bool, showNet: Net -> string, showUid: nat -> string)

  ghost predicate PrintsApart(pf: Platform) {
    && (forall a: Net, b: Net :: pf.showNet(a) == pf.showNet(b) ==> a == b)
    && (forall a: nat, b: nat :: pf.showUid(a) == pf.showUid(b) ==> a == b)
  }

  // ---------------------------------------------------------------------
  // One rule.
  // ---------------------------------------------------------------------

  function FoldedOf(rule: Rule, pf: Platform): Folded {
    Fold(if LowerRule(rule).Some? then LowerRule(rule).value else Fallback, pf.linux)
  }

  /** The rule is dropped because it can never match. */
  predicate IsDead(rule: Rule, pf: Platform) {
    NeverMatches(rule) || FoldedOf(rule, pf).Never?
  }

  /** The operation of a rule that is not dead. */
  function OpOf(rule: Rule, pf: Platform): Op {
    match FoldedOf(rule, pf)
    case Kept(op) => op
    case _ => Match
  }

  /** What a rule's slot stands for. */
  predicate SlotHolds(op: Op, rule: Rule, env: Env, meta: Meta) {
    if op.Fallback? then Holds(rule, env, meta) else OpMeans(op, env, meta)
  }

  /** Folding to one child can leave a leaf, but never one that was not there. */
  lemma {:induction false} FoldInventsNoFallback(op: Op, linux: bool)
    requires NoFallback(op)
    ensures Fold(op, linux).Kept? ==> NoFallback(Fold(op, linux).op)
    decreases op
  {
    match op
    case AllOf(ops) => FoldAllInventsNoFallback(ops, linux, []);
    case AnyOf(ops) => FoldAnyInventsNoFallback(ops, linux, []);
    case NotOp(inner) => FoldInventsNoFallback(inner, linux);
    case _ =>
  }

  predicate NoFallback(op: Op) {
    match op
    case AllOf(ops) => NoFallbacks(ops)
    case AnyOf(ops) => NoFallbacks(ops)
    case NotOp(inner) => NoFallback(inner)
    case _ => !op.Fallback? && !op.TrieOwned?
  }

  predicate NoFallbacks(ops: seq<Op>) {
    forall i :: 0 <= i < |ops| ==> NoFallback(ops[i])
  }

  lemma {:induction false} FoldAllInventsNoFallback(ops: seq<Op>, linux: bool, kept: seq<Op>)
    requires NoFallbacks(ops) && NoFallbacks(kept)
    ensures FoldAll(ops, linux, kept).Kept? ==> NoFallback(FoldAll(ops, linux, kept).op)
    decreases ops
  {
    if ops != [] {
      FoldInventsNoFallback(ops[0], linux);
      assert NoFallbacks(ops[1..]);
      match Fold(ops[0], linux)
      case Never =>
      case Always => FoldAllInventsNoFallback(ops[1..], linux, kept);
      case Kept(folded) => FoldAllInventsNoFallback(ops[1..], linux, kept + [folded]);
    }
  }

  lemma {:induction false} FoldAnyInventsNoFallback(ops: seq<Op>, linux: bool, kept: seq<Op>)
    requires NoFallbacks(ops) && NoFallbacks(kept)
    ensures FoldAny(ops, linux, kept).Kept? ==> NoFallback(FoldAny(ops, linux, kept).op)
    decreases ops
  {
    if ops != [] {
      FoldInventsNoFallback(ops[0], linux);
      assert NoFallbacks(ops[1..]);
      match Fold(ops[0], linux)
      case Never => FoldAnyInventsNoFallback(ops[1..], linux, kept);
      case Always =>
      case Kept(folded) => FoldAnyInventsNoFallback(ops[1..], linux, kept + [folded]);
    }
  }

  lemma {:induction false} LoweredHasNoFallback(rule: Rule)
    ensures LowerRule(rule).Some? ==> NoFallback(LowerRule(rule).value)
    decreases rule
  {
    match rule
    case AndRule(rules, _) => LoweredHaveNoFallback(rules);
    case OrRule(rules, _) => LoweredHaveNoFallback(rules);
    case NotRule(inner, _) => LoweredHasNoFallback(inner);
    case _ =>
  }

  lemma {:induction false} LoweredHaveNoFallback(rules: seq<Rule>)
    ensures LowerRules(rules).Some? ==> NoFallbacks(LowerRules(rules).value)
    decreases rules
  {
    if rules != [] {
      LoweredHasNoFallback(rules[0]);
      LoweredHaveNoFallback(rules[1..]);
    }
  }

  /** Lowering and folding together keep the meaning of a rule, and only drop
      rules that hold for nothing. What the operation accepts is that meaning,
      unless an empty wildcard in it faces an absent host. */
  lemma CompiledMeansRule(rule: Rule, pf: Platform, env: Env, meta: Meta)
    requires env.linux == pf.linux
    ensures IsDead(rule, pf) ==> !Holds(rule, env, meta)
    ensures !IsDead(rule, pf) ==> (SlotHolds(OpOf(rule, pf), rule, env, meta) <==> Holds(rule, env, meta))
    ensures !IsDead(rule, pf) && !OpOf(rule, pf).Fallback? && !Misread(OpOf(rule, pf), meta) ==>
              (OpHolds(OpOf(rule, pf), env, meta) <==> Holds(rule, env, meta))
    ensures !OpOf(rule, pf).TrieOwned?
  {
    hide Holds, OpMeans, OpHolds, Fold, LowerRule, NoFallback, Misread;
    if !Misread(OpOf(rule, pf), meta) { OnlyBlanksDiffer(OpOf(rule, pf), env, meta); }
    var lowered := LowerRule(rule);
    LoweredHasNoFallback(rule);
    DeadHoldsNever(rule, env, meta);
    if lowered.Some? {
      LowerKeepsMeaning(rule, env, meta);
      FoldMeansTheSame(lowered.value, env, meta);
      FoldInventsNoFallback(lowered.value, pf.linux);
      NoFallbackIsNeither(OpOf(rule, pf));
      MatchHolds(env, meta);
    } else {
      FallbackFoldsToItself(pf.linux);
    }
  }

  lemma FoldMeansTheSame(op: Op, env: Env, meta: Meta)
    ensures match Fold(op, env.linux)
            case Never => !OpMeans(op, env, meta)
            case Always => OpMeans(op, env, meta)
            case Kept(folded) => OpMeans(folded, env, meta) <==> OpMeans(op, env, meta)
  {
    FoldKeepsMeaning(op, env, meta, false);
  }

  lemma DeadHoldsNever(rule: Rule, env: Env, meta: Meta)
    ensures NeverMatches(rule) ==> !Holds(rule, env, meta)
  {}

  lemma MatchHolds(env: Env, meta: Meta)
    ensures OpMeans(Match, env, meta) && NoFallback(Match)
  {}

  lemma NoFallbackIsNeither(op: Op)
    ensures NoFallback(op) ==> !op.Fallback? && !op.TrieOwned?
  {}

  lemma FallbackFoldsToItself(linux: bool)
    ensures Fold(Fallback, linux) == Kept(Fallback)
  {}

  // ---------------------------------------------------------------------
  // Duplicate keys.
  // ---------------------------------------------------------------------

  /** `dedup_fingerprint` */
  function Fingerprint(payload: string, op: Op, pf: Platform): Option<string> {
    match op
    case Domain(name) => Some(name)
    case DomainSuffix(suffix) => Some(suffix)
    case DomainKeyword(word) => Some(word)
    case DomainWildcard(_) => Some(Lower(payload))
    case IpCidr(net, _) => Some(pf.showNet(net))
    case Uid(uid) => Some(pf.showUid(uid))
    case Test(_, handle, key) =>
      (match key
       case ByHandle => Some(handle)
       case ByPayload => Some(payload)
       case ByFoldedPayload => Some(Lower(payload))
       case NoKey => None)
    case Match => Some(payload)
    case _ => None
  }

  datatype Key = Key(t: RuleType, ip: bool, process: bool, mark: string)

  function KeyOf(rule: Rule, pf: Platform): Option<Key> {
    var mark := Fingerprint(PayloadOf(rule), OpOf(rule, pf), pf);
    if mark.Some? then Some(Key(TypeOf(rule), DemandsIp(rule), DemandsProcess(rule), mark.value)) else None
  }

  /** The two operations are the same test, up to the case of a wildcard. */
  predicate SameTest(a: Op, b: Op) {
    || a == b
    || (a.DomainWildcard? && b.DomainWildcard? && Lower(a.pattern) == Lower(b.pattern))
    || (a.Test? && b.Test? && a.tag == b.tag && a.handle == b.handle)
  }

  lemma {:induction false} GlobIgnoresCase(p: string, q: string, host: string)
    requires Lower(p) == Lower(q)
    ensures Glob(p, host) <==> Glob(q, host)
    decreases |p|
  {
    assert |p| == |Lower(p)| == |Lower(q)| == |q|;
    if p != [] {
      assert LowerChar(p[0]) == LowerChar(q[0]);
      assert Lower(p[1..]) == Lower(p)[1..] && Lower(q[1..]) == Lower(q)[1..];
      forall k | 0 <= k <= |host| ensures Glob(p[1..], host[k..]) <==> Glob(q[1..], host[k..]) {
        GlobIgnoresCase(p[1..], q[1..], host[k..]);
      }
    }
  }

  lemma SameTestSameMeaning(a: Op, b: Op, env: Env, meta: Meta)
    requires SameTest(a, b)
    ensures OpMeans(a, env, meta) <==> OpMeans(b, env, meta)
  {
    if a.DomainWildcard? && b.DomainWildcard? { GlobIgnoresCase(a.pattern, b.pattern, meta.host); }
  }

  predicate IsLogic(rule: Rule) {
    rule.AndRule? || rule.OrRule?
  }

  /** A rule that is not AND or OR keeps its own operation. */
  lemma PlainOp(rule: Rule, pf: Platform)
    requires !IsLogic(rule) && !rule.NotRule? && !IsDead(rule, pf)
    ensures LowerRule(rule).Some? ==> OpOf(rule, pf) == LowerRule(rule).value
    ensures LowerRule(rule).None? ==> OpOf(rule, pf) == Fallback
  {
  }

  /** A NOT rule stays a negation, or holds always. */
  lemma NegatedOp(rule: Rule, pf: Platform)
    requires rule.NotRule? && !IsDead(rule, pf)
    ensures OpOf(rule, pf).NotOp? || OpOf(rule, pf) in {Match, Fallback}
  {
  }

  /** Equal keys mean the same test, except between two AND or two OR rules. */
  lemma EqualKeysMeanSameTest(a: Rule, b: Rule, pf: Platform)
    requires PrintsApart(pf) && !IsDead(a, pf) && !IsDead(b, pf)
    requires KeyOf(a, pf).Some? && KeyOf(a, pf) == KeyOf(b, pf)
    ensures SameTest(OpOf(a, pf), OpOf(b, pf)) || IsLogic(a)
  {
    hide FoldedOf, DemandsIp, DemandsProcess, IsDead;
    if a.NotRule? {
      NegatedOp(a, pf);
      NegatedOp(b, pf);
    } else if !IsLogic(a) {
      PlainOp(a, pf);
      PlainOp(b, pf);
    }
  }

  // ---------------------------------------------------------------------
  // The fate of every rule.
  // ---------------------------------------------------------------------

  datatype Fate = Live | Dead | Duplicate | Shadowed | Covered | Unreachable

  /** Rule t was read and not dropped as dead. */
  predicate Considered(fates: seq<Fate>, t: int) {
    0 <= t < |fates| && fates[t] !in {Dead, Unreachable}
  }

  predicate LiveAt(fates: seq<Fate>, t: int) {
    0 <= t < |fates| && fates[t].Live?
  }

  /** An earlier live rule always matches. */
  predicate Terminated(rules: seq<Rule>, pf: Platform, fates: seq<Fate>, i: nat)
    requires i <= |rules|
  {
    exists t :: 0 <= t < i && LiveAt(fates, t) && OpOf(rules[t], pf).Match?
  }

  /** Rule t, read before rule i, has the same key. */
  predicate Twin(rules: seq<Rule>, pf: Platform, fates: seq<Fate>, t: int, i: nat)
    requires i < |rules|
  {
    0 <= t < i && Considered(fates, t) && KeyOf(rules[t], pf) == KeyOf(rules[i], pf)
  }

  predicate HasTwin(rules: seq<Rule>, pf: Platform, fates: seq<Fate>, i: nat)
    requires i < |rules|
  {
    KeyOf(rules[i], pf).Some? && exists t :: 0 <= t < i && Twin(rules, pf, fates, t, i)
  }

  /** What the live rules before i claim among domains. */
  function OracleAt(rules: seq<Rule>, pf: Platform, fates: seq<Fate>, i: nat): Oracle
    requires i <= |rules|
    decreases i
  {
    if i == 0 then Oracle({}, {}, [])
    else
      var before := OracleAt(rules, pf, fates, i - 1);
      if LiveAt(fates, i - 1) then Absorb(before, OpOf(rules[i - 1], pf), PayloadOf(rules[i - 1])) else before
  }

  /** The live networks before i on one side of the connection. */
  function CoverageAt(rules: seq<Rule>, pf: Platform, fates: seq<Fate>, i: nat, src: bool): Coverage
    requires i <= |rules|
    decreases i
  {
    if i == 0 then Empty()
    else
      var before := CoverageAt(rules, pf, fates, i - 1, src);
      var op := OpOf(rules[i - 1], pf);
      if LiveAt(fates, i - 1) && op.IpCidr? && op.src == src then AbsorbNet(before, op.net) else before
  }

  predicate IpDemandedBefore(rules: seq<Rule>, fates: seq<Fate>, i: nat)
    requires i <= |rules|
  {
    exists t :: 0 <= t < i && LiveAt(fates, t) && DemandsIp(rules[t])
  }

  predicate CoveredAt(rules: seq<Rule>, pf: Platform, fates: seq<Fate>, i: nat)
    requires i < |rules|
  {
    var op := OpOf(rules[i], pf);
    && op.IpCidr? && CoversNet(CoverageAt(rules, pf, fates, i, op.src), op.net)
    && (!DemandsIp(rules[i]) || IpDemandedBefore(rules, fates, i))
  }

  /** What becomes of rule i, given what became of the rules before it. */
  function FateOf(rules: seq<Rule>, pf: Platform, fates: seq<Fate>, i: nat): Fate
    requires i < |rules|
  {
    if Terminated(rules, pf, fates, i) then Unreachable
    else if IsDead(rules[i], pf) then Dead
    else if HasTwin(rules, pf, fates, i) then Duplicate
    else if Shadows(OracleAt(rules, pf, fates, i), OpOf(rules[i], pf), PayloadOf(rules[i])) then Shadowed
    else if CoveredAt(rules, pf, fates, i) then Covered
    else Live
  }

  ghost predicate Fated(rules: seq<Rule>, pf: Platform, fates: seq<Fate>) {
    |fates| == |rules| && forall i :: 0 <= i < |rules| ==> fates[i] == FateOf(rules, pf, fates, i)
  }

  // ---------------------------------------------------------------------
  // A rule that matches first is live, unless it was misjudged.
  // ---------------------------------------------------------------------

  /** The networks are networks and the addresses addresses. */
  predicate Addressed(rules: seq<Rule>, pf: Platform, meta: Meta) {
    && (forall i :: 0 <= i < |rules| ==> var op := OpOf(rules[i], pf); op.IpCidr? ==> ValidNet(op.net))
    && (meta.srcIp.Some? ==> ValidIp(meta.srcIp.value)) && (meta.dstIp.Some? ==> ValidIp(meta.dstIp.value))
  }

  /** Everything the comparison of a compiled set with its source rules assumes. */
  ghost predicate Comparable(rules: seq<Rule>, pf: Platform, env: Env, meta: Meta) {
    PrintsApart(pf) && env.linux == pf.linux && Addressed(rules, pf, meta)
  }

  predicate FirstToHold(rules: seq<Rule>, env: Env, meta: Meta, w: nat) {
    w < |rules| && Holds(rules[w], env, meta) && forall t :: 0 <= t < w ==> !Holds(rules[t], env, meta)
  }

  /** Rule w was taken for a duplicate of rules that test something else. */
  predicate LostToTwin(rules: seq<Rule>, pf: Platform, fates: seq<Fate>, w: nat)
    requires w < |rules| == |fates|
  {
    && fates[w].Duplicate?
    && forall t :: 0 <= t < w && Twin(rules, pf, fates, t, w) ==> !SameTest(OpOf(rules[t], pf), OpOf(rules[w], pf))
  }

  /** What the operation itself is about: a wildcard matches by its pattern, though
      a logic rule that folded to it lends it another payload. */
  function TextOf(op: Op, payload: string): string {
    if op.DomainWildcard? then op.pattern else payload
  }

  /** What the live rules before i claim in truth. */
  function TrueOracleAt(rules: seq<Rule>, pf: Platform, fates: seq<Fate>, i: nat): Oracle
    requires i <= |rules|
    decreases i
  {
    if i == 0 then Oracle({}, {}, [])
    else
      var before, op := TrueOracleAt(rules, pf, fates, i - 1), OpOf(rules[i - 1], pf);
      if LiveAt(fates, i - 1) then Absorb(before, op, TextOf(op, PayloadOf(rules[i - 1]))) else before
  }

  /** Rule w was taken for shadowed by its payload or by another's, while by the
      patterns they match by it is not. */
  predicate LostToGarbledWildcard(rules: seq<Rule>, pf: Platform, fates: seq<Fate>, w: nat)
    requires w < |rules| == |fates|
  {
    var op := OpOf(rules[w], pf);
    fates[w].Shadowed? && !Shadows(TrueOracleAt(rules, pf, fates, w), op, TextOf(op, PayloadOf(rules[w])))
  }

  predicate Misjudged(rules: seq<Rule>, pf: Platform, fates: seq<Fate>, w: nat)
    requires w < |rules| == |fates|
  {
    LostToTwin(rules, pf, fates, w) || LostToGarbledWildcard(rules, pf, fates, w)
  }

  /** Claims come from live rules. */
  ghost predicate ClaimedBefore(rules: seq<Rule>, pf: Platform, fates: seq<Fate>, i: nat, env: Env, meta: Meta)
    requires i <= |rules|
  {
    exists t :: 0 <= t < i && LiveAt(fates, t) && OpMeans(OpOf(rules[t], pf), env, meta)
  }

  lemma AbsorbedClaim(o: Oracle, op: Op, payload: string, env: Env, meta: Meta)
    requires Straight(op, payload) && Claimed(Absorb(o, op, payload), meta.host)
    ensures Claimed(o, meta.host) || OpMeans(op, env, meta)
  {
    hide SuffixMatches, KeywordMatches, StarMatches, Glob;
    if !Claimed(o, meta.host) && op.DomainWildcard? && StarRest(payload).Some? {
      StarGlob(payload, meta.host);
    }
  }

  lemma {:induction false} TrueClaimsAreLive(rules: seq<Rule>, pf: Platform, fates: seq<Fate>, i: nat, env: Env,
      meta: Meta)
    requires i <= |rules| && Claimed(TrueOracleAt(rules, pf, fates, i), meta.host)
    ensures ClaimedBefore(rules, pf, fates, i, env, meta)
    decreases i
  {
    hide Claimed, Absorb, OpMeans, OpOf;
    if i == 0 {
      NothingClaimed(meta.host);
    } else {
      var before, op := TrueOracleAt(rules, pf, fates, i - 1), OpOf(rules[i - 1], pf);
      if LiveAt(fates, i - 1) { AbsorbedClaim(before, op, TextOf(op, PayloadOf(rules[i - 1])), env, meta); }
      if Claimed(before, meta.host) { TrueClaimsAreLive(rules, pf, fates, i - 1, env, meta); }
    }
  }

  lemma NothingClaimed(host: string)
    ensures !Claimed(Oracle({}, {}, []), host)
  {}

  /** The networks CoverageAt stands for. */
  function NetsAt(rules: seq<Rule>, pf: Platform, fates: seq<Fate>, i: nat, src: bool): set<Net>
    requires i <= |rules|
    decreases i
  {
    if i == 0 then {}
    else
      var before := NetsAt(rules, pf, fates, i - 1, src);
      var op := OpOf(rules[i - 1], pf);
      if LiveAt(fates, i - 1) && op.IpCidr? && op.src == src then before + {op.net} else before
  }

  lemma {:induction false} CoverageIsUnion(rules: seq<Rule>, pf: Platform, fates: seq<Fate>, i: nat, src: bool)
    requires i <= |rules|
    requires forall t :: 0 <= t < i ==> var op := OpOf(rules[t], pf); op.IpCidr? ==> ValidNet(op.net)
    ensures IsUnionOf(CoverageAt(rules, pf, fates, i, src), NetsAt(rules, pf, fates, i, src))
    decreases i
  {
    hide IsUnionOf, ValidNet, OpOf;
    if i == 0 {
      EmptyIsUnion();
    } else {
      CoverageIsUnion(rules, pf, fates, i - 1, src);
      var op := OpOf(rules[i - 1], pf);
      if op.IpCidr? {
        AbsorbKeepsUnion(CoverageAt(rules, pf, fates, i - 1, src), NetsAt(rules, pf, fates, i - 1, src), op.net);
      }
    }
  }

  lemma EmptyIsUnion()
    ensures IsUnionOf(Empty(), {})
  {}

  lemma {:induction false} NetsAreLive(rules: seq<Rule>, pf: Platform, fates: seq<Fate>, i: nat, src: bool, net: Net)
    returns (t: nat)
    requires i <= |rules| && net in NetsAt(rules, pf, fates, i, src)
    ensures t < i && LiveAt(fates, t) && OpOf(rules[t], pf) == IpCidr(net, src)
    decreases i
  {
    hide OpOf;
    var op := OpOf(rules[i - 1], pf);
    if LiveAt(fates, i - 1) && op == IpCidr(net, src) {
      t := i - 1;
    } else {
      t := NetsAreLive(rules, pf, fates, i - 1, src, net);
    }
  }

  /** A rule considered before w, when w is the first to hold, has an operation
      that does not hold. */
  lemma EarlierOpFails(rules: seq<Rule>, pf: Platform, fates: seq<Fate>, env: Env, meta: Meta, w: nat, t: nat)
    requires Fated(rules, pf, fates) && Comparable(rules, pf, env, meta) && FirstToHold(rules, env, meta, w)
    requires t < w && Considered(fates, t) && !OpOf(rules[t], pf).Fallback?
    ensures !OpMeans(OpOf(rules[t], pf), env, meta)
  {
    hide FoldedOf, OpMeans, Holds;
    assert fates[t] == FateOf(rules, pf, fates, t);
    CompiledMeansRule(rules[t], pf, env, meta);
  }

  lemma FirstIsNotTwin(rules: seq<Rule>, pf: Platform, fates: seq<Fate>, env: Env, meta: Meta, w: nat)
    requires Fated(rules, pf, fates) && Comparable(rules, pf, env, meta) && FirstToHold(rules, env, meta, w)
    requires fates[w].Duplicate?
    ensures LostToTwin(rules, pf, fates, w)
  {
    hide FateOf, OpMeans, Holds, OpOf, IsDead, Addressed, PrintsApart;
    NotDeadUnlessDead(rules, pf, fates, w);
    CompiledMeansRule(rules[w], pf, env, meta);
    forall t | 0 <= t < w && Twin(rules, pf, fates, t, w)
      ensures !SameTest(OpOf(rules[t], pf), OpOf(rules[w], pf))
    {
      if SameTest(OpOf(rules[t], pf), OpOf(rules[w], pf)) {
        KeyedIsNotFallback(rules[w], pf);
        KeyedIsNotFallback(rules[t], pf);
        SameTestSameMeaning(OpOf(rules[t], pf), OpOf(rules[w], pf), env, meta);
        EarlierOpFails(rules, pf, fates, env, meta, w, t);
      }
    }
  }

  lemma NotDeadUnlessDead(rules: seq<Rule>, pf: Platform, fates: seq<Fate>, i: nat)
    requires Fated(rules, pf, fates) && i < |rules| && Considered(fates, i)
    ensures !IsDead(rules[i], pf) && (fates[i].Duplicate? ==> KeyOf(rules[i], pf).Some?)
  {
    hide IsDead, KeyOf, Shadows;
    assert fates[i] == FateOf(rules, pf, fates, i);
  }

  lemma KeyedIsNotFallback(rule: Rule, pf: Platform)
    requires KeyOf(rule, pf).Some?
    ensures !OpOf(rule, pf).Fallback?
  {}

  lemma FirstIsNotShadowed(rules: seq<Rule>, pf: Platform, fates: seq<Fate>, env: Env, meta: Meta, w: nat)
    requires Fated(rules, pf, fates) && Comparable(rules, pf, env, meta) && FirstToHold(rules, env, meta, w)
    requires fates[w].Shadowed?
    ensures LostToGarbledWildcard(rules, pf, fates, w)
  {
    hide OpMeans, Holds, OpOf, IsDead, Addressed, PrintsApart, Claimed, Shadows, HasTwin;
    assert fates[w] == FateOf(rules, pf, fates, w);
    var claims, op := TrueOracleAt(rules, pf, fates, w), OpOf(rules[w], pf);
    var text := TextOf(op, PayloadOf(rules[w]));
    if Shadows(claims, op, text) {
      CompiledMeansRule(rules[w], pf, env, meta);
      ShadowedIsNotFallback(claims, op, text);
      ShadowedIsClaimed(claims, op, text, env, meta);
      TrueClaimsAreLive(rules, pf, fates, w, env, meta);
      var t :| 0 <= t < w && LiveAt(fates, t) && OpMeans(OpOf(rules[t], pf), env, meta);
      HoldingIsNotFallback(OpOf(rules[t], pf), env, meta);
      EarlierOpFails(rules, pf, fates, env, meta, w, t);
    }
  }

  lemma ShadowedIsNotFallback(o: Oracle, op: Op, payload: string)
    requires Shadows(o, op, payload)
    ensures !op.Fallback?
  {}

  lemma HoldingIsNotFallback(op: Op, env: Env, meta: Meta)
    requires OpMeans(op, env, meta)
    ensures !op.Fallback?
  {}

  lemma FirstIsNotCovered(rules: seq<Rule>, pf: Platform, fates: seq<Fate>, env: Env, meta: Meta, w: nat)
    requires Fated(rules, pf, fates) && Comparable(rules, pf, env, meta) && FirstToHold(rules, env, meta, w)
    ensures !fates[w].Covered?
  {
    hide Holds, OpOf, IsDead, PrintsApart, Shadows, HasTwin, IsUnionOf, Terminated;
    assert fates[w] == FateOf(rules, pf, fates, w);
    if fates[w].Covered? {
      CompiledMeansRule(rules[w], pf, env, meta);
      var op := OpOf(rules[w], pf);
      CoverageIsUnion(rules, pf, fates, w, op.src);
      CoveredIffInUnion(CoverageAt(rules, pf, fates, w, op.src), NetsAt(rules, pf, fates, w, op.src), op.net);
      var ip := Address(meta, op.src).value;
      var net :| net in NetsAt(rules, pf, fates, w, op.src) && Contains(net, ip);
      var t := NetsAreLive(rules, pf, fates, w, op.src, net);
      EarlierOpFails(rules, pf, fates, env, meta, w, t);
    }
  }

  lemma FirstIsReached(rules: seq<Rule>, pf: Platform, fates: seq<Fate>, env: Env, meta: Meta, w: nat)
    requires Fated(rules, pf, fates) && Comparable(rules, pf, env, meta) && FirstToHold(rules, env, meta, w)
    ensures !fates[w].Unreachable?
  {
    hide Holds, OpOf, IsDead, PrintsApart, Shadows, HasTwin, Addressed;
    assert fates[w] == FateOf(rules, pf, fates, w);
    if fates[w].Unreachable? {
      var t :| 0 <= t < w && LiveAt(fates, t) && OpOf(rules[t], pf).Match?;
      EarlierOpFails(rules, pf, fates, env, meta, w, t);
    }
  }

  /** The first rule to hold keeps its slot, unless it was misjudged. */
  lemma FirstIsLiveUnlessMisjudged(rules: seq<Rule>, pf: Platform, fates: seq<Fate>, env: Env, meta: Meta, w: nat)
    requires Fated(rules, pf, fates) && Comparable(rules, pf, env, meta) && FirstToHold(rules, env, meta, w)
    ensures fates[w].Live? <==> !Misjudged(rules, pf, fates, w)
  {
    hide FateOf, Holds, OpOf, Addressed, PrintsApart;
    FirstIsReached(rules, pf, fates, env, meta, w);
    FirstIsNotCovered(rules, pf, fates, env, meta, w);
    if fates[w].Duplicate? { FirstIsNotTwin(rules, pf, fates, env, meta, w); }
    if fates[w].Shadowed? { FirstIsNotShadowed(rules, pf, fates, env, meta, w); }
    if fates[w].Dead? { FirstIsNotDead(rules, pf, fates, env, meta, w); }
  }

  lemma FirstIsNotDead(rules: seq<Rule>, pf: Platform, fates: seq<Fate>, env: Env, meta: Meta, w: nat)
    requires Fated(rules, pf, fates) && Comparable(rules, pf, env, meta) && FirstToHold(rules, env, meta, w)
    ensures !fates[w].Dead?
  {
    hide Holds, OpOf, Addressed, PrintsApart, IsDead, HasTwin, Terminated, Shadows, CoveredAt;
    assert fates[w] == FateOf(rules, pf, fates, w);
    CompiledMeansRule(rules[w], pf, env, meta);
  }

  // ---- Misjudging takes a logic rule that folds to a single test ----

  /** An AND or OR rule that folds to something other than a logic tree or MATCH. */
  predicate Collapses(rule: Rule, pf: Platform) {
    IsLogic(rule) && !IsDead(rule, pf) && KeyOf(rule, pf).Some? && !OpOf(rule, pf).Match?
  }

  lemma PlainIsStraight(rule: Rule, pf: Platform)
    requires !Collapses(rule, pf)
    ensures Straight(OpOf(rule, pf), PayloadOf(rule))
  {
    hide FoldedOf, DemandsIp, DemandsProcess;
    if OpOf(rule, pf).DomainWildcard? {
      if IsDead(rule, pf) {
        assert FoldedOf(rule, pf).Never? || NeverMatches(rule);
        if NeverMatches(rule) { DeadTestHasNoOp(rule, pf); }
      } else if rule.NotRule? {
        NegatedOp(rule, pf);
      } else if !IsLogic(rule) {
        PlainOp(rule, pf);
      }
    }
  }

  lemma DeadTestHasNoOp(rule: Rule, pf: Platform)
    requires NeverMatches(rule)
    ensures OpOf(rule, pf) == Fallback
  {}

  /** Without collapses the recorded claims are the true ones. */
  lemma {:induction false} PlainClaimsAreTrue(rules: seq<Rule>, pf: Platform, fates: seq<Fate>, i: nat)
    requires i <= |rules| && forall t :: 0 <= t < i ==> !Collapses(rules[t], pf)
    ensures OracleAt(rules, pf, fates, i) == TrueOracleAt(rules, pf, fates, i)
    decreases i
  {
    hide Collapses, OpOf, Absorb;
    if i > 0 {
      PlainClaimsAreTrue(rules, pf, fates, i - 1);
      PlainIsStraight(rules[i - 1], pf);
    }
  }

  lemma OnlyCollapsesMisjudge(rules: seq<Rule>, pf: Platform, fates: seq<Fate>, w: nat)
    requires Fated(rules, pf, fates) && PrintsApart(pf) && w < |rules|
    requires forall t :: 0 <= t <= w ==> !Collapses(rules[t], pf)
    ensures !Misjudged(rules, pf, fates, w)
  {
    hide FateOf, OpOf, IsDead, PrintsApart, Shadows;
    PlainClaimsAreTrue(rules, pf, fates, w);
    PlainIsStraight(rules[w], pf);
    if fates[w].Shadowed? { ShadowedByClaims(rules, pf, fates, w); }
    if fates[w].Duplicate? {
      DuplicateHasTwin(rules, pf, fates, w);
      var t :| 0 <= t < w && Twin(rules, pf, fates, t, w);
      NotDeadUnlessDead(rules, pf, fates, w);
      NotDeadUnlessDead(rules, pf, fates, t);
      EqualKeysMeanSameTest(rules[t], rules[w], pf);
    }
  }

  lemma ShadowedByClaims(rules: seq<Rule>, pf: Platform, fates: seq<Fate>, w: nat)
    requires Fated(rules, pf, fates) && w < |rules| && fates[w].Shadowed?
    ensures Shadows(OracleAt(rules, pf, fates, w), OpOf(rules[w], pf), PayloadOf(rules[w]))
  {
    hide HasTwin, Shadows, IsDead, Terminated, CoveredAt;
    assert fates[w] == FateOf(rules, pf, fates, w);
  }

  lemma DuplicateHasTwin(rules: seq<Rule>, pf: Platform, fates: seq<Fate>, w: nat)
    requires Fated(rules, pf, fates) && w < |rules| && fates[w].Duplicate?
    ensures HasTwin(rules, pf, fates, w)
  {
    hide HasTwin, Shadows, IsDead, Terminated, CoveredAt;
    assert fates[w] == FateOf(rules, pf, fates, w);
  }

  /** Nothing after a MATCH rule that kept its slot keeps one. */
  lemma NothingAfterMatch(rules: seq<Rule>, pf: Platform, fates: seq<Fate>, t: nat, i: nat)
    requires Fated(rules, pf, fates) && t < i < |rules| && LiveAt(fates, t) && rules[t].FinalRule?
    ensures fates[i] == Unreachable
  {
    assert OpOf(rules[t], pf).Match?;
    assert fates[i] == FateOf(rules, pf, fates, i);
  }

  // ---- A repeated test keeps no slot ----

  /** The same test by name, network or user id; only the adapter may differ. */
  predicate Repeats(a: Rule, b: Rule) {
    match (a, b)
    case (DomainRule(p, _), DomainRule(q, _)) => Lower(p) == Lower(q)
    case (SuffixRule(p, _), SuffixRule(q, _)) => Lower(p) == Lower(q)
    case (KeywordRule(p, _), KeywordRule(q, _)) => Lower(p) == Lower(q)
    case (WildcardRule(p, _), WildcardRule(q, _)) => Lower(p) == Lower(q)
    case (CidrRule(n, _, _, src, noResolve), CidrRule(m, _, _, src', noResolve')) =>
      n == m && src == src' && noResolve == noResolve'
    case (UidRule(u, _, _), UidRule(v, _, _)) => u == v
    case _ => false
  }

  lemma RepeatedRuleIsDropped(rules: seq<Rule>, pf: Platform, fates: seq<Fate>, t: nat, i: nat)
    requires Fated(rules, pf, fates) && t < i < |rules| && Considered(fates, t) && Repeats(rules[t], rules[i])
    ensures !LiveAt(fates, i)
  {
    hide FoldedOf, Shadows, CoveredAt, Terminated;
    assert fates[i] == FateOf(rules, pf, fates, i) && fates[t] == FateOf(rules, pf, fates, t);
    if !IsDead(rules[i], pf) {
      PlainOp(rules[t], pf);
      PlainOp(rules[i], pf);
      assert Twin(rules, pf, fates, t, i);
    }
  }

  /** So is one of the same type whose text differs, once both fold to one test
      of a name, a network or a user id. */
  lemma RepeatedOperationIsDropped(rules: seq<Rule>, pf: Platform, fates: seq<Fate>, t: nat, i: nat)
    requires Fated(rules, pf, fates) && t < i < |rules| && Considered(fates, t)
    requires TypeOf(rules[t]) == TypeOf(rules[i]) && OpOf(rules[t], pf) == OpOf(rules[i], pf)
    requires DemandsIp(rules[t]) == DemandsIp(rules[i]) && DemandsProcess(rules[t]) == DemandsProcess(rules[i])
    requires var op := OpOf(rules[i], pf); op.Domain? || op.DomainSuffix? || op.DomainKeyword? || op.IpCidr? || op.Uid?
    ensures !LiveAt(fates, i)
  {
    hide OpOf, DemandsIp, DemandsProcess, Shadows, CoveredAt, Terminated, IsDead;
    assert fates[i] == FateOf(rules, pf, fates, i);
    assert Twin(rules, pf, fates, t, i);
  }

  // ---- Pruning keeps a rule that demands resolution ----

  lemma ShadowedDemandsNothing(rule: Rule, o: Oracle, pf: Platform)
    requires !IsDead(rule, pf) && !Collapses(rule, pf) && Shadows(o, OpOf(rule, pf), PayloadOf(rule))
    ensures !DemandsIp(rule)
  {
    hide FoldedOf, SuffixCovers, KeywordCovers, StarCovers, IsDead;
    if rule.NotRule? {
      NegatedOp(rule, pf);
    } else if !IsLogic(rule) {
      PlainOp(rule, pf);
    }
  }

  /** Rule t asks for address resolution, and is neither a duplicate nor shadowed. */
  predicate AsksToTheEnd(rules: seq<Rule>, pf: Platform, fates: seq<Fate>, t: nat) {
    && t < |rules| && Considered(fates, t) && DemandsIp(rules[t]) && !HasTwin(rules, pf, fates, t)
    && !Shadows(OracleAt(rules, pf, fates, t), OpOf(rules[t], pf), PayloadOf(rules[t]))
  }

  /** The exact condition, for any rules: among the rules up to i a live one asks
      for resolution if and only if one that asks is neither a duplicate nor
      shadowed. Covered networks pass the question on; shadowed rules do not. */
  lemma DemandSurvivesIff(rules: seq<Rule>, pf: Platform, fates: seq<Fate>, i: nat)
    requires Fated(rules, pf, fates) && i < |rules|
    ensures IpDemandedBefore(rules, fates, i + 1) <==> exists t: nat :: t <= i && AsksToTheEnd(rules, pf, fates, t)
  {
    hide OpOf, IsDead, DemandsIp, Shadows, CoversNet, HasTwin, Terminated;
    if t :| 0 <= t < i + 1 && LiveAt(fates, t) && DemandsIp(rules[t]) {
      assert fates[t] == FateOf(rules, pf, fates, t);
      assert AsksToTheEnd(rules, pf, fates, t);
    }
    if t: nat :| t <= i && AsksToTheEnd(rules, pf, fates, t) {
      assert fates[t] == FateOf(rules, pf, fates, t);
      if fates[t].Covered? {
        var u :| 0 <= u < t && LiveAt(fates, u) && DemandsIp(rules[u]);
      }
    }
  }

  /** Off Linux an OR of a suffix and an AND that a user id makes impossible folds
      to the suffix. An earlier rule shadows it, and nobody asks for resolution
      any more, though it did. */
  lemma ShadowingDropsTheDemand(name: string, net: Net, uid: nat, texts: (string, string), a: string, b: string,
                                pf: Platform)
    requires !pf.linux && name != []
    ensures var never := AndRule([CidrRule(net, texts.0, b, false, false), UidRule(uid, texts.1, b)], b);
      var rules := [SuffixRule(name, a), OrRule([SuffixRule(name, b), never], b)];
      && Fated(rules, pf, [Live, Shadowed]) && DemandsIp(rules[1]) && !IpDemandedBefore(rules, [Live, Shadowed], 2)
  {
    hide FoldedOf, Shadows;
    var never := AndRule([CidrRule(net, texts.0, b, false, false), UidRule(uid, texts.1, b)], b);
    var rules, fates := [SuffixRule(name, a), OrRule([SuffixRule(name, b), never], b)], [Live, Shadowed];
    SuffixAlone(name, a, pf);
    FoldedSuffix(name, net, uid, texts, b, pf);
    assert OracleAt(rules, pf, fates, 0) == Oracle({}, {}, []);
    assert OracleAt(rules, pf, fates, 1) == Oracle({Lower(name)}, {}, []);
    assert FateOf(rules, pf, fates, 0) == Live;
    assert FateOf(rules, pf, fates, 1) == Shadowed;
    assert DemandsIp(never.rules[0]);
    assert DemandsIp(rules[1].rules[1]);
  }

  lemma SuffixAlone(name: string, adapter: string, pf: Platform)
    requires name != []
    ensures var rule := SuffixRule(name, adapter); OpOf(rule, pf) == DomainSuffix(Lower(name)) && !IsDead(rule, pf)
    ensures Lower(name) != [] && !Shadows(Oracle({}, {}, []), DomainSuffix(Lower(name)), name)
    ensures forall payload :: Shadows(Oracle({Lower(name)}, {}, []), DomainSuffix(Lower(name)), payload)
  {
    assert |Lower(name)| == |name|;
    assert LabelStart(Lower(name), 0) && Lower(name)[0..] == Lower(name);
  }

  lemma FoldedSuffix(name: string, net: Net, uid: nat, texts: (string, string), adapter: string, pf: Platform)
    requires !pf.linux
    ensures var cidr, user := CidrRule(net, texts.0, adapter, false, false), UidRule(uid, texts.1, adapter);
      var never := AndRule([cidr, user], adapter);
      var rule := OrRule([SuffixRule(name, adapter), never], adapter);
      OpOf(rule, pf) == DomainSuffix(Lower(name)) && !IsDead(rule, pf)
  {
    var cidr, user := CidrRule(net, texts.0, adapter, false, false), UidRule(uid, texts.1, adapter);
    var suffix := SuffixRule(name, adapter);
    var never := AndRule([cidr, user], adapter);
    var kept, inner := DomainSuffix(Lower(name)), [IpCidr(net, false), Uid(uid)];
    var outer := [kept, AllOf(inner)];
    LowerPair(cidr, user, inner[0], inner[1]);
    LowerPair(suffix, never, outer[0], outer[1]);
    assert LowerRule(OrRule([suffix, never], adapter)) == Some(AnyOf(outer));
    assert inner[1..] == [Uid(uid)] && [] + [inner[0]] == [inner[0]];
    assert FoldAll(inner[1..], pf.linux, [inner[0]]) == Never;
    assert FoldAll(inner, pf.linux, []) == Never;
    assert outer[1..] == [outer[1]] && [outer[1]][1..] == [] && [] + [kept] == [kept];
    assert FoldAny(outer[1..], pf.linux, [kept]) == FoldAny([], pf.linux, [kept]) == Kept(kept);
    assert FoldAny(outer, pf.linux, []) == Kept(kept);
  }

  lemma LowerPair(a: Rule, b: Rule, p: Op, q: Op)
    requires LowerRule(a) == Some(p) && LowerRule(b) == Some(q)
    ensures LowerRules([a, b]) == Some([p, q])
  {
    assert [a, b][1..] == [b] && [b][1..] == [] && LowerRules([]) == Some([]);
    assert LowerRule([b][0]) == Some(q) && [q] + [] == [q];
    assert LowerRules([b]) == Some([q]);
    assert LowerRule([a, b][0]) == Some(p) && [p] + [q] == [p, q];
  }

  /** Without collapses the question always survives: a rule that asks for address
      resolution leaves a live rule, itself or an earlier one, that asks for it. */
  lemma {:induction false} ResolutionDemandSurvives(rules: seq<Rule>, pf: Platform, fates: seq<Fate>, i: nat)
    requires Fated(rules, pf, fates) && i < |rules| && Considered(fates, i) && DemandsIp(rules[i])
    requires forall t :: 0 <= t <= i ==> !Collapses(rules[t], pf)
    ensures IpDemandedBefore(rules, fates, i + 1)
    decreases i
  {
    hide OpOf, IsDead, DemandsIp, Collapses, Shadows, CoversNet, Fingerprint;
    assert fates[i] == FateOf(rules, pf, fates, i);
    match fates[i]
    case Live => assert LiveAt(fates, i);
    case Duplicate =>
      var t :| 0 <= t < i && Twin(rules, pf, fates, t, i);
      ResolutionDemandSurvives(rules, pf, fates, t);
      var u :| 0 <= u < t + 1 && LiveAt(fates, u) && DemandsIp(rules[u]);
    case Shadowed => ShadowedDemandsNothing(rules[i], OracleAt(rules, pf, fates, i), pf);
    case Covered =>
      var u :| 0 <= u < i && LiveAt(fates, u) && DemandsIp(rules[u]);
  }
}
