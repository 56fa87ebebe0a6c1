/** Routing rules: what a rule means, the operations rules are lowered to, and
    the folding of constant logic trees. */
module Rules {
  import opened Common
  import opened DomainTrie
  import opened Wildcard

  // ---- What rules look at ----

  datatype Ip = Ip(v6: bool, bits: seq<bool>)

  /** A network without host bits: an address prefix. */
  datatype Net = Net(v6: bool, prefix: seq<bool>)

  predicate Contains(net: Net, ip: Ip) {
    net.v6 == ip.v6 && net.prefix <= ip.bits
  }

  /** Connection metadata; `host` is the sniffed host if there is one. `other`
      stands for the fields only `Test` rules read. */
  datatype Meta = Meta(host: string, dstIp: Option<Ip>, srcIp: Option<Ip>, srcPort: nat, process: string,
                       uid: Option<nat>, other: nat)

  function Address(meta: Meta, src: bool): Option<Ip> {
    if src then meta.srcIp else meta.dstIp
  }

  /** The platform, and the matchers compiled from rule payloads, by handle. */
  datatype Env = Env(linux: bool, test: (string, string, Meta) -> bool)

  // ---- Rules ----

  /** What identifies a single-test rule's matcher to duplicate elimination. */
  datatype KeyBy = ByHandle | ByPayload | ByFoldedPayload | NoKey

  /** The handle of a rule's matcher: some matchers are known by their payload. */
  function HandleOf(key: KeyBy, handle: string, payload: string): string {
    match key
    case ByPayload => payload
    case ByFoldedPayload => Lower(payload)
    case _ => handle
  }

  /** `TestRule` is any rule with one compiled matcher: ports, networks, inbound
      names, processes, regular expressions, rule sets, GEOSITE, GEOIP. */
  datatype Rule =
    | DomainRule(payload: string, adapter: string)
    | SuffixRule(payload: string, adapter: string)
    | KeywordRule(payload: string, adapter: string)
    | WildcardRule(payload: string, adapter: string)
    | CidrRule(net: Net, payload: string, adapter: string, src: bool, noResolve: bool)
    | UidRule(uid: nat, payload: string, adapter: string)
    | TestRule(tag: string, handle: string, payload: string, adapter: string, key: KeyBy,
               native: bool, dead: bool, needsIp: bool, needsProcess: bool)
    | AndRule(rules: seq<Rule>, adapter: string)
    | OrRule(rules: seq<Rule>, adapter: string)
    | NotRule(rule: Rule, adapter: string)
    | FinalRule(adapter: string)
    | SubRule(block: seq<Rule>, name: string)

  datatype RuleType =
    | TypeDomain | TypeSuffix | TypeKeyword | TypeWildcard | TypeCidr | TypeSrcCidr | TypeUid | TypeTest(tag: string)
    | TypeAnd | TypeOr | TypeNot | TypeMatch | TypeSubRule

  function TypeOf(rule: Rule): RuleType {
    match rule
    case DomainRule(_, _) => TypeDomain
    case SuffixRule(_, _) => TypeSuffix
    case KeywordRule(_, _) => TypeKeyword
    case WildcardRule(_, _) => TypeWildcard
    case CidrRule(_, _, _, src, _) => if src then TypeSrcCidr else TypeCidr
    case UidRule(_, _, _) => TypeUid
    case TestRule(tag, _, _, _, _, _, _, _, _) => TypeTest(tag)
    case AndRule(_, _) => TypeAnd
    case OrRule(_, _) => TypeOr
    case NotRule(_, _) => TypeNot
    case FinalRule(_) => TypeMatch
    case SubRule(_, _) => TypeSubRule
  }

  function PayloadOf(rule: Rule): string {
    match rule
    case AndRule(rules, _) => JoinPayloads(rules, " AND ")
    case OrRule(rules, _) => JoinPayloads(rules, " OR ")
    case NotRule(inner, _) => "NOT " + PayloadOf(inner)
    case FinalRule(_) => ""
    case SubRule(_, name) => name
    case _ => rule.payload
  }

  function JoinPayloads(rules: seq<Rule>, separator: string): string {
    if rules == [] then ""
    else if |rules| == 1 then PayloadOf(rules[0])
    else PayloadOf(rules[0]) + separator + JoinPayloads(rules[1..], separator)
  }

  /** The payload of a logic rule is that of its first rule, the word, and the rest. */
  lemma LogicPayload(first: Rule, second: Rule, rest: seq<Rule>, adapter: string)
    ensures PayloadOf(AndRule([], adapter)) == "" == PayloadOf(OrRule([], adapter))
    ensures PayloadOf(AndRule([first], adapter)) == PayloadOf(first) == PayloadOf(OrRule([first], adapter))
    ensures PayloadOf(AndRule([first, second] + rest, adapter)) ==
            PayloadOf(first) + " AND " + PayloadOf(AndRule([second] + rest, adapter))
    ensures PayloadOf(OrRule([first, second] + rest, adapter)) ==
            PayloadOf(first) + " OR " + PayloadOf(OrRule([second] + rest, adapter))
  {
    hide PayloadOf;
    JoinedPayloads(first, second, rest, " AND ");
    JoinedPayloads(first, second, rest, " OR ");
    LogicJoins([], adapter);
    LogicJoins([first], adapter);
    LogicJoins([first, second] + rest, adapter);
    LogicJoins([second] + rest, adapter);
  }

  lemma LogicJoins(rules: seq<Rule>, adapter: string)
    ensures PayloadOf(AndRule(rules, adapter)) == JoinPayloads(rules, " AND ")
    ensures PayloadOf(OrRule(rules, adapter)) == JoinPayloads(rules, " OR ")
  {}

  lemma JoinedPayloads(first: Rule, second: Rule, rest: seq<Rule>, word: string)
    ensures JoinPayloads([first], word) == PayloadOf(first)
    ensures JoinPayloads([first, second] + rest, word) == PayloadOf(first) + word + JoinPayloads([second] + rest, word)
  {
    hide PayloadOf;
    assert ([first, second] + rest)[1..] == [second] + rest;
  }

  function AdapterOf(rule: Rule): string {
    if rule.SubRule? then rule.name else rule.adapter
  }

  predicate DemandsIp(rule: Rule) {
    match rule
    case CidrRule(_, _, _, src, noResolve) => !src && !noResolve
    case TestRule(_, _, _, _, _, _, _, needsIp, _) => needsIp
    case AndRule(rules, _) => exists i :: 0 <= i < |rules| && DemandsIp(rules[i])
    case OrRule(rules, _) => exists i :: 0 <= i < |rules| && DemandsIp(rules[i])
    case NotRule(inner, _) => DemandsIp(inner)
    case SubRule(block, _) => exists i :: 0 <= i < |block| && DemandsIp(block[i])
    case _ => false
  }

  predicate DemandsProcess(rule: Rule) {
    match rule
    case UidRule(_, _, _) => true
    case TestRule(_, _, _, _, _, _, _, _, needsProcess) => needsProcess
    case AndRule(rules, _) => exists i :: 0 <= i < |rules| && DemandsProcess(rules[i])
    case OrRule(rules, _) => exists i :: 0 <= i < |rules| && DemandsProcess(rules[i])
    case NotRule(inner, _) => DemandsProcess(inner)
    case SubRule(block, _) => exists i :: 0 <= i < |block| && DemandsProcess(block[i])
    case _ => false
  }

  predicate NeverMatches(rule: Rule) {
    rule.TestRule? && rule.dead
  }

  // ---- Domain predicates ----

  predicate SuffixMatches(host: string, suffix: string) {
    if |host| == |suffix| then EqFold(host, suffix)
    else
      |host| > |suffix|
      && var dot := |host| - |suffix| - 1;
         host[dot] == '.' && EqFold(host[dot + 1..], suffix)
  }

  predicate WordAt(host: string, word: string, i: int) {
    0 <= i <= |host| - |word| && EqFold(host[i..i + |word|], word)
  }

  predicate KeywordMatches(host: string, word: string) {
    exists i :: 0 <= i <= |host| && WordAt(host, word, i)
  }

  // ---- The meaning of a rule ----

  /** `match_metadata` */
  predicate Holds(rule: Rule, env: Env, meta: Meta)
    decreases rule
  {
    match rule
    case DomainRule(payload, _) => EqFold(meta.host, payload)
    case SuffixRule(payload, _) => SuffixMatches(meta.host, payload)
    case KeywordRule(payload, _) => KeywordMatches(meta.host, payload)
    case WildcardRule(payload, _) => meta.host != [] && Glob(payload, meta.host)
    case CidrRule(net, _, _, src, _) => Address(meta, src).Some? && Contains(net, Address(meta, src).value)
    case UidRule(uid, _, _) => env.linux && meta.uid == Some(uid)
    case TestRule(tag, handle, payload, _, key, _, dead, _, _) =>
      !dead && env.test(tag, HandleOf(key, handle, payload), meta)
    case AndRule(rules, _) => forall i :: 0 <= i < |rules| ==> Holds(rules[i], env, meta)
    case OrRule(rules, _) => exists i :: 0 <= i < |rules| && Holds(rules[i], env, meta)
    case NotRule(inner, _) => !Holds(inner, env, meta)
    case FinalRule(_) => true
    case SubRule(block, _) => exists i :: 0 <= i < |block| && Holds(block[i], env, meta)
  }

  /** `match_and_resolve`: the adapter to route to; a sub-rule block answers with
      its first matching rule's. */
  function Resolve(rule: Rule, env: Env, meta: Meta): Option<string>
    decreases rule
  {
    if rule.SubRule? then ResolveBlock(rule.block, env, meta)
    else if Holds(rule, env, meta) then Some(AdapterOf(rule)) else None
  }

  function ResolveBlock(block: seq<Rule>, env: Env, meta: Meta): Option<string>
    decreases block
  {
    if block == [] then None
    else
      var first := Resolve(block[0], env, meta);
      if first.Some? then first else ResolveBlock(block[1..], env, meta)
  }

  /** A rule resolves exactly when it holds. */
  lemma {:induction false} ResolvesIffHolds(rule: Rule, env: Env, meta: Meta)
    ensures Resolve(rule, env, meta).Some? <==> Holds(rule, env, meta)
    decreases rule
  {
    if rule.SubRule? { BlockResolvesIffSomeHolds(rule.block, env, meta); }
  }

  lemma {:induction false} BlockResolvesIffSomeHolds(block: seq<Rule>, env: Env, meta: Meta)
    ensures ResolveBlock(block, env, meta).Some? <==> exists i :: 0 <= i < |block| && Holds(block[i], env, meta)
    decreases block
  {
    if block != [] {
      ResolvesIffHolds(block[0], env, meta);
      BlockResolvesIffSomeHolds(block[1..], env, meta);
      assert forall i :: 1 <= i < |block| ==> block[i] == block[1..][i - 1];
      assert forall i :: 0 <= i < |block| - 1 ==> block[1..][i] == block[i + 1];
    }
  }

  /** The first rule of a block to hold is at i. */
  predicate FirstOfBlock(block: seq<Rule>, env: Env, meta: Meta, i: nat) {
    i < |block| && Holds(block[i], env, meta) && forall j :: 0 <= j < i ==> !Holds(block[j], env, meta)
  }

  /** Which adapter a rule that holds routes to: its own, or for a sub-rule the
      one that the first rule of its block to hold routes to. */
  ghost predicate RoutesTo(rule: Rule, env: Env, meta: Meta, adapter: string)
    decreases rule
  {
    if rule.SubRule? then
      exists i: nat :: i < |rule.block| && FirstOfBlock(rule.block, env, meta, i) &&
        RoutesTo(rule.block[i], env, meta, adapter)
    else Holds(rule, env, meta) && adapter == rule.adapter
  }

  /** A rule resolves to an adapter exactly when it routes to it. */
  lemma {:induction false} ResolvesIffRoutes(rule: Rule, env: Env, meta: Meta, adapter: string)
    ensures Resolve(rule, env, meta) == Some(adapter) <==> RoutesTo(rule, env, meta, adapter)
    decreases rule
  {
    if rule.SubRule? {
      forall i: nat | i < |rule.block|
        ensures Resolve(rule.block[i], env, meta) == Some(adapter) <==> RoutesTo(rule.block[i], env, meta, adapter)
      {
        ResolvesIffRoutes(rule.block[i], env, meta, adapter);
      }
      BlockResolvesByFirst(rule.block, env, meta, adapter);
    }
  }

  lemma {:induction false} BlockResolvesByFirst(block: seq<Rule>, env: Env, meta: Meta, adapter: string)
    ensures ResolveBlock(block, env, meta) == Some(adapter) <==>
            exists i: nat :: FirstOfBlock(block, env, meta, i) && Resolve(block[i], env, meta) == Some(adapter)
    decreases block
  {
    hide Holds, Resolve;
    if block != [] {
      var rest := block[1..];
      ResolvesIffHolds(block[0], env, meta);
      BlockResolvesByFirst(rest, env, meta, adapter);
      if Holds(block[0], env, meta) {
        assert FirstOfBlock(block, env, meta, 0);
      } else {
        if i: nat :| FirstOfBlock(rest, env, meta, i) && Resolve(rest[i], env, meta) == Some(adapter) {
          assert block[i + 1] == rest[i] && FirstOfBlock(block, env, meta, i + 1);
        }
        if i: nat :| FirstOfBlock(block, env, meta, i) && Resolve(block[i], env, meta) == Some(adapter) {
          assert rest[i - 1] == block[i] && FirstOfBlock(rest, env, meta, i - 1);
        }
      }
    }
  }

  // ---- Operations ----

  datatype Op =
    | Domain(name: string)
    | DomainSuffix(suffix: string)
    | DomainKeyword(word: string)
    | DomainWildcard(pattern: string)
    | IpCidr(net: Net, src: bool)
    | Uid(uid: nat)
    | Test(tag: string, handle: string, key: KeyBy)
    | Match
    | AllOf(ops: seq<Op>)
    | AnyOf(ops: seq<Op>)
    | NotOp(op: Op)
    | TrieOwned
    | Fallback

  /** `matches_op`; `blank` says whether an empty wildcard accepts a connection
      without a host, as the operation does and the rule does not. */
  predicate OpAccepts(op: Op, env: Env, meta: Meta, blank: bool)
    decreases op
  {
    match op
    case Domain(name) => EqFold(meta.host, name)
    case DomainSuffix(suffix) => SuffixMatches(meta.host, suffix)
    case DomainKeyword(word) => KeywordMatches(meta.host, word)
    case DomainWildcard(pattern) => (blank || pattern != []) && Glob(pattern, meta.host)
    case IpCidr(net, src) => Address(meta, src).Some? && Contains(net, Address(meta, src).value)
    case Uid(uid) => env.linux && meta.uid == Some(uid)
    case Test(tag, handle, _) => env.test(tag, handle, meta)
    case Match => true
    case AllOf(ops) => forall i :: 0 <= i < |ops| ==> OpAccepts(ops[i], env, meta, blank)
    case AnyOf(ops) => exists i :: 0 <= i < |ops| && OpAccepts(ops[i], env, meta, blank)
    case NotOp(inner) => !OpAccepts(inner, env, meta, blank)
    case TrieOwned => false
    case Fallback => false
  }

  /** What the operation accepts. */
  predicate OpHolds(op: Op, env: Env, meta: Meta) { OpAccepts(op, env, meta, true) }

  /** What the rules it was lowered from accept. */
  predicate OpMeans(op: Op, env: Env, meta: Meta) { OpAccepts(op, env, meta, false) }

  predicate HasBlank(op: Op) {
    match op
    case DomainWildcard(pattern) => pattern == []
    case AllOf(ops) => exists i :: 0 <= i < |ops| && HasBlank(ops[i])
    case AnyOf(ops) => exists i :: 0 <= i < |ops| && HasBlank(ops[i])
    case NotOp(inner) => HasBlank(inner)
    case _ => false
  }

  /** The operation tests an absent host with an empty wildcard. */
  predicate Misread(op: Op, meta: Meta) { meta.host == [] && HasBlank(op) }

  /** Nothing else makes an operation differ from its rules. */
  lemma {:induction false} OnlyBlanksDiffer(op: Op, env: Env, meta: Meta)
    requires !Misread(op, meta)
    ensures OpHolds(op, env, meta) <==> OpMeans(op, env, meta)
    decreases op
  {
    match op
    case AllOf(ops) =>
      forall i | 0 <= i < |ops| ensures OpHolds(ops[i], env, meta) <==> OpMeans(ops[i], env, meta) {
        OnlyBlanksDiffer(ops[i], env, meta);
      }
    case AnyOf(ops) =>
      forall i | 0 <= i < |ops| ensures OpHolds(ops[i], env, meta) <==> OpMeans(ops[i], env, meta) {
        OnlyBlanksDiffer(ops[i], env, meta);
      }
    case NotOp(inner) => OnlyBlanksDiffer(inner, env, meta);
    case _ =>
  }

  /** `lower_rule`: a rule as an operation, unless it or a rule inside it has
      state of its own. */
  function LowerRule(rule: Rule): Option<Op>
    decreases rule
  {
    match rule
    case DomainRule(payload, _) => Some(Domain(Lower(payload)))
    case SuffixRule(payload, _) => Some(DomainSuffix(Lower(payload)))
    case KeywordRule(payload, _) => Some(DomainKeyword(Lower(payload)))
    case WildcardRule(payload, _) => Some(DomainWildcard(payload))
    case CidrRule(net, _, _, src, _) => Some(IpCidr(net, src))
    case UidRule(uid, _, _) => Some(Uid(uid))
    case TestRule(tag, handle, payload, _, key, native, dead, _, _) =>
      if native && !dead then Some(Test(tag, HandleOf(key, handle, payload), key)) else None
    case AndRule(rules, _) =>
      var ops := LowerRules(rules);
      if ops.Some? then Some(AllOf(ops.value)) else None
    case OrRule(rules, _) =>
      var ops := LowerRules(rules);
      if ops.Some? then Some(AnyOf(ops.value)) else None
    case NotRule(inner, _) =>
      var op := LowerRule(inner);
      if op.Some? then Some(NotOp(op.value)) else None
    case FinalRule(_) => Some(Match)
    case SubRule(_, _) => None
  }

  function LowerRules(rules: seq<Rule>): (ops: Option<seq<Op>>)
    ensures ops.Some? ==> |ops.value| == |rules|
    decreases rules
  {
    if rules == [] then Some([])
    else
      var first, rest := LowerRule(rules[0]), LowerRules(rules[1..]);
      if first.Some? && rest.Some? then Some([first.value] + rest.value) else None
  }

  lemma FoldIgnoresLower(a: string, b: string)
    ensures EqFold(a, Lower(b)) <==> EqFold(a, b)
  {
    LowerTwice(b);
  }

  lemma {:induction false} LowerKeepsMeaning(rule: Rule, env: Env, meta: Meta)
    requires LowerRule(rule).Some?
    ensures OpMeans(LowerRule(rule).value, env, meta) <==> Holds(rule, env, meta)
    decreases rule
  {
    match rule
    case DomainRule(payload, _) => FoldIgnoresLower(meta.host, payload);
    case SuffixRule(payload, _) => LowerKeepsSuffix(meta.host, payload);
    case KeywordRule(payload, _) => LowerKeepsKeyword(meta.host, payload);
    case AndRule(rules, _) => LowerKeepsMeanings(rules, env, meta);
    case OrRule(rules, _) => LowerKeepsMeanings(rules, env, meta);
    case NotRule(inner, _) => LowerKeepsMeaning(inner, env, meta);
    case _ =>
  }

  lemma LowerKeepsSuffix(host: string, suffix: string)
    ensures SuffixMatches(host, Lower(suffix)) <==> SuffixMatches(host, suffix)
  {
    LowerTwice(suffix);
  }

  lemma LowerKeepsKeyword(host: string, word: string)
    ensures KeywordMatches(host, Lower(word)) <==> KeywordMatches(host, word)
  {
    LowerTwice(word);
    forall i ensures WordAt(host, Lower(word), i) <==> WordAt(host, word, i) {}
  }

  /** On its own a wildcard is lowered faithfully unless both pattern and host
      are empty: the rule then fails, the operation succeeds. */
  lemma WildcardLoweringIsExact(payload: string, adapter: string, env: Env, meta: Meta)
    ensures (OpHolds(DomainWildcard(payload), env, meta) <==> Holds(WildcardRule(payload, adapter), env, meta))
       <==> payload != [] || meta.host != []
  {}

  lemma {:induction false} LowerKeepsMeanings(rules: seq<Rule>, env: Env, meta: Meta)
    requires LowerRules(rules).Some?
    ensures var ops := LowerRules(rules).value;
            forall i :: 0 <= i < |rules| ==> (OpMeans(ops[i], env, meta) <==> Holds(rules[i], env, meta))
    decreases rules
  {
    if rules != [] {
      LowerKeepsMeaning(rules[0], env, meta);
      LowerKeepsMeanings(rules[1..], env, meta);
    }
  }

  // ---- Constant folding ----

  datatype Folded = Never | Always | Kept(op: Op)

  /** `fold_op` */
  function Fold(op: Op, linux: bool): Folded
    decreases op
  {
    match op
    case Uid(_) => if linux then Kept(op) else Never
    case Match => Always
    case AllOf(ops) => FoldAll(ops, linux, [])
    case AnyOf(ops) => FoldAny(ops, linux, [])
    case NotOp(inner) =>
      (match Fold(inner, linux)
       case Never => Always
       case Always => Never
       case Kept(folded) => Kept(NotOp(folded)))
    case _ => Kept(op)
  }

  /** The rest of a conjunction, after the operations kept so far. */
  function FoldAll(ops: seq<Op>, linux: bool, kept: seq<Op>): Folded
    decreases ops
  {
    if ops == [] then
      if kept == [] then Always else if |kept| == 1 then Kept(kept[0]) else Kept(AllOf(kept))
    else match Fold(ops[0], linux)
      case Never => Never
      case Always => FoldAll(ops[1..], linux, kept)
      case Kept(folded) => FoldAll(ops[1..], linux, kept + [folded])
  }

  function FoldAny(ops: seq<Op>, linux: bool, kept: seq<Op>): Folded
    decreases ops
  {
    if ops == [] then
      if kept == [] then Never else if |kept| == 1 then Kept(kept[0]) else Kept(AnyOf(kept))
    else match Fold(ops[0], linux)
      case Never => FoldAny(ops[1..], linux, kept)
      case Always => Always
      case Kept(folded) => FoldAny(ops[1..], linux, kept + [folded])
  }

  predicate FoldedHolds(f: Folded, env: Env, meta: Meta, blank: bool) {
    match f
    case Never => false
    case Always => true
    case Kept(op) => OpAccepts(op, env, meta, blank)
  }

  predicate EachHolds(ops: seq<Op>, env: Env, meta: Meta, blank: bool) {
    forall i :: 0 <= i < |ops| ==> OpAccepts(ops[i], env, meta, blank)
  }

  predicate SomeHolds(ops: seq<Op>, env: Env, meta: Meta, blank: bool) {
    exists i :: 0 <= i < |ops| && OpAccepts(ops[i], env, meta, blank)
  }

  /** Folding never changes what an operation accepts. */
  lemma {:induction false} FoldKeepsMeaning(op: Op, env: Env, meta: Meta, blank: bool)
    ensures FoldedHolds(Fold(op, env.linux), env, meta, blank) <==> OpAccepts(op, env, meta, blank)
    decreases op
  {
    match op
    case AllOf(ops) => FoldAllKeepsMeaning(ops, env, meta, blank, []);
    case AnyOf(ops) => FoldAnyKeepsMeaning(ops, env, meta, blank, []);
    case NotOp(inner) => FoldKeepsMeaning(inner, env, meta, blank);
    case _ =>
  }

  lemma {:induction false} FoldAllKeepsMeaning(ops: seq<Op>, env: Env, meta: Meta, blank: bool, kept: seq<Op>)
    ensures FoldedHolds(FoldAll(ops, env.linux, kept), env, meta, blank) <==>
            EachHolds(kept, env, meta, blank) && EachHolds(ops, env, meta, blank)
    decreases ops
  {
    if ops != [] {
      FoldKeepsMeaning(ops[0], env, meta, blank);
      assert EachHolds(ops, env, meta, blank) <==>
        OpAccepts(ops[0], env, meta, blank) && EachHolds(ops[1..], env, meta, blank) by {
        assert forall i :: 1 <= i < |ops| ==> ops[i] == ops[1..][i - 1];
      }
      match Fold(ops[0], env.linux)
      case Never =>
      case Always => FoldAllKeepsMeaning(ops[1..], env, meta, blank, kept);
      case Kept(folded) =>
        FoldAllKeepsMeaning(ops[1..], env, meta, blank, kept + [folded]);
        EachHoldsSnoc(kept, folded, env, meta, blank);
    } else if |kept| == 1 {
      assert kept == [kept[0]];
    }
  }

  lemma EachHoldsSnoc(kept: seq<Op>, op: Op, env: Env, meta: Meta, blank: bool)
    ensures EachHolds(kept + [op], env, meta, blank) <==>
            EachHolds(kept, env, meta, blank) && OpAccepts(op, env, meta, blank)
  {
    assert forall i :: 0 <= i < |kept| ==> (kept + [op])[i] == kept[i];
    assert (kept + [op])[|kept|] == op;
  }

  lemma {:induction false} FoldAnyKeepsMeaning(ops: seq<Op>, env: Env, meta: Meta, blank: bool, kept: seq<Op>)
    ensures FoldedHolds(FoldAny(ops, env.linux, kept), env, meta, blank) <==>
            SomeHolds(kept, env, meta, blank) || SomeHolds(ops, env, meta, blank)
    decreases ops
  {
    if ops != [] {
      FoldKeepsMeaning(ops[0], env, meta, blank);
      assert SomeHolds(ops, env, meta, blank) <==>
        OpAccepts(ops[0], env, meta, blank) || SomeHolds(ops[1..], env, meta, blank) by {
        assert forall i :: 1 <= i < |ops| ==> ops[i] == ops[1..][i - 1];
        assert forall i :: 0 <= i < |ops| - 1 ==> ops[1..][i] == ops[i + 1];
      }
      match Fold(ops[0], env.linux)
      case Never => FoldAnyKeepsMeaning(ops[1..], env, meta, blank, kept);
      case Always =>
      case Kept(folded) =>
        FoldAnyKeepsMeaning(ops[1..], env, meta, blank, kept + [folded]);
        SomeHoldsSnoc(kept, folded, env, meta, blank);
    }
  }

  lemma SomeHoldsSnoc(kept: seq<Op>, op: Op, env: Env, meta: Meta, blank: bool)
    ensures SomeHolds(kept + [op], env, meta, blank) <==>
            SomeHolds(kept, env, meta, blank) || OpAccepts(op, env, meta, blank)
  {
    assert forall i :: 0 <= i < |kept| ==> (kept + [op])[i] == kept[i];
    assert (kept + [op])[|kept|] == op;
  }
}
