/** The domain index over rules: which payloads it takes over, and how its
    verdict on a host compares with the rule's own. */
module DomainIndex {
  import opened Common
  import opened DomainTrie
  import opened DomainNames
  import opened Wildcard
  import opened Rules
  import opened RuleCoverage

  // ---------------------------------------------------------------------
  // Indexing a rule.
  // ---------------------------------------------------------------------

  predicate IsAscii(s: string) {
    forall i :: 0 <= i < |s| ==> s[i] as int < 128
  }

  predicate IndexablePattern(payload: string) {
    && payload != [] && IsAscii(payload)
    && payload[0] !in {'.', '*', '+'}
    && payload[|payload| - 1] != '.'
    && !HasPart(payload, "..")
  }

  predicate StarWildcardIndexable(payload: string) {
    "*." <= payload && IndexablePattern(payload[2..]) && '*' !in payload[2..]
  }

  function Written(patterns: Option<seq<Pattern<nat>>>): seq<Pattern<nat>> {
    if patterns.Some? then patterns.value else []
  }

  datatype Indexing = Indexing(patterns: seq<Pattern<nat>>, owned: bool)

  /** `DomainIndex::insert_rule`: the patterns a rule stores, and whether the
      index takes the rule over. */
  function IndexRule(t: RuleType, payload: string, index: nat): Indexing {
    match t
    case TypeDomain =>
      var plain := if IndexablePattern(payload) then PatternsOf(payload, index) else None;
      Indexing(Written(plain), plain.Some?)
    case TypeSuffix =>
      if !IndexablePattern(payload) then Indexing([], false)
      else
        var subdomains, apex := PatternsOf("+." + payload, index), PatternsOf(payload, index);
        Indexing(Written(subdomains) + Written(apex), subdomains.Some? && apex.Some?)
    case TypeWildcard =>
      var star := if StarWildcardIndexable(payload) then PatternsOf(payload, index) else None;
      Indexing(Written(star), star.Some?)
    case _ => Indexing([], false)
  }

  /** ASCII text with a dot neither at an end nor next to another, and no wildcard
      mark in front. */
  predicate IsPlainText(s: string) {
    && s != [] && s[0] != '*' && s[0] != '+' && s[0] != '.' && s[|s| - 1] != '.'
    && (forall i :: 0 <= i < |s| ==> s[i] < 128 as char)
    && (forall i :: 0 <= i < |s| - 1 ==> s[i] != '.' || s[i + 1] != '.')
  }

  /** The index takes over exactly the name and suffix rules with such a payload,
      and the wildcard rules with a star, a dot and such a rest without stars. */
  lemma TakenOverIff(payload: string)
    ensures TakenOver(TypeDomain, payload) <==> IsPlainText(payload)
    ensures TakenOver(TypeSuffix, payload) <==> IsPlainText(payload)
    ensures TakenOver(TypeWildcard, payload) <==>
            |payload| > 2 && payload[0] == '*' && payload[1] == '.' && IsPlainText(payload[2..]) && '*' !in payload[2..]
  {
    PlainTextIff(payload);
    if |payload| > 2 { PlainTextIff(payload[2..]); }
    assert "*." <= payload <==> |payload| >= 2 && payload[0] == '*' && payload[1] == '.';
  }

  lemma PlainTextIff(s: string)
    ensures IndexablePattern(s) <==> IsPlainText(s)
  {
    if i :| 0 <= i < |s| - 1 && s[i] == '.' && s[i + 1] == '.' {
      assert s[i..i + 2] == "..";
      assert PartAt(s, "..", i);
    }
    if HasPart(s, "..") {
      var i :| 0 <= i <= |s| && PartAt(s, "..", i);
      assert s[i] == s[i..i + 2][0] && s[i + 1] == s[i..i + 2][1];
    }
  }

  /** A taken-over rule's base name: its payload without the star. */
  function Base(t: RuleType, payload: string): string {
    if t.TypeWildcard? && |payload| >= 2 then Lower(payload[2..]) else Lower(payload)
  }

  predicate TakenOver(t: RuleType, payload: string) {
    match t
    case TypeDomain => IndexablePattern(payload)
    case TypeSuffix => IndexablePattern(payload)
    case TypeWildcard => StarWildcardIndexable(payload)
    case _ => false
  }

  /** What is stored for a taken-over rule. */
  function Stored(t: RuleType, base: string, index: nat): seq<Pattern<nat>> {
    match t
    case TypeDomain => [Pattern(Labels(base), Exact, index)]
    case TypeSuffix => [Pattern(Labels(base), Star, index), Pattern(Labels(base), Dot, index),
      Pattern(Labels(base), Exact, index)]
    case TypeWildcard => [Pattern(Labels(base), Star, index)]
    case _ => []
  }

  lemma PlainPattern(payload: string, index: nat)
    requires IndexablePattern(payload) && Tidy(payload)
    ensures PatternsOf(payload, index) == Some([Pattern(Labels(Lower(payload)), Exact, index)])
  {
    assert LowerChar(payload[0]) !in {'.', '*', '+'};
  }

  lemma SuffixPatterns(payload: string, index: nat)
    requires payload != [] && Tidy(payload)
    ensures PatternsOf("+." + payload, index) ==
            Some([Pattern(Labels(Lower(payload)), Star, index), Pattern(Labels(Lower(payload)), Dot, index)])
  {
    hide Labels;
    TidyEnds(payload);
    TidyBehind("+.", payload);
    LowerOfMarked("+.", payload);
  }

  lemma StarPattern(payload: string, index: nat)
    requires "*." <= payload && payload[2..] != [] && Tidy(payload)
    ensures PatternsOf(payload, index) == Some([Pattern(Labels(Lower(payload[2..])), Star, index)])
  {
    hide Labels, Trim;
    assert payload == "*." + payload[2..];
    LowerOfMarked("*.", payload[2..]);
    assert Lower(payload)[0] == '*';
  }

  lemma IndexedAsStored(t: RuleType, payload: string, index: nat)
    requires Tidy(payload)
    ensures IndexRule(t, payload, index) ==
            if TakenOver(t, payload) then Indexing(Stored(t, Base(t, payload), index), true) else Indexing([], false)
  {
    hide HasPart, IsAscii, PatternsOf, Labels, Tidy;
    if TakenOver(t, payload) {
      match t
      case TypeDomain => PlainPattern(payload, index);
      case TypeSuffix =>
        PlainPattern(payload, index);
        SuffixPatterns(payload, index);
        assert IndexRule(t, payload, index).patterns == Stored(t, Lower(payload), index);
      case TypeWildcard => StarPattern(payload, index);
    }
  }

  // ---------------------------------------------------------------------
  // The verdict of the index.
  // ---------------------------------------------------------------------

  /** Some pattern stored for the rule matches the host as the index reads it. */
  predicate IndexSays(t: RuleType, payload: string, host: string) {
    TakenOver(t, payload) && TrimDots(host) != [] && SaysOf(t, Base(t, payload), TrimDots(host))
  }

  predicate SaysOf(t: RuleType, base: string, query: string) {
    match t
    case TypeDomain => query == base
    case TypeSuffix => query == base || Below(query, base)
    case TypeWildcard => Below(query, base) && DotFree(query[..|query| - |base| - 1])
    case _ => false
  }

  /** The trie answers for a rule exactly when one of its patterns matches. */
  lemma SaysIffStoredMatches(t: RuleType, base: string, query: string, index: nat)
    ensures SaysOf(t, base, query) <==>
            exists i :: 0 <= i < |Stored(t, base, index)| && Matches(Stored(t, base, index)[i], Labels(query))
  {
    ExactMeans(query, base, index);
    DotMeans(query, base, index);
    StarMeans(query, base, index);
    var stored := Stored(t, base, index);
    if t.TypeSuffix? {
      assert stored[0].kind == Star && stored[1].kind == Dot && stored[2].kind == Exact;
    } else if t.TypeDomain? {
      assert stored[0].kind == Exact;
    } else if t.TypeWildcard? {
      assert stored[0].kind == Star;
    }
  }

  predicate EndsInDot(host: string) {
    host != [] && host[|host| - 1] == '.'
  }

  lemma {:induction false} TrimDotsOnlyDots(host: string)
    ensures !EndsInDot(host) ==> TrimDots(host) == host
    ensures !EndsInDot(TrimDots(host))
    decreases |host|
  {
    if EndsInDot(host) { TrimDotsOnlyDots(host[..|host| - 1]); }
  }

  /** What the rule itself says of a host. */
  predicate RuleSays(t: RuleType, payload: string, host: string) {
    match t
    case TypeDomain => EqFold(host, payload)
    case TypeSuffix => SuffixMatches(host, payload)
    case TypeWildcard => Glob(payload, host)
    case _ => false
  }

  lemma LowerTail(host: string, i: nat)
    requires IsLower(host) && i <= |host|
    ensures IsLower(host[i..])
  {
    assert Lower(host[i..]) == Lower(host)[i..];
  }

  lemma SuffixSays(payload: string, host: string)
    requires IsLower(host)
    ensures SuffixMatches(host, payload) <==> host == Lower(payload) || Below(host, Lower(payload))
  {
    if |host| > |payload| { LowerTail(host, |host| - |payload|); }
  }

  lemma StarSays(rest: string, host: string)
    requires IsLower(host)
    ensures StarMatches(host, Lower(rest)) <==>
            Below(host, Lower(rest)) && DotFree(host[..|host| - |rest| - 1]) && host != "." + Lower(rest)
  {
    var base := Lower(rest);
    LowerTwice(rest);
    if |host| > |base| {
      LowerTail(host, |host| - |base|);
      assert Below(host, base) && |host| == |base| + 1 ==> host == "." + base;
      assert host == "." + base ==> |host| == |base| + 1;
    }
  }

  /** A rule's own verdict on a lower-case host, in terms of its base name. */
  lemma RuleSaysOfBase(t: RuleType, payload: string, host: string)
    requires IsLower(host) && TakenOver(t, payload)
    ensures RuleSays(t, payload, host) <==>
            SaysOf(t, Base(t, payload), host) && !(t.TypeWildcard? && host == "." + Base(t, payload))
  {
    hide HasPart, IsAscii, Glob, SuffixMatches, StarMatches, Below, DotFree;
    match t
    case TypeDomain =>
    case TypeSuffix => SuffixSays(payload, host);
    case TypeWildcard =>
      StarGlob(payload, host);
      StarSays(payload[2..], host);
  }

  lemma BaseEnd(t: RuleType, payload: string)
    requires TakenOver(t, payload)
    ensures Base(t, payload) != [] && !EndsInDot(Base(t, payload))
  {
    hide HasPart, IsAscii;
  }

  /** On lower-case hosts the index never misses a rule that holds. It answers
      for a rule that does not hold exactly when the host ends in dots the index
      drops, or a star stands for the empty label of a host with a leading dot. */
  lemma MisreadIff(t: RuleType, payload: string, host: string)
    requires IsLower(host) && TakenOver(t, payload)
    ensures RuleSays(t, payload, host) ==> IndexSays(t, payload, host)
    ensures IndexSays(t, payload, host) && !RuleSays(t, payload, host) <==>
            IndexSays(t, payload, host) && (EndsInDot(host) || (t.TypeWildcard? && host == "." + Base(t, payload)))
  {
    hide RuleSays, TakenOver, Base;
    BaseEnd(t, payload);
    RuleSaysOfBase(t, payload, host);
    TrimDotsOnlyDots(host);
  }

  /** A host the index and the rules read alike. */
  predicate Clean(host: string) {
    IsLower(host) && !EndsInDot(host) && (host == [] || host[0] != '.')
  }

  lemma CleanHostsAgree(t: RuleType, payload: string, host: string)
    requires Clean(host) && TakenOver(t, payload)
    ensures IndexSays(t, payload, host) <==> RuleSays(t, payload, host)
  {
    MisreadIff(t, payload, host);
  }
}
