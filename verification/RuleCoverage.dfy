/** What earlier rules already cover: networks in the union of earlier networks,
    and domain predicates inside earlier suffixes, keywords and star wildcards. */
module RuleCoverage {
  import opened Common
  import opened DomainTrie
  import opened Wildcard
  import opened Rules

  // ---------------------------------------------------------------------
  // Networks.
  // ---------------------------------------------------------------------

  function Width(v6: bool): nat {
    if v6 then 128 else 32
  }

  predicate ValidNet(net: Net) {
    |net.prefix| <= Width(net.v6)
  }

  predicate ValidIp(ip: Ip) {
    |ip.bits| == Width(ip.v6)
  }

  /** IPv4 has 32 bits and IPv6 128. */
  lemma Widths(net: Net, ip: Ip)
    ensures ValidNet(net) <==> |net.prefix| <= 32 || (net.v6 && |net.prefix| <= 128)
    ensures ValidIp(ip) <==> (!ip.v6 && |ip.bits| == 32) || (ip.v6 && |ip.bits| == 128)
  {}

  /** A set of addresses as a binary tree over their bits. */
  datatype Cover = Nothing | Everything | Halves(zero: Cover, one: Cover)

  /** Two halves, simplified. */
  function Joined(zero: Cover, one: Cover): Cover {
    if zero.Everything? && one.Everything? then Everything
    else if zero.Nothing? && one.Nothing? then Nothing
    else Halves(zero, one)
  }

  function Zero(c: Cover): Cover {
    if c.Halves? then c.zero else c
  }

  function One(c: Cover): Cover {
    if c.Halves? then c.one else c
  }

  /** Add the addresses under a prefix and simplify. */
  function Add(c: Cover, prefix: seq<bool>): Cover
    decreases |prefix|
  {
    if prefix == [] then Everything
    else if prefix[0] then Joined(Zero(c), Add(One(c), prefix[1..]))
    else Joined(Add(Zero(c), prefix[1..]), One(c))
  }

  /** One stored block covers the whole prefix. */
  predicate Covers(c: Cover, prefix: seq<bool>) {
    match c
    case Nothing => false
    case Everything => true
    case Halves(zero, one) => prefix != [] && Covers(if prefix[0] then one else zero, prefix[1..])
  }

  predicate Simplified(c: Cover) {
    c.Halves? ==> Simplified(c.zero) && Simplified(c.one) && Joined(c.zero, c.one) == c
  }

  function Depth(c: Cover): nat {
    if c.Halves? then 1 + if Depth(c.zero) < Depth(c.one) then Depth(c.one) else Depth(c.zero) else 0
  }

  lemma {:induction false} AddStaysSimplified(c: Cover, prefix: seq<bool>, width: nat)
    requires Simplified(c) && Depth(c) <= width && |prefix| <= width
    ensures Simplified(Add(c, prefix)) && Depth(Add(c, prefix)) <= width
    decreases |prefix|
  {
    if prefix != [] {
      AddStaysSimplified(if prefix[0] then One(c) else Zero(c), prefix[1..], width - 1);
    }
  }

  /** Adding a prefix adds exactly the addresses under it. */
  lemma {:induction false} AddIsUnion(c: Cover, prefix: seq<bool>, bits: seq<bool>)
    requires |prefix| <= |bits|
    ensures Covers(Add(c, prefix), bits) <==> prefix <= bits || Covers(c, bits)
    decreases |prefix|
  {
    if prefix != [] {
      var half := if prefix[0] then One(c) else Zero(c);
      assert prefix <= bits <==> prefix[0] == bits[0] && prefix[1..] <= bits[1..];
      AddIsUnion(half, prefix[1..], bits[1..]);
      assert Covers(c, bits) <==> Covers(if bits[0] then One(c) else Zero(c), bits[1..]);
    }
  }

  /** What covers a prefix covers every address under it. */
  lemma {:induction false} CoversBelow(c: Cover, prefix: seq<bool>, bits: seq<bool>)
    requires Covers(c, prefix) && prefix <= bits
    ensures Covers(c, bits)
    decreases c
  {
    if c.Halves? {
      CoversBelow(if prefix[0] then c.one else c.zero, prefix[1..], bits[1..]);
    }
  }

  /** A simplified cover that lacks part of a prefix lacks some address under it. */
  lemma {:induction false} Hole(c: Cover, prefix: seq<bool>, width: nat) returns (bits: seq<bool>)
    requires Simplified(c) && Depth(c) <= width && |prefix| <= width && !Covers(c, prefix)
    ensures |bits| == width && prefix <= bits && !Covers(c, bits)
    decreases width
  {
    if width == 0 {
      bits := [];
    } else if prefix != [] {
      var half := if prefix[0] then One(c) else Zero(c);
      assert !Covers(half, prefix[1..]);
      var rest := Hole(half, prefix[1..], width - 1);
      bits := [prefix[0]] + rest;
      assert bits[1..] == rest;
    } else {
      var side := Zero(c).Everything?;
      var half := if side then One(c) else Zero(c);
      var rest := Hole(half, [], width - 1);
      bits := [side] + rest;
      assert bits[1..] == rest;
    }
  }

  /** `CidrCoverage`: one tree per address family. */
  datatype Coverage = Coverage(v4: Cover, v6: Cover)

  function Empty(): Coverage { Coverage(Nothing, Nothing) }

  function Family(c: Coverage, v6: bool): Cover {
    if v6 then c.v6 else c.v4
  }

  predicate CoversNet(c: Coverage, net: Net) {
    Covers(Family(c, net.v6), net.prefix)
  }

  function AbsorbNet(c: Coverage, net: Net): Coverage {
    if net.v6 then c.(v6 := Add(c.v6, net.prefix)) else c.(v4 := Add(c.v4, net.prefix))
  }

  ghost predicate InUnion(nets: set<Net>, ip: Ip) {
    exists net :: net in nets && Contains(net, ip)
  }

  /** The coverage stands for the union of the networks absorbed so far. */
  ghost predicate IsUnionOf(c: Coverage, nets: set<Net>) {
    && Simplified(c.v4) && Depth(c.v4) <= Width(false) && Simplified(c.v6) && Depth(c.v6) <= Width(true)
    && forall ip: Ip :: ValidIp(ip) ==> (Covers(Family(c, ip.v6), ip.bits) <==> InUnion(nets, ip))
  }

  lemma AbsorbKeepsUnion(c: Coverage, nets: set<Net>, net: Net)
    requires IsUnionOf(c, nets) && ValidNet(net)
    ensures IsUnionOf(AbsorbNet(c, net), nets + {net})
  {
    AddStaysSimplified(Family(c, net.v6), net.prefix, Width(net.v6));
    forall ip: Ip | ValidIp(ip)
      ensures Covers(Family(AbsorbNet(c, net), ip.v6), ip.bits) <==> InUnion(nets + {net}, ip)
    {
      if ip.v6 == net.v6 { AddIsUnion(Family(c, net.v6), net.prefix, ip.bits); }
      assert InUnion(nets + {net}, ip) <==> InUnion(nets, ip) || Contains(net, ip);
    }
  }

  /** A network is reported covered exactly when the union of the earlier ones
      holds every one of its addresses. */
  lemma CoveredIffInUnion(c: Coverage, nets: set<Net>, net: Net)
    requires IsUnionOf(c, nets) && ValidNet(net)
    ensures CoversNet(c, net) <==> forall ip: Ip :: ValidIp(ip) && Contains(net, ip) ==> InUnion(nets, ip)
  {
    var tree := Family(c, net.v6);
    if CoversNet(c, net) {
      forall ip: Ip | ValidIp(ip) && Contains(net, ip) ensures InUnion(nets, ip) {
        CoversBelow(tree, net.prefix, ip.bits);
      }
    } else {
      var bits := Hole(tree, net.prefix, Width(net.v6));
      assert ValidIp(Ip(net.v6, bits)) && Contains(net, Ip(net.v6, bits));
    }
  }

  // ---------------------------------------------------------------------
  // Domain predicates.
  // ---------------------------------------------------------------------

  /** `ShadowOracle`: what the rules kept so far claim. */
  datatype Oracle = Oracle(suffixes: set<string>, stars: set<string>, words: seq<string>)

  /** The rest of a `*.rest` payload with no other star. */
  function StarRest(payload: string): Option<string> {
    if "*." <= payload && payload[2..] != [] && '*' !in payload[2..] then Some(Lower(payload[2..])) else None
  }

  function Absorb(o: Oracle, op: Op, payload: string): Oracle {
    match op
    case DomainSuffix(suffix) => if suffix == [] then o else o.(suffixes := o.suffixes + {suffix})
    case DomainKeyword(word) => if word == [] then o else o.(words := o.words + [word])
    case DomainWildcard(_) =>
      if StarRest(payload).Some? then o.(stars := o.stars + {StarRest(payload).value}) else o
    case _ => o
  }

  predicate LabelStart(pattern: string, start: int) {
    0 <= start <= |pattern| && (start == 0 || pattern[start - 1] == '.')
  }

  predicate SuffixCovers(suffixes: set<string>, pattern: string) {
    exists start :: 0 <= start <= |pattern| && LabelStart(pattern, start) && pattern[start..] in suffixes
  }

  predicate PartAt(s: string, part: string, i: int) {
    0 <= i <= |s| - |part| && s[i..i + |part|] == part
  }

  predicate HasPart(s: string, part: string) {
    exists i :: 0 <= i <= |s| && PartAt(s, part, i)
  }

  predicate KeywordCovers(words: seq<string>, pattern: string) {
    exists j :: 0 <= j < |words| && HasPart(pattern, words[j])
  }

  predicate StarCovers(stars: set<string>, domain: string) {
    !DotFree(domain) && FirstDot(domain) > 0 && domain[FirstDot(domain) + 1..] in stars
  }

  predicate Shadows(o: Oracle, op: Op, payload: string) {
    match op
    case Domain(name) => SuffixCovers(o.suffixes, name) || KeywordCovers(o.words, name) || StarCovers(o.stars, name)
    case DomainSuffix(suffix) => SuffixCovers(o.suffixes, suffix) || KeywordCovers(o.words, suffix)
    case DomainKeyword(word) => KeywordCovers(o.words, word)
    case DomainWildcard(_) =>
      StarRest(payload).Some?
      && (SuffixCovers(o.suffixes, StarRest(payload).value) || KeywordCovers(o.words, StarRest(payload).value))
    case _ => false
  }

  /** The walk of `suffix_covers` over the dot boundaries of a pattern. */
  method FindSuffix(suffixes: set<string>, pattern: string) returns (covered: bool)
    ensures covered <==> SuffixCovers(suffixes, pattern)
  {
    if suffixes == {} { return false; }
    var start := 0;
    while true
      invariant start <= |pattern| && LabelStart(pattern, start)
      invariant forall k :: 0 <= k < start && LabelStart(pattern, k) ==> pattern[k..] !in suffixes
      decreases |pattern| - start
    {
      if pattern[start..] in suffixes { return true; }
      if DotFree(pattern[start..]) {
        forall k | start < k <= |pattern| ensures !LabelStart(pattern, k) {
          assert pattern[k - 1] == pattern[start..][k - 1 - start];
        }
        return false;
      }
      var dot := FirstDot(pattern[start..]);
      forall k | start < k < start + dot + 1 ensures !LabelStart(pattern, k) {
        assert pattern[k - 1] == pattern[start..][k - 1 - start];
      }
      start := start + dot + 1;
    }
  }

  // ---- Coverage is real ----

  /** One non-empty label, a dot, and the rest. */
  ghost predicate StarMatches(host: string, rest: string) {
    var dot := |host| - |rest| - 1;
    dot >= 1 && host[dot] == '.' && DotFree(host[..dot]) && EqFold(host[dot + 1..], rest)
  }

  lemma FoldSlice(a: string, b: string, i: nat, j: nat)
    requires EqFold(a, b) && i <= j <= |a|
    ensures |a| == |b| && EqFold(a[i..j], b[i..j])
  {
    assert |Lower(a)| == |Lower(b)|;
    assert Lower(a[i..j]) == Lower(a)[i..j];
    assert Lower(b[i..j]) == Lower(b)[i..j];
  }

  /** A suffix of a suffix, at a label boundary, is claimed by the shorter one. */
  lemma SuffixChain(host: string, pattern: string, start: nat)
    requires SuffixMatches(host, pattern) && LabelStart(pattern, start)
    ensures SuffixMatches(host, pattern[start..])
  {
    hide Lower;
    var tail := host[|host| - |pattern|..];
    assert EqFold(tail, pattern);
    FoldSlice(tail, pattern, start, |pattern|);
    assert tail[start..|pattern|] == host[|host| - |pattern| + start..];
    assert pattern[start..|pattern|] == pattern[start..];
    if start > 0 {
      FoldDot(tail, pattern, start - 1);
      assert host[|host| - |pattern| + start - 1] == tail[start - 1] == '.';
    }
  }

  lemma SuffixHasWord(host: string, pattern: string)
    requires SuffixMatches(host, pattern)
    ensures KeywordMatches(host, pattern)
  {
    var at := |host| - |pattern|;
    assert host[at..at + |pattern|] == host[at..];
    assert host[0..] == host;
    assert WordAt(host, pattern, at);
  }

  lemma WordChain(host: string, pattern: string, word: string)
    requires KeywordMatches(host, pattern) && HasPart(pattern, word)
    ensures KeywordMatches(host, word)
  {
    var at :| 0 <= at <= |host| && WordAt(host, pattern, at);
    var i :| 0 <= i <= |pattern| && PartAt(pattern, word, i);
    var window := host[at..at + |pattern|];
    FoldSlice(window, pattern, i, i + |word|);
    SliceOfSlice(host, at, |pattern|, i, |word|);
    assert WordAt(host, word, at + i);
  }

  lemma SliceOfSlice(s: string, at: nat, n: nat, i: nat, m: nat)
    requires at + n <= |s| && i + m <= n
    ensures s[at..at + n][i..i + m] == s[at + i..at + i + m]
  {
    var a, b := s[at..at + n][i..i + m], s[at + i..at + i + m];
    forall k | 0 <= k < m ensures a[k] == b[k] {
      assert a[k] == s[at..at + n][i + k] == s[at + i + k];
    }
  }

  lemma StarIsSuffix(host: string, rest: string)
    requires StarMatches(host, rest)
    ensures SuffixMatches(host, rest)
  {
  }

  lemma DomainIsStar(host: string, domain: string)
    requires EqFold(host, domain) && !DotFree(domain) && FirstDot(domain) > 0
    ensures StarMatches(host, domain[FirstDot(domain) + 1..])
  {
    var dot := FirstDot(domain);
    FoldSlice(host, domain, dot + 1, |host|);
    assert host[dot + 1..|host|] == host[dot + 1..] && domain[dot + 1..|host|] == domain[dot + 1..];
    FoldDot(host, domain, dot);
    forall i | 0 <= i < dot ensures host[i] != '.' { FoldDot(host, domain, i); }
  }

  lemma LiteralGlob(pattern: string, host: string)
    requires '*' !in pattern
    ensures Glob(pattern, host) <==> EqFold(host, pattern)
    decreases |pattern|
  {
    if pattern != [] && host != [] {
      LiteralGlob(pattern[1..], host[1..]);
      FoldHead(host, pattern);
    } else if host != [] {
      assert |Lower(host)| != |Lower(pattern)|;
    } else if pattern != [] {
      assert |Lower(host)| != |Lower(pattern)|;
    }
  }

  /** The part of a `*.rest` pattern after its star, at one place in the host. */
  lemma AfterStar(pattern: string, host: string, k: nat)
    requires StarRest(pattern).Some? && k <= |host|
    ensures Glob(pattern[1..], host[k..]) <==> k < |host| && host[k] == '.' && EqFold(host[k + 1..], pattern[2..])
  {
    hide EqFold;
    assert pattern[1..][0] == '.' && pattern[1..][1..] == pattern[2..];
    if k < |host| {
      assert host[k..][1..] == host[k + 1..];
      LiteralGlob(pattern[2..], host[k + 1..]);
    }
  }

  /** `*.rest` means one non-empty label before the rest. */
  lemma StarGlob(pattern: string, host: string)
    requires StarRest(pattern).Some?
    ensures Glob(pattern, host) <==> StarMatches(host, StarRest(pattern).value)
  {
    var rest := pattern[2..];
    FoldIgnoresLowerAll(host, rest);
    if StarMatches(host, Lower(rest)) {
      var k := |host| - |rest| - 1;
      AfterStar(pattern, host, k);
      assert DotFree(host[..k]) && Glob(pattern[1..], host[k..]);
    }
    if Glob(pattern, host) {
      var k :| 1 <= k <= |host| && DotFree(host[..k]) && Glob(pattern[1..], host[k..]);
      AfterStar(pattern, host, k);
      assert |Lower(host[k + 1..])| == |Lower(rest)|;
    }
  }

  lemma FoldIgnoresLowerAll(host: string, rest: string)
    ensures |Lower(rest)| == |rest| && forall a: string :: EqFold(a, Lower(rest)) <==> EqFold(a, rest)
  {
    LowerTwice(rest);
  }

  /** Some claim the oracle has recorded accepts the host. */
  ghost predicate Claimed(o: Oracle, host: string) {
    || (exists s :: s in o.suffixes && SuffixMatches(host, s))
    || (exists w :: w in o.words && KeywordMatches(host, w))
    || (exists r :: r in o.stars && StarMatches(host, r))
  }

  lemma CoveredIsClaimed(o: Oracle, host: string, pattern: string)
    requires SuffixMatches(host, pattern) && (SuffixCovers(o.suffixes, pattern) || KeywordCovers(o.words, pattern))
    ensures Claimed(o, host)
  {
    hide SuffixMatches;
    if SuffixCovers(o.suffixes, pattern) {
      var start :| 0 <= start <= |pattern| && LabelStart(pattern, start) && pattern[start..] in o.suffixes;
      SuffixChain(host, pattern, start);
    } else {
      SuffixHasWord(host, pattern);
      WordIsClaimed(o, host, pattern);
    }
  }

  lemma WordIsClaimed(o: Oracle, host: string, pattern: string)
    requires KeywordMatches(host, pattern) && KeywordCovers(o.words, pattern)
    ensures Claimed(o, host)
  {
    var j :| 0 <= j < |o.words| && HasPart(pattern, o.words[j]);
    WordChain(host, pattern, o.words[j]);
  }

  /** The payload of a wildcard slot is the pattern it matches by. A logic rule
      that folds to its wildcard child may carry another one. */
  predicate Straight(op: Op, payload: string) {
    op.DomainWildcard? ==> op.pattern == payload
  }

  /** A shadowed predicate accepts no host the kept rules leave unclaimed. */
  lemma ShadowedIsClaimed(o: Oracle, op: Op, payload: string, env: Env, meta: Meta)
    requires Shadows(o, op, payload) && Straight(op, payload) && OpMeans(op, env, meta)
    ensures Claimed(o, meta.host)
  {
    hide SuffixCovers, KeywordCovers, EqFold;
    match op
    case Domain(name) =>
      EqualIsSuffix(meta.host, name);
      if StarCovers(o.stars, name) {
        DomainIsStar(meta.host, name);
      } else {
        CoveredIsClaimed(o, meta.host, name);
      }
    case DomainSuffix(suffix) => CoveredIsClaimed(o, meta.host, suffix);
    case DomainKeyword(word) => WordIsClaimed(o, meta.host, word);
    case DomainWildcard(pattern) =>
      StarGlob(pattern, meta.host);
      StarIsSuffix(meta.host, StarRest(payload).value);
      CoveredIsClaimed(o, meta.host, StarRest(payload).value);
  }

  // ---- No domain rule is shadowed less than it could be ----

  ghost predicate LowerClaims(o: Oracle) {
    && (forall s :: s in o.suffixes ==> IsLower(s)) && (forall r :: r in o.stars ==> IsLower(r))
    && (forall w :: w in o.words ==> IsLower(w))
  }

  lemma LowerSlice(a: string, i: nat, j: nat, b: string)
    requires IsLower(a) && IsLower(b) && i <= j <= |a|
    ensures EqFold(a[i..j], b) <==> a[i..j] == b
  {
    assert Lower(a[i..j]) == Lower(a)[i..j];
  }

  /** A name is shadowed exactly when some claim accepts it as a host. */
  lemma DomainShadowedIff(o: Oracle, name: string, payload: string)
    requires LowerClaims(o) && IsLower(name)
    ensures Shadows(o, Domain(name), payload) <==> Claimed(o, name)
  {
    hide EqFold, IsLower, DotFree, SuffixCovers, KeywordCovers, SuffixMatches, KeywordMatches, StarMatches;
    NamesCoverIff(o, name);
    forall r | r in o.stars ensures StarMatches(name, r) <==> StarCovers({r}, name) { StarIffCovers(name, r); }
  }

  /** Some recorded suffix or keyword accepts the host. */
  ghost predicate ClaimedByName(o: Oracle, host: string) {
    || (exists s :: s in o.suffixes && SuffixMatches(host, s))
    || (exists w :: w in o.words && KeywordMatches(host, w))
  }

  /** A suffix, and what stands behind a star, is shadowed exactly when a recorded
      suffix or keyword accepts it as a host; a keyword when a recorded one is in it. */
  lemma OthersShadowedIff(o: Oracle, text: string, pattern: string, payload: string)
    requires LowerClaims(o) && IsLower(text)
    ensures Shadows(o, DomainSuffix(text), payload) <==> ClaimedByName(o, text)
    ensures StarRest(payload) == Some(text) ==>
            (Shadows(o, DomainWildcard(pattern), payload) <==> ClaimedByName(o, text))
    ensures StarRest(payload).None? ==> !Shadows(o, DomainWildcard(pattern), payload)
    ensures Shadows(o, DomainKeyword(text), payload) <==> exists w :: w in o.words && KeywordMatches(text, w)
  {
    hide SuffixCovers, KeywordCovers, SuffixMatches, KeywordMatches, LowerClaims;
    NamesCoverIff(o, text);
  }

  /** The walk over label boundaries and the search for parts find exactly the
      claims that accept the text. */
  lemma NamesCoverIff(o: Oracle, text: string)
    requires LowerClaims(o) && IsLower(text)
    ensures SuffixCovers(o.suffixes, text) <==> exists s :: s in o.suffixes && SuffixMatches(text, s)
    ensures KeywordCovers(o.words, text) <==> exists w :: w in o.words && KeywordMatches(text, w)
  {
    hide EqFold, IsLower, SuffixMatches, KeywordMatches, HasPart;
    forall s | s in o.suffixes ensures SuffixMatches(text, s) <==> SuffixCovers({s}, text) { SuffixIffCovers(text, s); }
    forall w | w in o.words ensures KeywordMatches(text, w) <==> HasPart(text, w) { WordIffPart(text, w); }
    if SuffixCovers(o.suffixes, text) {
      var start :| 0 <= start <= |text| && LabelStart(text, start) && text[start..] in o.suffixes;
      assert SuffixCovers({text[start..]}, text);
    }
    if KeywordCovers(o.words, text) {
      var j :| 0 <= j < |o.words| && HasPart(text, o.words[j]);
      assert o.words[j] in o.words;
    }
  }

  lemma SuffixIffCovers(name: string, s: string)
    requires IsLower(name) && IsLower(s)
    ensures SuffixMatches(name, s) <==> SuffixCovers({s}, name)
  {
    hide EqFold, IsLower;
    if |s| <= |name| {
      var start := |name| - |s|;
      LowerSlice(name, start, |name|, s);
      assert name[start..|name|] == name[start..];
      if start == 0 { assert name[start..] == name; }
      assert SuffixMatches(name, s) <==> LabelStart(name, start) && name[start..] == s;
    }
  }

  lemma WordIffPart(name: string, w: string)
    requires IsLower(name) && IsLower(w)
    ensures KeywordMatches(name, w) <==> HasPart(name, w)
  {
    hide EqFold, IsLower;
    forall i: nat | i + |w| <= |name| ensures WordAt(name, w, i) <==> PartAt(name, w, i) {
      LowerSlice(name, i, i + |w|, w);
    }
  }

  lemma StarIffCovers(name: string, r: string)
    requires IsLower(name) && IsLower(r)
    ensures StarMatches(name, r) <==> StarCovers({r}, name)
  {
    hide EqFold, IsLower;
    var dot := |name| - |r| - 1;
    if dot >= 0 {
      LowerSlice(name, dot + 1, |name|, r);
      assert name[dot + 1..|name|] == name[dot + 1..];
    }
    if StarMatches(name, r) {
      FirstDotIs(name, dot);
    }
  }

  lemma FirstDotIs(s: string, dot: nat)
    requires dot < |s| && s[dot] == '.' && DotFree(s[..dot])
    ensures !DotFree(s) && FirstDot(s) == dot
  {
    assert forall i :: 0 <= i < dot ==> s[..dot][i] == s[i];
  }

  lemma EqualIsSuffix(host: string, name: string)
    requires EqFold(host, name)
    ensures SuffixMatches(host, name)
  {
    assert |Lower(host)| == |Lower(name)|;
  }
}
