/** Static hosts with domain aliases: building the trie, rejecting alias
    cycles, and merging the system hosts file below it. */
module HostAliases {
  import opened Common
  import opened DomainTrie
  import opened DomainNames
  import opened Wildcard

  datatype Entry<A> = Addresses(ips: seq<A>) | Alias(name: string)

  /** Address parsing and domain-name syntax come from libraries. */
  datatype Syntax<!A> = Syntax(parseIp: string -> Option<A>, validName: string -> bool)

  datatype HostsError = BadAlias(value: string) | BadIp(value: string) | AliasCycle(source: string)

  /** `*.x` is written `+.x` in the trie. */
  function Normalize(s: string): string { if "*." <= s then "+." + s[2..] else s }

  /** A trailing dot and upper case are dropped; wildcards and single labels refused. */
  function ParseAlias<A>(syntax: Syntax<A>, value: string): Result<string, HostsError> {
    var alias := Lower(TrimDots(value));
    if '.' in alias && '*' !in alias && '+' !in alias && syntax.validName(alias) then Ok(alias)
    else Err(BadAlias(value))
  }

  // ---------------------------------------------------------------------
  // Following aliases.
  // ---------------------------------------------------------------------

  /** The alias target a lookup of `d` hits, if it hits one. */
  function Next<A>(t: Trie<Entry<A>>, d: string): Option<string> {
    var hit: Option<Entry<A>> := Search(t, d);
    if hit.Some? && hit.value.Alias? then Some(hit.value.name) else None
  }

  /** Following aliases from `d` ends in addresses or a miss within `k` lookups. */
  ghost predicate Ends<A>(t: Trie<Entry<A>>, d: string, k: nat)
    decreases k
  {
    k > 0 && (Next(t, d).None? || Ends(t, Next(t, d).value, k - 1))
  }

  ghost predicate AllEnd<A>(t: Trie<Entry<A>>, k: nat) { forall d :: Ends(t, d, k) }

  ghost predicate NeverEnds<A>(t: Trie<Entry<A>>, d: string) { forall k: nat :: !Ends(t, d, k) }

  /** Every alias the trie can answer with is one of `targets`. */
  ghost predicate AnswersWithin<A>(t: Trie<Entry<A>>, targets: set<string>) {
    forall d :: Next(t, d).Some? ==> Next(t, d).value in targets
  }

  lemma {:induction false} EndsLater<A>(t: Trie<Entry<A>>, d: string, k: nat, l: nat)
    requires Ends(t, d, k) && k <= l
    ensures Ends(t, d, l)
    decreases k
  {
    if Next(t, d).Some? { EndsLater(t, Next(t, d).value, k - 1, l - 1); }
  }

  /** `walk` follows aliases from each of its names to the next. */
  ghost predicate IsWalk<A>(t: Trie<Entry<A>>, walk: seq<string>) {
    forall i: nat :: 0 < i < |walk| ==> Next(t, walk[i - 1]) == Some(walk[i])
  }

  lemma {:induction false} WalkEnds<A>(t: Trie<Entry<A>>, walk: seq<string>, i: nat)
    requires IsWalk(t, walk) && i < |walk| && Next(t, walk[|walk| - 1]).None?
    ensures Ends(t, walk[i], |walk| - i)
    decreases |walk| - i
  {
    if i + 1 < |walk| { WalkEnds(t, walk, i + 1); }
  }

  /** A walk that comes back to a name it passed goes on for ever. */
  lemma {:induction false} ReturningWalkNeverEnds<A>(t: Trie<Entry<A>>, walk: seq<string>, start: nat, i: nat, k: nat)
    requires IsWalk(t, walk) && start <= i < |walk| && Next(t, walk[|walk| - 1]) == Some(walk[start])
    ensures !Ends(t, walk[i], k)
    decreases k
  {
    if k > 0 {
      if i + 1 < |walk| {
        assert Next(t, walk[i]) == Some(walk[i + 1]);
        ReturningWalkNeverEnds(t, walk, start, i + 1, k - 1);
      } else {
        ReturningWalkNeverEnds(t, walk, start, start, k - 1);
      }
    }
  }

  predicate Distinct(walk: seq<string>) {
    forall i, j :: 0 <= i < j < |walk| ==> walk[i] != walk[j]
  }

  lemma DistinctFits(walk: seq<string>, pool: set<string>)
    requires Distinct(walk) && forall i :: 0 <= i < |walk| ==> walk[i] in pool
    ensures |walk| <= |pool|
  {
    if |walk| > |pool| {
      var i, j := Pigeonhole(walk, pool);
    }
  }

  function Visited(walk: seq<string>): set<string> { set i | 0 <= i < |walk| :: walk[i] }

  lemma VisitedAppend(walk: seq<string>, d: string)
    ensures Visited(walk + [d]) == Visited(walk) + {d}
    ensures Distinct(walk) && d !in Visited(walk) ==> Distinct(walk + [d])
  {
    assert (walk + [d])[|walk|] == d;
    forall i | 0 <= i < |walk| ensures walk[i] in Visited(walk + [d]) && (walk + [d])[i] in Visited(walk) {
      assert (walk + [d])[i] == walk[i];
    }
  }

  // ---------------------------------------------------------------------
  // The cycle check.
  // ---------------------------------------------------------------------

  /** One walk of `reject_host_alias_cycles`: true unless a name comes back. */
  method WalkFrom<A>(t: Trie<Entry<A>>, source: string, target: string, ghost targets: set<string>) returns (ok: bool)
    requires AnswersWithin(t, targets) && target in targets && forall n :: n in targets ==> IsLower(n)
    ensures ok ==> Ends(t, target, |targets|)
    // A refusal means a real cycle, if `source` itself leads to `target`.
    ensures !ok && Next(t, Lower(source)) == Some(target) ==> NeverEnds(t, target)
  {
    var seen := {Lower(source)};
    var current := target;
    ghost var walk: seq<string> := [];
    while true
      invariant current in targets
      invariant Distinct(walk) && forall i :: 0 <= i < |walk| ==> walk[i] in targets
      invariant IsWalk(t, walk + [current]) && (walk + [current])[0] == target
      invariant seen == {Lower(source)} + Visited(walk)
      decreases |targets| - |walk|
    {
      DistinctFits(walk, targets);
      assert Lower(current) == current;
      if Lower(current) in seen {
        if Next(t, Lower(source)) == Some(target) {
          CycleFound(t, Lower(source), target, walk, current);
        }
        return false;
      }
      seen := seen + {Lower(current)};
      VisitedAppend(walk, current);
      walk := walk + [current];
      DistinctFits(walk, targets);
      var hit: Option<Entry<A>> := Search(t, current);
      if hit.None? || hit.value.Addresses? {
        WalkEnds(t, walk, 0);
        EndsLater(t, target, |walk|, |targets|);
        return true;
      }
      assert Next(t, current) == Some(hit.value.name);
      ghost var longer := walk + [hit.value.name];
      forall i: nat | 0 < i < |longer| ensures Next(t, longer[i - 1]) == Some(longer[i]) {
        if i < |walk| { assert Next(t, walk[i - 1]) == Some(walk[i]); }
      }
      current := hit.value.name;
    }
  }

  lemma CycleFound<A>(t: Trie<Entry<A>>, source: string, target: string, walk: seq<string>, current: string)
    requires IsWalk(t, walk + [current]) && (walk + [current])[0] == target
    requires Next(t, source) == Some(target)
    requires current == source || current in Visited(walk)
    ensures NeverEnds(t, target)
  {
    var whole := walk + [current];
    forall k: nat ensures !Ends(t, target, k) {
      if current == source {
        assert Next(t, whole[|whole| - 1]) == Some(whole[0]);
        ReturningWalkNeverEnds(t, whole, 0, 0, k);
      } else {
        var s :| 0 <= s < |walk| && walk[s] == current;
        assert walk == whole[..|walk|];
        assert Next(t, walk[|walk| - 1]) == Some(current) by {
          assert whole[|walk| - 1] == walk[|walk| - 1];
          assert Next(t, whole[|walk| - 1]) == Some(whole[|walk|]);
        }
        assert IsWalk(t, walk) by {
          forall i: nat | 0 < i < |walk| ensures Next(t, walk[i - 1]) == Some(walk[i]) {
            assert whole[i - 1] == walk[i - 1] && whole[i] == walk[i];
          }
        }
        ReachesReturn(t, walk, s, 0, k);
      }
    }
  }

  /** Names before the point of return lead into the loop as well. */
  lemma {:induction false} ReachesReturn<A>(t: Trie<Entry<A>>, walk: seq<string>, start: nat, i: nat, k: nat)
    requires IsWalk(t, walk) && i <= start < |walk| && Next(t, walk[|walk| - 1]) == Some(walk[start])
    ensures !Ends(t, walk[i], k)
    decreases start - i
  {
    if i == start {
      ReturningWalkNeverEnds(t, walk, start, start, k);
    } else if k > 0 {
      assert Next(t, walk[i]) == Some(walk[i + 1]);
      ReachesReturn(t, walk, start, i + 1, k - 1);
    }
  }

  /** The alias pairs recorded while building: where from, where to. */
  function Targets(aliases: seq<(string, string)>): set<string> { set i | 0 <= i < |aliases| :: aliases[i].1 }

  ghost predicate SourcesLead<A>(t: Trie<Entry<A>>, aliases: seq<(string, string)>) {
    forall i :: 0 <= i < |aliases| ==> Next(t, Lower(aliases[i].0)) == Some(aliases[i].1)
  }

  method RejectCycles<A>(t: Trie<Entry<A>>, aliases: seq<(string, string)>) returns (r: Result<(), HostsError>)
    requires AnswersWithin(t, Targets(aliases)) && forall n :: n in Targets(aliases) ==> IsLower(n)
    // Accepted: from any name whatever, aliases end within the number of
    // distinct targets plus one.
    ensures r.Ok? ==> AllEnd(t, |Targets(aliases)| + 1)
    // Rejected: there is a real cycle, if each source leads to its own target.
    ensures r.Err? && SourcesLead(t, aliases) ==> exists d :: NeverEnds(t, d)
    ensures r.Err? ==> r.error.AliasCycle?
  {
    var targets := Targets(aliases);
    for i := 0 to |aliases|
      invariant forall j :: 0 <= j < i ==> Ends(t, aliases[j].1, |targets|)
    {
      var (source, target) := aliases[i];
      assert target in targets;
      var ok := WalkFrom(t, source, target, targets);
      if !ok { return Err(AliasCycle(source)); }
    }
    var bound := |targets| + 1;
    forall d ensures Ends(t, d, bound) {
      if Next(t, d).Some? {
        var j :| 0 <= j < |aliases| && aliases[j].1 == Next(t, d).value;
      }
    }
    return Ok(());
  }

  // ---------------------------------------------------------------------
  // Building.
  // ---------------------------------------------------------------------

  datatype HostLine = HostLine(host: string, values: seq<string>)

  /** What the values of a line mean: a single one an address if it reads as one
      and else an alias, several only addresses. */
  function EntryOf<A>(syntax: Syntax<A>, values: seq<string>): Option<Entry<A>> {
    if |values| == 1 then
      var raw := Trim(values[0]);
      if syntax.parseIp(raw).Some? then Some(Addresses([syntax.parseIp(raw).value]))
      else if ParseAlias(syntax, raw).Ok? then Some(Alias(ParseAlias(syntax, raw).value))
      else None
    else if forall i :: 0 <= i < |values| ==> syntax.parseIp(values[i]).Some? then
      Some(Addresses(seq(|values|, (i: nat) requires i < |values| && syntax.parseIp(values[i]).Some? =>
                                     syntax.parseIp(values[i]).value)))
    else None
  }

  /** The same, read off the values: one address, one alias in lower case without
      its trailing dots, or a list of addresses. */
  ghost predicate ReadsAs<A>(syntax: Syntax<A>, values: seq<string>, e: Entry<A>) {
    if |values| == 1 && syntax.parseIp(Trim(values[0])).None? then
      && e.Alias? && e.name == Lower(TrimDots(Trim(values[0]))) && syntax.validName(e.name)
      && '.' in e.name && '*' !in e.name && '+' !in e.name
    else
      && e.Addresses? && |e.ips| == |values|
      && forall i :: 0 <= i < |values| ==>
           syntax.parseIp(if |values| == 1 then Trim(values[i]) else values[i]) == Some(e.ips[i])
  }

  lemma EntryIff<A>(syntax: Syntax<A>, values: seq<string>, e: Entry<A>)
    ensures EntryOf(syntax, values) == Some(e) <==> ReadsAs(syntax, values, e)
  {
    if ReadsAs(syntax, values, e) && e.Addresses? {
      assert EntryOf(syntax, values).value.ips == e.ips;
    }
  }

  /** What one `hosts:` entry says: addresses or an alias, or an error. */
  method ParseValues<A>(syntax: Syntax<A>, values: seq<string>) returns (r: Result<Entry<A>, HostsError>)
    requires values != []
    ensures r.Ok? ==> EntryOf(syntax, values) == Some(r.value)
    ensures r.Err? ==> EntryOf(syntax, values).None?
    ensures r.Ok? && r.value.Alias? ==> IsLower(r.value.name)
    ensures r.Err? ==> !r.error.AliasCycle?
  {
    if |values| == 1 {
      var raw := Trim(values[0]);
      var ip := syntax.parseIp(raw);
      if ip.Some? { return Ok(Addresses([ip.value])); }
      var alias := ParseAlias(syntax, raw);
      if alias.Err? { return Err(alias.error); }
      LowerTwice(TrimDots(raw));
      return Ok(Alias(alias.value));
    }
    var ips: seq<A> := [];
    for i := 0 to |values|
      invariant |ips| == i
      invariant forall j :: 0 <= j < i ==> syntax.parseIp(values[j]) == Some(ips[j])
    {
      var ip := syntax.parseIp(values[i]);
      if ip.None? { return Err(BadIp(values[i])); }
      ips := ips + [ip.value];
    }
    assert forall i :: 0 <= i < |values| ==> syntax.parseIp(values[i]).Some?;
    assert EntryOf(syntax, values).value.ips == ips;
    return Ok(Addresses(ips));
  }

  /** The host as written, plus the bare root of a wildcard. */
  function InsertHost<A>(t: Trie<Entry<A>>, host: string, e: Entry<A>): Trie<Entry<A>> {
    var entry := Normalize(Trim(host));
    var t' := Insert(t, entry, e);
    if "+." <= entry then Insert(t', entry[2..], e) else t'
  }

  lemma AnswersAfterInsert<A>(t: Trie<Entry<A>>, host: string, e: Entry<A>, targets: set<string>)
    requires WellFormed(t) && AnswersWithin(t, targets) && (e.Alias? ==> e.name in targets)
    ensures WellFormed(InsertHost(t, host, e)) && AnswersWithin(InsertHost(t, host, e), targets)
  {
    hide Search, Insert;
    var entry := Normalize(Trim(host));
    var t' := Insert(t, entry, e);
    forall d
      ensures WellFormed(t') && Search(t', d) in {Search(t, d), Some(e)}
      ensures WellFormed(Insert(t', entry, e)) && "+." <= entry ==>
              Search(Insert(t', entry[2..], e), d) in {Search(t', d), Some(e)}
      ensures "+." <= entry ==> WellFormed(Insert(t', entry[2..], e))
    {
      SearchAfterInsert(t, entry, e, d);
      if "+." <= entry { SearchAfterInsert(t', entry[2..], e, d); }
    }
    assert WellFormed(t') by { SearchAfterInsert(t, entry, e, ""); }
    if "+." <= entry { SearchAfterInsert(t', entry[2..], e, ""); }
    forall d
      ensures Next(InsertHost(t, host, e), d) in {Next(t, d), if e.Alias? then Some(e.name) else None}
    {
      SearchAfterInsert(t, entry, e, d);
      if "+." <= entry { SearchAfterInsert(t', entry[2..], e, d); }
    }
  }

  /** The trie and the alias pairs the lines put together, one line after the
      other; nothing when one cannot be read. */
  function Together<A>(syntax: Syntax<A>, hosts: seq<HostLine>): Option<(Trie<Entry<A>>, seq<(string, string)>)>
    decreases |hosts|
  {
    if hosts == [] then Some((EmptyTrie(), []))
    else
      var before, line := Together(syntax, hosts[..|hosts| - 1]), hosts[|hosts| - 1];
      if before.None? || line.values == [] then before
      else
        var entry := EntryOf(syntax, line.values);
        if entry.None? then None
        else
          var (t, aliases) := before.value;
          Some((InsertHost(t, line.host, entry.value),
                if entry.value.Alias? then aliases + [(Normalize(Trim(line.host)), entry.value.name)] else aliases))
  }

  lemma {:induction false} UnreadableStays<A>(syntax: Syntax<A>, hosts: seq<HostLine>, n: nat)
    requires n <= |hosts| && Together(syntax, hosts[..n]).None?
    ensures Together(syntax, hosts).None?
    decreases |hosts|
  {
    if n < |hosts| {
      assert hosts[..|hosts| - 1][..n] == hosts[..n];
      UnreadableStays(syntax, hosts[..|hosts| - 1], n);
    } else {
      assert hosts[..n] == hosts;
    }
  }

  // ---------------------------------------------------------------------
  // Which names the lines answer.
  // ---------------------------------------------------------------------

  /** What a name is looked up as. */
  function Query(name: string): string { Lower(TrimDots(Trim(name))) }

  predicate IsWildcard(host: string) { "*." <= host || "+." <= host }

  /** What a domain written in lower case takes in: `+.x` and `.x` every name below
      x, `*.x` those one label below it, and any other itself. */
  predicate Takes(d: string, q: string) {
    if "+." <= d then d[2..] != [] && Below(q, d[2..])
    else if "*." <= d then d[2..] != [] && Below(q, d[2..]) && DotFree(q[..|q| - |d| + 1])
    else if "." <= d then d[1..] != [] && Below(q, d[1..])
    else d != [] && q == d
  }

  /** A `hosts:` line is written for a name: a wildcard for every name below its
      root and for what the root takes in, any other host for what it takes in. */
  predicate WrittenFor(host: string, name: string) {
    var h, q := Trim(host), Query(name);
    if IsWildcard(h) then (h[2..] != [] && Below(q, Lower(h[2..]))) || Takes(Lower(Trim(h[2..])), q)
    else Takes(Lower(h), q)
  }

  /** It is written for just this name, as host or as root of a wildcard. */
  predicate NamesExactly(host: string, name: string) {
    var h := Trim(host);
    var d := Lower(if IsWildcard(h) then Trim(h[2..]) else h);
    d != [] && !IsWildcard(d) && !("." <= d) && Query(name) == d
  }

  predicate Speaks(line: HostLine, name: string) { line.values != [] && WrittenFor(line.host, name) }

  predicate FirstExact(hosts: seq<HostLine>, name: string, k: nat) {
    && k < |hosts| && hosts[k].values != [] && NamesExactly(hosts[k].host, name)
    && forall j :: 0 <= j < k && hosts[j].values != [] ==> !NamesExactly(hosts[j].host, name)
  }

  function Stored<T>(domain: string, v: T): seq<Pattern<T>> {
    if PatternsOf(domain, v).Some? then PatternsOf(domain, v).value else []
  }

  ghost predicate SomeMatch<T>(patterns: seq<Pattern<T>>, query: Path) {
    exists i :: 0 <= i < |patterns| && Matches(patterns[i], query)
  }

  ghost predicate SomePlaced<T>(patterns: seq<Pattern<T>>, path: Path, kind: Kind) {
    exists i :: 0 <= i < |patterns| && patterns[i].path == path && patterns[i].kind == kind
  }

  lemma StoredMeans<T>(domain: string, v: T, q: string)
    ensures SomeMatch(Stored(domain, v), Labels(q)) <==> Takes(Lower(Trim(domain)), q)
    ensures SomePlaced(Stored(domain, v), Labels(q), Exact) <==>
            var d := Lower(Trim(domain)); d != [] && !IsWildcard(d) && !("." <= d) && q == d
    ensures Rooted(Stored(domain, v)) && forall i :: 0 <= i < |Stored(domain, v)| ==> Stored(domain, v)[i].value == v
  {
    hide Labels, Below, Matches, Trim, DotFree;
    var d, stored := Lower(Trim(domain)), Stored(domain, v);
    if d == [] {
    } else if "+." <= d {
      DotMeans(q, d[2..], v);
      StarMeans(q, d[2..], v);
      if d[2..] != [] { assert stored[1] == Pattern(Labels(d[2..]), Dot, v); }
    } else if "*." <= d {
      StarMeans(q, d[2..], v);
      if d[2..] != [] { assert stored[0] == Pattern(Labels(d[2..]), Star, v); }
    } else if "." <= d {
      DotMeans(q, d[1..], v);
      if d[1..] != [] { assert stored[0] == Pattern(Labels(d[1..]), Dot, v); }
    } else {
      ExactMeans(q, d, v);
      ExtendsIffBelow(q, d);
      assert stored[0] == Pattern(Labels(d), Exact, v);
    }
  }

  /** All that a line stores. */
  function HostPatterns<A>(host: string, e: Entry<A>): seq<Pattern<Entry<A>>> {
    var entry := Normalize(Trim(host));
    Stored(entry, e) + if "+." <= entry then Stored(entry[2..], e) else []
  }

  lemma InsertHostStores<A>(t: Trie<Entry<A>>, host: string, e: Entry<A>)
    ensures InsertHost(t, host, e) == Trie(InsertAll(t.root, HostPatterns(host, e)), t.len + |HostPatterns(host, e)|)
  {
    hide PatternsOf;
    var entry := Normalize(Trim(host));
    InsertStores(t, entry, e);
    if "+." <= entry {
      InsertStores(Insert(t, entry, e), entry[2..], e);
      InsertAllJoins(t.root, Stored(entry, e), Stored(entry[2..], e));
    } else {
      assert HostPatterns(host, e) == Stored(entry, e);
    }
  }

  lemma InsertStores<T>(t: Trie<T>, domain: string, v: T)
    ensures Insert(t, domain, v) == Trie(InsertAll(t.root, Stored(domain, v)), t.len + |Stored(domain, v)|)
  {
  }

  /** A wildcard as the trie is given it. */
  lemma NormalizedWildcard(host: string)
    requires IsWildcard(Trim(host))
    ensures Normalize(Trim(host)) == "+." + Trim(host)[2..]
    ensures Lower(Trim(Normalize(Trim(host)))) == "+." + Lower(Trim(host)[2..])
  {
    hide Trim;
    var h := Trim(host);
    var x := h[2..];
    TrimIsTidy(host);
    TidyEnds(h);
    TidyEnds("+." + x);
    LowerOfMarked("+.", x);
    if "+." <= h { assert h == "+." + x; }
  }

  lemma HostPatternsMean<A>(host: string, e: Entry<A>, name: string)
    ensures SomeMatch(HostPatterns(host, e), Labels(Query(name))) <==> WrittenFor(host, name)
    ensures SomePlaced(HostPatterns(host, e), Labels(Query(name)), Exact) <==> NamesExactly(host, name)
    ensures Rooted(HostPatterns(host, e))
    ensures forall i :: 0 <= i < |HostPatterns(host, e)| ==> HostPatterns(host, e)[i].value == e
  {
    hide Trim, Labels, Matches, Stored, Query, Below, DotFree;
    var h, q, entry := Trim(host), Query(name), Normalize(Trim(host));
    StoredMeans(entry, e, q);
    if IsWildcard(h) {
      NormalizedWildcard(host);
      assert entry[2..] == h[2..];
      assert ("+." + Lower(h[2..]))[2..] == Lower(h[2..]);
      StoredMeans(entry[2..], e, q);
      EitherMatches(Stored(entry, e), Stored(entry[2..], e), Labels(q));
    } else {
      TrimIsTidy(host);
      assert HostPatterns(host, e) == Stored(entry, e);
    }
  }

  lemma EitherMatches<T>(a: seq<Pattern<T>>, b: seq<Pattern<T>>, path: Path)
    ensures SomeMatch(a + b, path) <==> SomeMatch(a, path) || SomeMatch(b, path)
    ensures SomePlaced(a + b, path, Exact) <==> SomePlaced(a, path, Exact) || SomePlaced(b, path, Exact)
  {
    hide Matches;
    assert forall i :: 0 <= i < |a| ==> (a + b)[i] == a[i];
    assert forall i :: 0 <= i < |b| ==> (a + b)[|a| + i] == b[i];
  }

  /** All that the lines store, in order. */
  function AllStored<A>(syntax: Syntax<A>, hosts: seq<HostLine>): seq<Pattern<Entry<A>>>
    decreases |hosts|
  {
    if hosts == [] then []
    else
      var before, line := AllStored(syntax, hosts[..|hosts| - 1]), hosts[|hosts| - 1];
      if line.values == [] || EntryOf(syntax, line.values).None? then before
      else before + HostPatterns(line.host, EntryOf(syntax, line.values).value)
  }

  lemma {:induction false} TogetherStores<A>(syntax: Syntax<A>, hosts: seq<HostLine>)
    requires Together(syntax, hosts).Some?
    ensures var t, all := Together(syntax, hosts).value.0, AllStored(syntax, hosts);
            t == Trie(InsertAll(EmptyNode(), all), |all|)
    decreases |hosts|
  {
    hide InsertHost, HostPatterns, EntryOf;
    if hosts != [] {
      var init, line := hosts[..|hosts| - 1], hosts[|hosts| - 1];
      TogetherStores(syntax, init);
      if line.values != [] {
        var e := EntryOf(syntax, line.values).value;
        InsertHostStores(Together(syntax, init).value.0, line.host, e);
        InsertAllJoins(EmptyNode(), AllStored(syntax, init), HostPatterns(line.host, e));
      }
    }
  }

  /** Every stored pattern comes from a line, and a line that reads stores its own. */
  lemma {:induction false} StoredByLines<A>(syntax: Syntax<A>, hosts: seq<HostLine>, name: string)
    requires Together(syntax, hosts).Some?
    ensures Rooted(AllStored(syntax, hosts))
    ensures forall i ::
              0 <= i < |AllStored(syntax, hosts)| && Matches(AllStored(syntax, hosts)[i], Labels(Query(name))) ==>
              SaidBy(syntax, hosts, name, AllStored(syntax, hosts)[i].value)
    ensures (exists k :: 0 <= k < |hosts| && Speaks(hosts[k], name)) ==>
              SomeMatch(AllStored(syntax, hosts), Labels(Query(name)))
    decreases |hosts|
  {
    hide EntryOf, Matches, Labels, Query, WrittenFor, HostPatterns, SaidBy, InsertHost, Normalize, Trim;
    if hosts != [] {
      var init, line, n := hosts[..|hosts| - 1], hosts[|hosts| - 1], |hosts| - 1;
      StoredByLines(syntax, init, name);
      assert forall k :: 0 <= k < n ==> init[k] == hosts[k];
      if line.values != [] {
        var e := EntryOf(syntax, line.values).value;
        var before, own, query := AllStored(syntax, init), HostPatterns(line.host, e), Labels(Query(name));
        HostPatternsMean(line.host, e, name);
        EitherMatches(before, own, query);
        forall i | 0 <= i < |before + own| && Matches((before + own)[i], query)
          ensures SaidBy(syntax, hosts, name, (before + own)[i].value)
        {
          if i < |before| {
            SaidByMore(syntax, hosts, name, before[i].value);
          } else {
            assert Matches(own[i - |before|], query);
            assert Speaks(hosts[n], name);
            LastSays(syntax, hosts, name, e);
          }
        }
      } else {
        forall i | 0 <= i < |AllStored(syntax, init)| && Matches(AllStored(syntax, init)[i], Labels(Query(name)))
          ensures SaidBy(syntax, hosts, name, AllStored(syntax, init)[i].value)
        {
          SaidByMore(syntax, hosts, name, AllStored(syntax, init)[i].value);
        }
      }
    }
  }

  /** Some line written for the name says this. */
  ghost predicate SaidBy<A>(syntax: Syntax<A>, hosts: seq<HostLine>, name: string, e: Entry<A>) {
    exists k :: 0 <= k < |hosts| && Speaks(hosts[k], name) && EntryOf(syntax, hosts[k].values) == Some(e)
  }

  lemma LastSays<A>(syntax: Syntax<A>, hosts: seq<HostLine>, name: string, e: Entry<A>)
    requires hosts != [] && Speaks(hosts[|hosts| - 1], name) && EntryOf(syntax, hosts[|hosts| - 1].values) == Some(e)
    ensures SaidBy(syntax, hosts, name, e)
  {}

  lemma SaidByMore<A>(syntax: Syntax<A>, hosts: seq<HostLine>, name: string, e: Entry<A>)
    requires hosts != [] && SaidBy(syntax, hosts[..|hosts| - 1], name, e)
    ensures SaidBy(syntax, hosts, name, e)
  {
    hide EntryOf, Speaks;
    var init := hosts[..|hosts| - 1];
    var k :| 0 <= k < |init| && Speaks(init[k], name) && EntryOf(syntax, init[k].values) == Some(e);
    assert hosts[k] == init[k];
  }

  lemma {:induction false} GetAfterAll<T>(n: Node<T>, patterns: seq<Pattern<T>>, path: Path, kind: Kind, v: T)
    requires forall i :: 0 <= i < |patterns| ==> patterns[i].value == v
    ensures Get(InsertAll(n, patterns), path, kind) ==
            if Get(n, path, kind).Some? then Get(n, path, kind)
            else if SomePlaced(patterns, path, kind) then Some(v) else None
    decreases |patterns|
  {
    if patterns != [] {
      var init, last := patterns[..|patterns| - 1], patterns[|patterns| - 1];
      GetAfterAll(n, init, path, kind, v);
      InsertThenGet(InsertAll(n, init), last.path, last.kind, last.value, path, kind);
      assert forall i :: 0 <= i < |init| ==> init[i] == patterns[i];
    }
  }

  /** The exact place of a name holds what the first line says that names it. */
  lemma {:induction false} ExactPlace<A>(syntax: Syntax<A>, hosts: seq<HostLine>, name: string)
    requires Together(syntax, hosts).Some?
    ensures var place := Get(Together(syntax, hosts).value.0.root, Labels(Query(name)), Exact);
            && (forall k: nat :: FirstExact(hosts, name, k) ==>
              place.Some? && place == EntryOf(syntax, hosts[k].values))
            && ((forall k: nat :: !FirstExact(hosts, name, k)) ==> place.None?)
    decreases |hosts|
  {
    hide EntryOf, Get, Labels, Query, NamesExactly, HostPatterns, InsertHost;
    var path := Labels(Query(name));
    if hosts == [] {
      NothingInEmpty<Entry<A>>(path, Exact);
    } else {
      var init, line, n := hosts[..|hosts| - 1], hosts[|hosts| - 1], |hosts| - 1;
      ExactPlace(syntax, init, name);
      forall k: nat | k < n ensures FirstExact(init, name, k) <==> FirstExact(hosts, name, k) {
        assert forall j :: 0 <= j <= k ==> init[j] == hosts[j];
      }
      if line.values != [] {
        var e, t := EntryOf(syntax, line.values).value, Together(syntax, init).value.0;
        InsertHostStores(t, line.host, e);
        HostPatternsMean(line.host, e, name);
        GetAfterAll(t.root, HostPatterns(line.host, e), path, Exact, e);
        if forall k: nat :: !FirstExact(init, name, k) {
          NoneExact(init, name);
          assert NamesExactly(line.host, name) ==> FirstExact(hosts, name, n);
        } else {
          var k: nat :| FirstExact(init, name, k);
          assert FirstExact(hosts, name, k);
        }
      }
    }
  }

  lemma {:induction false} NoneExact(hosts: seq<HostLine>, name: string)
    requires forall k: nat :: !FirstExact(hosts, name, k)
    ensures forall j :: 0 <= j < |hosts| && hosts[j].values != [] ==> !NamesExactly(hosts[j].host, name)
    decreases |hosts|
  {
    hide NamesExactly;
    if hosts != [] {
      var init, n := hosts[..|hosts| - 1], |hosts| - 1;
      forall k: nat ensures FirstExact(init, name, k) ==> FirstExact(hosts, name, k) {
        assert forall j :: 0 <= j <= k && j < n ==> init[j] == hosts[j];
      }
      NoneExact(init, name);
      assert forall j :: 0 <= j < n ==> init[j] == hosts[j];
      assert !FirstExact(hosts, name, n);
    }
  }

  /** What the lines put together answers: a name exactly when some line is written
      for it, then what such a line says, and what the first line says that names
      it exactly, if one does. */
  ghost predicate Answers<A>(syntax: Syntax<A>, hosts: seq<HostLine>, t: Trie<Entry<A>>, name: string) {
    && (Search(t, name).Some? <==> exists k :: 0 <= k < |hosts| && Speaks(hosts[k], name))
    && (Search(t, name).Some? ==>
          exists k :: 0 <= k < |hosts| && Speaks(hosts[k], name) &&
            ReadsAs(syntax, hosts[k].values, Search(t, name).value))
    && (forall k: nat :: FirstExact(hosts, name, k) ==>
          Search(t, name).Some? && ReadsAs(syntax, hosts[k].values, Search(t, name).value))
  }

  lemma LinesAreAnswered<A>(syntax: Syntax<A>, hosts: seq<HostLine>, name: string)
    requires Together(syntax, hosts).Some?
    ensures Answers(syntax, hosts, Together(syntax, hosts).value.0, name)
  {
    hide EntryOf, WrittenFor, NamesExactly, Together, AllStored, ReadsAs, Deepest, Get, Labels, Matches, TrimDots, Trim;
    var t, all, query := Together(syntax, hosts).value.0, AllStored(syntax, hosts), Labels(Query(name));
    TogetherStores(syntax, hosts);
    StoredByLines(syntax, hosts, name);
    FoundIffMatched(all, query);
    FoundMatches(all, query, |query|);
    ExactPlace(syntax, hosts, name);
    ExactComesFirst(t.root, query);
    SpokenIsSomething(hosts, name);
    NothingInEmpty<Entry<A>>(query, Exact);
    if all == [] {
      assert InsertAll(EmptyNode<Entry<A>>(), []) == EmptyNode();
    }
    forall k, e | 0 <= k < |hosts|
      ensures EntryOf(syntax, hosts[k].values) == Some(e) <==> ReadsAs(syntax, hosts[k].values, e)
    {
      EntryIff(syntax, hosts[k].values, e);
    }
    assert Search(t, name).Some? <==> exists k :: 0 <= k < |hosts| && Speaks(hosts[k], name);
    if Search(t, name).Some? {
      var i :| 0 <= i < |all| && Matches(all[i], query) && all[i].value == Search(t, name).value;
      var k :| 0 <= k < |hosts| && Speaks(hosts[k], name) && EntryOf(syntax, hosts[k].values) == Some(all[i].value);
      assert ReadsAs(syntax, hosts[k].values, all[i].value);
    }
    forall k: nat | FirstExact(hosts, name, k)
      ensures Search(t, name).Some? && ReadsAs(syntax, hosts[k].values, Search(t, name).value)
    {
      assert Get(t.root, query, Exact).Some? && Search(t, name) == EntryOf(syntax, hosts[k].values);
    }
  }

  lemma ExactComesFirst<T>(root: Node<T>, query: Path)
    requires |query| > 0
    ensures Get(root, query, Exact).Some? ==> BestMatch(root, query) == Get(root, query, Exact)
  {
  }

  /** No line is written for the empty name. */
  lemma SpokenIsSomething(hosts: seq<HostLine>, name: string)
    ensures Query(name) == [] ==>
            forall k :: 0 <= k < |hosts| ==> !Speaks(hosts[k], name) && !NamesExactly(hosts[k].host, name)
  {
  }

  /** "A configured host is answered" is false of one written with a trailing dot:
      look-ups drop the dot, and the line keeps it. */
  lemma DottedHostIsMute(host: string, name: string)
    requires Trim(host) != [] && Trim(host)[|Trim(host)| - 1] == '.'
    ensures !WrittenFor(host, name)
  {
    hide Trim, Below, DotFree;
    var h, q := Trim(host), Query(name);
    TrimDotsEnds(Trim(name));
    if q != [] {
      assert q[|q| - 1] == LowerChar(TrimDots(Trim(name))[|q| - 1]) != '.';
    }
    if IsWildcard(h) {
      var x := h[2..];
      if x == [] {
        NothingToTrim();
      } else {
        KeepsLast(x);
        if Below(q, Lower(x)) { BelowEndsAlike(q, Lower(x)); }
        if Takes(Lower(Trim(x)), q) { TakenEndsAlike(Lower(Trim(x)), q); }
      }
    } else if Takes(Lower(h), q) {
      TakenEndsAlike(Lower(h), q);
    }
  }

  lemma NothingToTrim()
    ensures Trim([]) == []
  {}

  lemma BelowEndsAlike(q: string, x: string)
    requires x != [] && Below(q, x)
    ensures q != [] && q[|q| - 1] == x[|x| - 1]
  {}

  lemma TakenEndsAlike(d: string, q: string)
    requires d != [] && Takes(d, q)
    ensures q != [] && q[|q| - 1] == d[|d| - 1]
  {
    hide Below, DotFree;
    if IsWildcard(d) { BelowEndsAlike(q, d[2..]); } else if "." <= d { BelowEndsAlike(q, d[1..]); }
  }

  /** Blanks in front do not touch the end. */
  lemma KeepsLast(s: string)
    requires s != [] && s[|s| - 1] == '.'
    ensures Trim(s) != [] && Trim(s)[|Trim(s)| - 1] == '.'
  {
    LeftKeepsLast(s);
  }

  lemma {:induction false} LeftKeepsLast(s: string)
    requires s != [] && s[|s| - 1] == '.'
    ensures TrimLeft(s) != [] && TrimLeft(s)[|TrimLeft(s)| - 1] == '.'
    decreases |s|
  {
    if IsSpace(s[0]) { LeftKeepsLast(s[1..]); }
  }

  /** The whole of `build_hosts_trie`, over the entries in any order. */
  method BuildHosts<A>(syntax: Syntax<A>, hosts: seq<HostLine>)
    returns (r: Result<Trie<Entry<A>>, HostsError>, aliases: seq<(string, string)>)
    ensures r.Ok? ==> AllEnd(r.value, |Targets(aliases)| + 1)
    ensures r.Ok? ==> WellFormed(r.value) && AnswersWithin(r.value, Targets(aliases))
    ensures r.Ok? ==> Together(syntax, hosts) == Some((r.value, aliases))
    ensures r.Ok? ==> forall name :: Answers(syntax, hosts, r.value, name)
    // An error means an unreadable line, or a cycle in what the lines put together.
    ensures r.Err? && !r.error.AliasCycle? ==> Together(syntax, hosts).None?
    ensures r.Err? && r.error.AliasCycle? ==>
      && Together(syntax, hosts).Some? && Together(syntax, hosts).value.1 == aliases
      && (SourcesLead(Together(syntax, hosts).value.0, aliases) ==>
        exists d :: NeverEnds(Together(syntax, hosts).value.0, d))
  {
    hide InsertHost, EntryOf, Answers;
    var t: Trie<Entry<A>> := EmptyTrie();
    aliases := [];
    for i := 0 to |hosts|
      invariant WellFormed(t) && AnswersWithin(t, Targets(aliases))
      invariant Together(syntax, hosts[..i]) == Some((t, aliases))
      invariant forall n :: n in Targets(aliases) ==> IsLower(n)
    {
      var line := hosts[i];
      assert hosts[..i + 1][..i] == hosts[..i] && hosts[..i + 1][i] == line;
      if line.values == [] { continue; }
      var entry := ParseValues(syntax, line.values);
      if entry.Err? {
        UnreadableStays(syntax, hosts, i + 1);
        return Err(entry.error), aliases;
      }
      if entry.value.Alias? {
        TargetsAppend(aliases, (Normalize(Trim(line.host)), entry.value.name));
        aliases := aliases + [(Normalize(Trim(line.host)), entry.value.name)];
      }
      AnswersAfterInsert(t, line.host, entry.value, Targets(aliases));
      t := InsertHost(t, line.host, entry.value);
    }
    assert hosts[..|hosts|] == hosts;
    var check := RejectCycles(t, aliases);
    if check.Err? { return Err(check.error), aliases; }
    forall name ensures Answers(syntax, hosts, t, name) { LinesAreAnswered(syntax, hosts, name); }
    return Ok(t), aliases;
  }

  lemma TargetsAppend(aliases: seq<(string, string)>, e: (string, string))
    ensures Targets(aliases + [e]) == Targets(aliases) + {e.1}
  {
    assert (aliases + [e])[|aliases|] == e;
    forall i | 0 <= i < |aliases|
      ensures aliases[i].1 in Targets(aliases + [e]) && (aliases + [e])[i].1 in Targets(aliases)
    {
      assert (aliases + [e])[i] == aliases[i];
    }
  }

  // ---------------------------------------------------------------------
  // System hosts.
  // ---------------------------------------------------------------------

  lemma {:induction false} AddressesKeepEnds<A>(t: Trie<Entry<A>>, domain: string, ips: seq<A>, d: string, k: nat)
    requires WellFormed(t) && Ends(t, d, k)
    ensures Ends(Insert(t, domain, Addresses(ips)), d, k)
    decreases k
  {
    hide Search, Insert;
    SearchAfterInsert(t, domain, Addresses(ips), d);
    if Next(t, d).Some? { AddressesKeepEnds(t, domain, ips, Next(t, d).value, k - 1); }
  }

  /** Each system entry in turn, unless its name is answered already. */
  function Merged<A>(t: Trie<Entry<A>>, entries: seq<(string, seq<A>)>): Trie<Entry<A>>
    decreases |entries|
  {
    if entries == [] then t
    else
      MergeOne(Merged(t, entries[..|entries| - 1]), entries[|entries| - 1])
  }

  /** A system entry, unless its name is answered already. */
  function MergeOne<A>(t: Trie<Entry<A>>, entry: (string, seq<A>)): Trie<Entry<A>> {
    if Search(t, entry.0).None? then Insert(t, entry.0, Addresses(entry.1)) else t
  }

  /** A host name rather than a wildcard. */
  predicate PlainName(domain: string) {
    var d := Lower(Trim(domain));
    !("+." <= d) && !("*." <= d) && !("." <= d)
  }

  /** An exact entry changes the answer for one name only. */
  lemma {:induction false} ExactChangesOneName<T>(n: Node<T>, path: Path, v: T, query: Path, d: nat)
    requires d <= |query| && path != query
    ensures Deepest(InsertAt(n, path, Exact, v), query, d) == Deepest(n, query, d)
    decreases d
  {
    if d > 0 {
      ExactChangesOneName(n, path, v, query, d - 1);
      InsertThenGet(n, path, Exact, v, query[..d], Star);
      InsertThenGet(n, path, Exact, v, query[..d], Dot);
      InsertThenGet(n, path, Exact, v, query, Exact);
    }
  }

  lemma {:induction false} TrimDotsEnds(s: string)
    ensures TrimDots(s) != [] ==> TrimDots(s)[|TrimDots(s)| - 1] != '.'
    ensures s != [] && s[|s| - 1] != '.' ==> TrimDots(s) == s
    decreases |s|
  {
    if s != [] && s[|s| - 1] == '.' { TrimDotsEnds(s[..|s| - 1]); }
  }

  /** Adding a plain name that is not answered answers it, and changes nothing else. */
  lemma PlainNameIsAdded<A>(t: Trie<Entry<A>>, domain: string, e: Entry<A>, d: string)
    requires WellFormed(t) && PlainName(domain) && Search(t, domain).None?
    ensures Search(Insert(t, domain, e), d) ==
            if Query(d) != [] && Query(d) == Lower(Trim(domain)) then Some(e) else Search(t, d)
  {
    hide Labels, Deepest, InsertAt, Trim, Get;
    var name, query := Trim(domain), Query(d);
    TrimDotsEnds(Trim(d));
    TrimDotsEnds(name);
    if Lower(name) != [] && query != [] {
      var path := Labels(Lower(name));
      assert InsertAll(t.root, [Pattern(path, Exact, e)]) == InsertAt(t.root, path, Exact, e) by {
        assert [Pattern(path, Exact, e)][..0] == [] && InsertAll(t.root, []) == t.root;
      }
      ExtendsIffBelow(query, Lower(name));
      if query == Lower(name) {
        assert Lower(name)[|name| - 1] == LowerChar(name[|name| - 1]);
        assert Query(domain) == query;
        InsertThenGet(t.root, path, Exact, e, path, Exact);
        NothingInEmpty<Entry<A>>(path, Exact);
        ExactComesFirst(t.root, path);
        ExactComesFirst(InsertAt(t.root, path, Exact, e), path);
      } else {
        ExactChangesOneName(t.root, path, e, Labels(query), |Labels(query)|);
        NothingFound<Entry<A>>(Labels(query), |Labels(query)|);
      }
    }
  }

  /** A name answered before a plain name is added keeps its answer, if the plain
      name was not answered. */
  lemma UnansweredNameChangesNoAnswer<A>(t: Trie<Entry<A>>, domain: string, e: Entry<A>, d: string)
    requires WellFormed(t) && PlainName(domain) && Search(t, domain).None? && Search(t, d).Some?
    ensures Search(Insert(t, domain, e), d) == Search(t, d)
  {
    hide Search, Insert, PlainName, Trim;
    PlainNameIsAdded(t, domain, e, d);
    if Query(d) == Lower(Trim(domain)) { SameQuerySameAnswer(t, domain, d); }
  }

  lemma {:induction false} NothingFound<T>(query: Path, d: nat)
    requires d <= |query|
    ensures Deepest(EmptyNode<T>(), query, d).None?
    decreases d
  {
    if d > 0 {
      NothingFound<T>(query, d - 1);
      NothingInEmpty<T>(query, Exact);
      NothingInEmpty<T>(query[..d], Star);
      NothingInEmpty<T>(query[..d], Dot);
    }
  }

  /** Entry k is the first of the system entries with this name. */
  predicate FirstEntry<A>(entries: seq<(string, seq<A>)>, d: string, k: nat) {
    && k < |entries| && Query(d) != [] && Query(d) == Lower(Trim(entries[k].0))
    && forall j :: 0 <= j < k ==> Query(d) != Lower(Trim(entries[j].0))
  }

  /** After merging plain names a name is answered as the configuration answers it,
      else with the addresses of the first system entry for it, else not at all. */
  ghost predicate Supplemented<A>(t: Trie<Entry<A>>, entries: seq<(string, seq<A>)>, merged: Trie<Entry<A>>,
                                  d: string) {
    && (Search(t, d).Some? ==> Search(merged, d) == Search(t, d))
    && (Search(t, d).None? ==>
          && (forall k: nat :: FirstEntry(entries, d, k) ==> Search(merged, d) == Some(Addresses(entries[k].1)))
          && ((forall k: nat :: !FirstEntry(entries, d, k)) ==> Search(merged, d).None?))
  }

  lemma SupplementedByOneMore<A>(t: Trie<Entry<A>>, entries: seq<(string, seq<A>)>, before: Trie<Entry<A>>, d: string)
    requires entries != [] && WellFormed(before) && PlainName(entries[|entries| - 1].0)
    requires Supplemented(t, entries[..|entries| - 1], before, d)
    ensures Supplemented(t, entries, MergeOne(before, entries[|entries| - 1]), d)
  {
    hide Search, Insert, PlainName, Trim, TrimDots;
    var init, n := entries[..|entries| - 1], |entries| - 1;
    var (domain, ips) := entries[n];
    if Search(before, domain).None? { PlainNameIsAdded(before, domain, Addresses(ips), d); }
    forall k: nat | k < n ensures FirstEntry(init, d, k) <==> FirstEntry(entries, d, k) {
      assert forall j :: 0 <= j <= k ==> init[j] == entries[j];
    }
    if Query(d) != [] && Query(d) == Lower(Trim(domain)) {
      SameQuerySameAnswer(before, domain, d);
      if Search(before, d).None? {
        assert forall k: nat :: !FirstEntry(init, d, k);
        NoFirstEntry(init, d);
        assert forall j :: 0 <= j < n ==> init[j] == entries[j];
        assert FirstEntry(entries, d, n);
      } else if Search(t, d).None? {
        var k: nat :| FirstEntry(init, d, k);
        assert FirstEntry(entries, d, k);
      }
    } else {
      assert !FirstEntry(entries, d, n);
    }
  }

  /** A name whose look-up form is another's written form is answered like it. */
  lemma SameQuerySameAnswer<A>(t: Trie<Entry<A>>, domain: string, d: string)
    requires Query(d) == Lower(Trim(domain))
    ensures Search(t, d) == Search(t, domain)
  {
    TrimDotsEnds(Trim(d));
    TrimDotsEnds(Trim(domain));
    if Trim(domain) != [] {
      assert Lower(Trim(domain))[|Trim(domain)| - 1] == LowerChar(Trim(domain)[|Trim(domain)| - 1]);
    }
  }

  lemma {:induction false} NoFirstEntry<A>(entries: seq<(string, seq<A>)>, d: string)
    ensures Query(d) != [] && (forall k: nat :: !FirstEntry(entries, d, k)) ==>
            forall j :: 0 <= j < |entries| ==> Query(d) != Lower(Trim(entries[j].0))
    decreases |entries|
  {
    hide Trim, Query;
    if entries != [] {
      var init, n := entries[..|entries| - 1], |entries| - 1;
      NoFirstEntry(init, d);
      forall k: nat ensures FirstEntry(init, d, k) ==> FirstEntry(entries, d, k) {
        assert forall j :: 0 <= j <= k && j < n ==> init[j] == entries[j];
      }
      assert forall j :: 0 <= j < n ==> init[j] == entries[j];
      assert !FirstEntry(entries, d, n) || FirstEntry(entries, d, n);
    }
  }

  lemma NothingToMerge<A>(t: Trie<Entry<A>>, d: string)
    ensures Supplemented(t, [], t, d)
  {}

  /** Merging the system hosts file keeps every walk within its bound, and every
      answer the configuration gives. */
  method MergeSystemHosts<A>(t: Trie<Entry<A>>, entries: seq<(string, seq<A>)>, ghost bound: nat)
    returns (merged: Trie<Entry<A>>)
    requires WellFormed(t) && AllEnd(t, bound)
    ensures merged == Merged(t, entries)
    ensures WellFormed(merged) && AllEnd(merged, bound)
    ensures forall d :: Next(merged, d).Some? ==> Next(merged, d) == Next(t, d)
    ensures (forall i :: 0 <= i < |entries| ==> PlainName(entries[i].0)) ==>
              forall d :: Supplemented(t, entries, merged, d)
  {
    hide Search, Insert, PlainName, Supplemented;
    merged := t;
    forall d ensures Supplemented(t, [], t, d) { NothingToMerge(t, d); }
    assert entries[..0] == [];
    for i := 0 to |entries|
      invariant merged == Merged(t, entries[..i])
      invariant WellFormed(merged) && AllEnd(merged, bound)
      invariant forall d :: Next(merged, d).Some? ==> Next(merged, d) == Next(t, d)
      invariant (forall j :: 0 <= j < i ==> PlainName(entries[j].0)) ==>
                  forall d :: Supplemented(t, entries[..i], merged, d)
    {
      var (domain, ips) := entries[i];
      assert entries[..i + 1][..i] == entries[..i] && entries[..i + 1][i] == (domain, ips);
      ghost var before, longer, next := merged, entries[..i + 1], MergeOne(merged, (domain, ips));
      if forall j :: 0 <= j < i + 1 ==> PlainName(entries[j].0) {
        forall d ensures Supplemented(t, longer, next, d) {
          assert Supplemented(t, entries[..i], before, d);
          SupplementedByOneMore(t, longer, before, d);
        }
      }
      if Search(merged, domain).None? {
        merged := Insert(merged, domain, Addresses(ips));
        forall d
          ensures Ends(merged, d, bound)
          ensures Next(merged, d).Some? ==> Next(merged, d) == Next(before, d)
        {
          AddressesKeepEnds(before, domain, ips, d, bound);
          SearchAfterInsert(before, domain, Addresses(ips), d);
        }
        SearchAfterInsert(before, domain, Addresses(ips), "");
      }
    }
    assert entries[..|entries|] == entries;
  }
}
