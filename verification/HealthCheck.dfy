/** The health-check loop of an automatic proxy group: which ticks probe, which
    uses of the group they answer, and what replacing the group does to that. */
module HealthCheck {
  import opened Common

  /** What one tick finds in the routing snapshot. `instance` identifies the group
      instance, `members` the names it lists, `delays` the delay the probe of
      each known proxy reports (zero for a failed probe), and `usesDuring` the
      dials through the group while that round of probes runs. */
  datatype Tick =
    | Absent
    | Present(instance: nat, generation: nat, members: Option<seq<string>>, delays: map<string, nat>, usesDuring: nat)

  datatype Round = Skipped | Probed(alive: nat, total: nat)

  predicate ShouldProbe(isLazy: bool, generation: nat, lastProbed: nat) {
    !isLazy || (generation != 0 && generation != lastProbed)
  }

  /** The listed members the snapshot knows, with the delays their probes report. */
  function Resolved(members: seq<string>, delays: map<string, nat>): seq<nat> {
    if members == [] then []
    else
      (if members[0] in delays then [delays[members[0]]] else []) + Resolved(members[1..], delays)
  }

  function AliveAmong(results: seq<nat>): nat {
    if results == [] then 0
    else AliveAmong(results[..|results| - 1]) + if results[|results| - 1] > 0 then 1 else 0
  }

  /** A tick that could probe at least one member. */
  predicate Resolvable(t: Tick) {
    t.Present? && t.members.Some? && Resolved(t.members.value, t.delays) != []
  }

  predicate Effective(r: Round) {
    r.Probed? && r.total > 0
  }

  // ---- The history of a run ----

  /** The generation of the newest effective round before tick i; 0 if none. */
  function Last(ticks: seq<Tick>, rounds: seq<Round>, i: nat): nat
    requires i <= |ticks| == |rounds|
    decreases i
  {
    if i == 0 then 0
    else if Effective(rounds[i - 1]) && ticks[i - 1].Present? then ticks[i - 1].generation
    else Last(ticks, rounds, i - 1)
  }

  function RoundOf(isLazy: bool, t: Tick, last: nat): Round {
    if t.Present? && ShouldProbe(isLazy, t.generation, last) && t.members.Some? then
      var results := Resolved(t.members.value, t.delays);
      Probed(AliveAmong(results), |results|)
    else Skipped
  }

  /** The rounds are those the loop runs over the ticks. */
  ghost predicate Follows(isLazy: bool, ticks: seq<Tick>, rounds: seq<Round>) {
    |rounds| == |ticks| && EachFollows(isLazy, ticks, rounds)
  }

  ghost predicate EachFollows(isLazy: bool, ticks: seq<Tick>, rounds: seq<Round>)
    requires |rounds| == |ticks|
  {
    forall i :: 0 <= i < |ticks| ==> rounds[i] == RoundOf(isLazy, ticks[i], Last(ticks, rounds, i))
  }

  /** A lazy group lets the ticker's immediate first tick pass. */
  function Served(isLazy: bool, ticks: seq<Tick>): seq<Tick> {
    if isLazy && ticks != [] then ticks[1..] else ticks
  }

  // ---- The loop ----

  lemma {:induction false} ResolvedSnoc(members: seq<string>, name: string, delays: map<string, nat>)
    ensures Resolved(members + [name], delays)
         == Resolved(members, delays) + if name in delays then [delays[name]] else []
  {
    if members == [] {
      assert members + [name] == [name];
      assert Resolved([name][1..], delays) == [];
    } else {
      ResolvedSnoc(members[1..], name, delays);
      assert (members + [name])[1..] == members[1..] + [name];
    }
  }

  /** The positions of the members the snapshot knows. */
  function KnownAt(members: seq<string>, delays: map<string, nat>): set<nat> {
    set i: nat | i < |members| && members[i] in delays
  }

  lemma KnownAtSnoc(members: seq<string>, delays: map<string, nat>)
    requires members != []
    ensures var init, n := members[..|members| - 1], |members| - 1;
      |KnownAt(members, delays)| == |KnownAt(init, delays)| + if members[n] in delays then 1 else 0
  {
    var init, n := members[..|members| - 1], |members| - 1;
    assert KnownAt(members, delays) == KnownAt(init, delays) + (if members[n] in delays then {n} else {});
    assert n !in KnownAt(init, delays);
  }

  lemma NobodyKnown(delays: map<string, nat>)
    ensures Resolved([], delays) == [] && KnownAt([], delays) == {}
  {}

  /** One result per known member, each behind as many as are known before it. */
  lemma {:induction false} ResolvedInOrder(members: seq<string>, delays: map<string, nat>)
    ensures |Resolved(members, delays)| == |KnownAt(members, delays)|
    ensures forall i: nat :: i < |members| && members[i] in delays ==>
              var k := |KnownAt(members[..i], delays)|;
              k < |Resolved(members, delays)| && Resolved(members, delays)[k] == delays[members[i]]
    decreases |members|
  {
    hide KnownAt, Resolved;
    if members == [] {
      NobodyKnown(delays);
    } else {
      var init, n := members[..|members| - 1], |members| - 1;
      ResolvedInOrder(init, delays);
      ResolvedSnoc(init, members[n], delays);
      assert init + [members[n]] == members;
      KnownAtSnoc(members, delays);
      forall i: nat | i < |members| && members[i] in delays
        ensures var k := |KnownAt(members[..i], delays)|;
          k < |Resolved(members, delays)| && Resolved(members, delays)[k] == delays[members[i]]
      {
        if i < n { assert init[..i] == members[..i] && init[i] == members[i]; }
      }
    }
  }

  method ResolveMembers(members: seq<string>, delays: map<string, nat>) returns (results: seq<nat>)
    ensures results == Resolved(members, delays)
  {
    results := [];
    for i := 0 to |members|
      invariant results == Resolved(members[..i], delays)
    {
      if members[i] in delays {
        results := results + [delays[members[i]]];
      }
      ResolvedSnoc(members[..i], members[i], delays);
      assert members[..i + 1] == members[..i] + [members[i]];
    }
    assert members[..|members|] == members;
  }

  method CountRound(results: seq<nat>) returns (alive: nat, total: nat)
    ensures alive == AliveAmong(results) && total == |results|
    ensures alive <= total
    ensures alive == total <==> forall i :: 0 <= i < |results| ==> results[i] > 0
  {
    alive, total := 0, 0;
    while total < |results|
      invariant total <= |results|
      invariant alive == AliveAmong(results[..total]) && alive <= total
      invariant alive == total <==> forall i :: 0 <= i < total ==> results[i] > 0
    {
      assert results[..total + 1][..total] == results[..total];
      total := total + 1;
      if results[total - 1] > 0 {
        alive := alive + 1;
      }
    }
    assert results[..total] == results;
  }

  lemma {:induction false} LastOfTaken(ticks: seq<Tick>, rounds: seq<Round>, n: nat, i: nat)
    requires i <= n <= |ticks| == |rounds|
    ensures Last(ticks[..n], rounds[..n], i) == Last(ticks, rounds, i)
    decreases i
  {
    if i > 0 { LastOfTaken(ticks, rounds, n, i - 1); }
  }

  /** One tick: the round it runs and the generation remembered after it. */
  method RunTick(isLazy: bool, t: Tick, last: nat) returns (round: Round, lastProbed: nat)
    ensures round == RoundOf(isLazy, t, last)
    ensures lastProbed == if Effective(round) && t.Present? then t.generation else last
  {
    round, lastProbed := Skipped, last;
    match t {
      case Absent =>
      case Present(_, generation, members, delays, _) =>
        if !ShouldProbe(isLazy, generation, last) || members.None? {
          return;
        }
        var results := ResolveMembers(members.value, delays);
        var alive, total := CountRound(results);
        if total > 0 {
          lastProbed := generation;
        }
        round := Probed(alive, total);
    }
  }

  method RunHealthCheckLoop(isLazy: bool, ticker: seq<Tick>) returns (rounds: seq<Round>)
    ensures Follows(isLazy, Served(isLazy, ticker), rounds)
  {
    hide RoundOf, EachFollows, Effective;
    var ticks := ticker;
    if isLazy && ticker != [] {
      ticks := ticker[1..];
    }
    rounds := [];
    var lastProbed := 0;
    FollowsNothing(isLazy);
    for i := 0 to |ticks|
      invariant |rounds| == i
      invariant lastProbed == Last(ticks[..i], rounds, i)
      invariant Follows(isLazy, ticks[..i], rounds)
    {
      ghost var before := rounds;
      var round;
      round, lastProbed := RunTick(isLazy, ticks[i], lastProbed);
      rounds := rounds + [round];
      FollowsSnoc(isLazy, ticks[..i], before, ticks[i], round);
      assert ticks[..i + 1] == ticks[..i] + [ticks[i]];
    }
    assert ticks[..|ticks|] == ticks;
  }

  lemma FollowsNothing(isLazy: bool)
    ensures Follows(isLazy, [], [])
  {}

  lemma FollowsSnoc(isLazy: bool, ticks: seq<Tick>, rounds: seq<Round>, t: Tick, r: Round)
    requires Follows(isLazy, ticks, rounds)
    requires r == RoundOf(isLazy, t, Last(ticks, rounds, |ticks|))
    ensures Follows(isLazy, ticks + [t], rounds + [r])
    ensures Last(ticks + [t], rounds + [r], |ticks|) == Last(ticks, rounds, |ticks|)
  {
    hide RoundOf, Effective;
    var ts, rs := ticks + [t], rounds + [r];
    assert ts[..|ticks|] == ticks && rs[..|ticks|] == rounds;
    forall i | 0 <= i < |ts|
      ensures rs[i] == RoundOf(isLazy, ts[i], Last(ts, rs, i))
    {
      LastOfTaken(ts, rs, |ticks|, i);
    }
    LastOfTaken(ts, rs, |ticks|, |ticks|);
  }

  // ---- What the rounds mean ----

  /** One group instance throughout: its generation counts its uses, those
      during a round included, and never falls. */
  ghost predicate NeverReplaced(ticks: seq<Tick>) {
    forall i, j :: 0 <= i < j < |ticks| && ticks[i].Present? && ticks[j].Present? ==>
      ticks[i].instance == ticks[j].instance && ticks[i].generation + ticks[i].usesDuring <= ticks[j].generation
  }

  /** Instances may come and go, but each one's generation counts its uses. */
  ghost predicate CountsUses(ticks: seq<Tick>) {
    forall i, j ::
      0 <= i < j < |ticks| && ticks[i].Present? && ticks[j].Present? && ticks[i].instance == ticks[j].instance ==>
      ticks[i].generation + ticks[i].usesDuring <= ticks[j].generation
  }

  predicate EffectiveAt(rounds: seq<Round>, i: int) {
    0 <= i < |rounds| && Effective(rounds[i])
  }

  /** Round k is the newest effective one before tick i. */
  ghost predicate Newest(rounds: seq<Round>, k: int, i: int) {
    0 <= k < i && EffectiveAt(rounds, k) && forall j :: k < j < i ==> !EffectiveAt(rounds, j)
  }

  lemma EffectiveIsResolvable(isLazy: bool, ticks: seq<Tick>, rounds: seq<Round>, i: nat)
    requires Follows(isLazy, ticks, rounds) && EffectiveAt(rounds, i)
    ensures Resolvable(ticks[i])
    ensures isLazy ==> ticks[i].generation > 0
  {
    assert rounds[i] == RoundOf(isLazy, ticks[i], Last(ticks, rounds, i));
  }

  lemma {:induction false} NewestIsLast(isLazy: bool, ticks: seq<Tick>, rounds: seq<Round>, k: nat, i: nat)
    requires Follows(isLazy, ticks, rounds) && i <= |ticks|
    requires Newest(rounds, k, i)
    ensures Resolvable(ticks[k]) && Last(ticks, rounds, i) == ticks[k].generation
    decreases i
  {
    hide EachFollows, Resolved;
    EffectiveIsResolvable(isLazy, ticks, rounds, k);
    if k < i - 1 {
      assert !EffectiveAt(rounds, i - 1);
      NewestIsLast(isLazy, ticks, rounds, k, i - 1);
    }
  }

  lemma {:induction false} NoRoundsMeansZero(ticks: seq<Tick>, rounds: seq<Round>, i: nat)
    requires i <= |ticks| == |rounds|
    requires forall k :: 0 <= k < i ==> !EffectiveAt(rounds, k)
    ensures Last(ticks, rounds, i) == 0
    decreases i
  {
    if i > 0 {
      assert !EffectiveAt(rounds, i - 1);
      NoRoundsMeansZero(ticks, rounds, i - 1);
    }
  }

  /** What a lazy tick does depends only on its generation and the newest round. */
  lemma LazyTick(ticks: seq<Tick>, rounds: seq<Round>, j: nat)
    requires Follows(true, ticks, rounds) && j < |ticks|
    ensures EffectiveAt(rounds, j) <==>
            Resolvable(ticks[j]) && ticks[j].generation != 0 && ticks[j].generation != Last(ticks, rounds, j)
  {
    assert rounds[j] == RoundOf(true, ticks[j], Last(ticks, rounds, j));
  }

  lemma {:induction false} NewestExists(rounds: seq<Round>, from: nat, i: nat) returns (k: nat)
    requires from < i <= |rounds| && EffectiveAt(rounds, from)
    ensures Newest(rounds, k, i) && from <= k
    decreases i
  {
    if EffectiveAt(rounds, i - 1) {
      k := i - 1;
    } else {
      k := NewestExists(rounds, from, i - 1);
    }
  }

  /** Any two effective rounds of a lazy group that is not replaced have a new
      use between them. */
  lemma UseBetweenRounds(ticks: seq<Tick>, rounds: seq<Round>, i: nat, j: nat)
    requires Follows(true, ticks, rounds) && NeverReplaced(ticks)
    requires i < j && EffectiveAt(rounds, i) && EffectiveAt(rounds, j)
    ensures ticks[i].Present? && ticks[j].Present? && ticks[i].generation < ticks[j].generation
  {
    hide EachFollows, Resolved;
    EffectiveIsResolvable(true, ticks, rounds, i);
    EffectiveIsResolvable(true, ticks, rounds, j);
    var k := NewestExists(rounds, i, j);
    NewestIsLast(true, ticks, rounds, k, j);
    LazyTick(ticks, rounds, j);
  }

  /** Some use of the group has not been answered by an effective round. */
  ghost predicate HasUnprobedUse(ticks: seq<Tick>, rounds: seq<Round>, j: nat)
    requires j < |ticks| == |rounds| && ticks[j].Present?
  {
    && ticks[j].generation > 0
    && forall i ::
         0 <= i < j && EffectiveAt(rounds, i) && ticks[i].Present? && ticks[i].instance == ticks[j].instance ==>
         ticks[i].generation < ticks[j].generation
  }

  /** A lazy tick that can reach its members probes them exactly when a use is
      waiting, as long as the group is not replaced. */
  lemma ProbesIffUsed(ticks: seq<Tick>, rounds: seq<Round>, j: nat)
    requires Follows(true, ticks, rounds) && NeverReplaced(ticks)
    requires j < |ticks| && Resolvable(ticks[j])
    ensures EffectiveAt(rounds, j) <==> HasUnprobedUse(ticks, rounds, j)
  {
    hide EachFollows, Resolved;
    LazyTick(ticks, rounds, j);
    if EffectiveAt(rounds, j) {
      forall i | 0 <= i < j && EffectiveAt(rounds, i)
        ensures ticks[i].Present? && ticks[i].generation < ticks[j].generation
      {
        UseBetweenRounds(ticks, rounds, i, j);
      }
    } else if from :| 0 <= from < j && EffectiveAt(rounds, from) {
      var k := NewestExists(rounds, from, j);
      NewestIsLast(true, ticks, rounds, k, j);
    } else {
      NoRoundsMeansZero(ticks, rounds, j);
    }
  }

  /** A use during an effective round makes the next reachable tick probe. */
  lemma UseDuringRoundIsAnswered(ticks: seq<Tick>, rounds: seq<Round>, i: nat, j: nat)
    requires Follows(true, ticks, rounds) && NeverReplaced(ticks)
    requires i < j < |ticks| && EffectiveAt(rounds, i) && ticks[i].Present? && ticks[i].usesDuring > 0
    requires Resolvable(ticks[j]) && forall k :: i < k < j ==> !Resolvable(ticks[k])
    ensures EffectiveAt(rounds, j)
  {
    hide EachFollows, Resolved;
    forall k | 0 <= k < j && EffectiveAt(rounds, k)
      ensures ticks[k].Present? && ticks[k].generation < ticks[j].generation
    {
      EffectiveIsResolvable(true, ticks, rounds, k);
      if k < i { UseBetweenRounds(ticks, rounds, k, i); }
    }
    ProbesIffUsed(ticks, rounds, j);
  }

  /** Without the lazy flag every reachable tick probes, used or not. */
  lemma EagerProbesEveryTick(ticks: seq<Tick>, rounds: seq<Round>, j: nat)
    requires Follows(false, ticks, rounds) && j < |ticks|
    ensures EffectiveAt(rounds, j) <==> Resolvable(ticks[j])
  {
    assert rounds[j] == RoundOf(false, ticks[j], Last(ticks, rounds, j));
  }

  // ---- Ticks that reach nobody ----

  function Without<T>(s: seq<T>, i: nat): seq<T>
    requires i < |s|
  {
    s[..i] + s[i + 1..]
  }

  lemma {:induction false} LastWithout(isLazy: bool, ticks: seq<Tick>, rounds: seq<Round>, i: nat, k: nat)
    requires Follows(isLazy, ticks, rounds) && i < |ticks| && !Resolvable(ticks[i]) && k < |ticks|
    ensures Last(Without(ticks, i), Without(rounds, i), k) == Last(ticks, rounds, if k <= i then k else k + 1)
    decreases k
  {
    hide EachFollows, Resolved;
    LastSkips(isLazy, ticks, rounds, i);
    if k > 0 {
      LastWithout(isLazy, ticks, rounds, i, k - 1);
      var o := if k <= i then k - 1 else k;
      assert Without(rounds, i)[k - 1] == rounds[o] && Without(ticks, i)[k - 1] == ticks[o];
    }
  }

  /** A tick that reaches no member consumes nothing: take it out of the run and
      every other round stays what it was. */
  lemma BarrenTickConsumesNothing(isLazy: bool, ticks: seq<Tick>, rounds: seq<Round>, i: nat)
    requires Follows(isLazy, ticks, rounds) && i < |ticks| && !Resolvable(ticks[i])
    ensures Follows(isLazy, Without(ticks, i), Without(rounds, i))
  {
    var ts, rs := Without(ticks, i), Without(rounds, i);
    forall k | 0 <= k < |ts|
      ensures rs[k] == RoundOf(isLazy, ts[k], Last(ts, rs, k))
    {
      LastWithout(isLazy, ticks, rounds, i, k);
      var o := if k < i then k else k + 1;
      assert rs[k] == rounds[o] && ts[k] == ticks[o];
      if k == i { LastSkips(isLazy, ticks, rounds, i); }
    }
  }

  lemma LastSkips(isLazy: bool, ticks: seq<Tick>, rounds: seq<Round>, i: nat)
    requires Follows(isLazy, ticks, rounds) && i < |ticks| && !Resolvable(ticks[i])
    ensures Last(ticks, rounds, i + 1) == Last(ticks, rounds, i)
  {
    if EffectiveAt(rounds, i) { EffectiveIsResolvable(isLazy, ticks, rounds, i); }
  }

  // ---- Groups that are replaced ----

  /** The newest effective round probed another instance of the group, which
      had been used exactly as often. */
  ghost predicate ShadowedByPredecessor(ticks: seq<Tick>, rounds: seq<Round>, j: nat)
    requires j < |ticks| == |rounds| && ticks[j].Present?
  {
    exists k :: Newest(rounds, k, j) && ticks[k].Present?
                && ticks[k].instance != ticks[j].instance && ticks[k].generation == ticks[j].generation
  }

  /** The loop survives a reload that replaces the group, and so does the
      remembered generation. A waiting use of the new instance is overlooked
      exactly when its count coincides with the old instance's at the newest
      round. */
  lemma OverlookedIffShadowed(ticks: seq<Tick>, rounds: seq<Round>, j: nat)
    requires Follows(true, ticks, rounds) && CountsUses(ticks)
    requires j < |ticks| && Resolvable(ticks[j]) && HasUnprobedUse(ticks, rounds, j)
    ensures !EffectiveAt(rounds, j) <==> ShadowedByPredecessor(ticks, rounds, j)
  {
    hide EachFollows, Resolved;
    LazyTick(ticks, rounds, j);
    if from :| 0 <= from < j && EffectiveAt(rounds, from) {
      var k := NewestExists(rounds, from, j);
      NewestIsLast(true, ticks, rounds, k, j);
      NewestIsUnique(rounds, j);
    } else {
      NoRoundsMeansZero(ticks, rounds, j);
    }
  }

  lemma NewestIsUnique(rounds: seq<Round>, j: int)
    ensures forall k, l :: Newest(rounds, k, j) && Newest(rounds, l, j) ==> k == l
  {}

  /** One use, one round, a reload, one use of the new group: its tick is skipped. */
  lemma ReplacedGroupIsOverlooked(was: nat, reloaded: nat, name: string, delay: nat)
    requires was != reloaded
    ensures var ticks := [Present(was, 1, Some([name]), map[name := delay], 0),
                          Present(reloaded, 1, Some([name]), map[name := delay], 0)];
            var rounds := [Probed(if delay > 0 then 1 else 0, 1), Skipped];
            && Follows(true, ticks, rounds) && CountsUses(ticks)
            && Resolvable(ticks[1]) && HasUnprobedUse(ticks, rounds, 1)
  {
    var delays := map[name := delay];
    assert Resolved([name], delays) == [delay] by {
      assert Resolved([name][1..], delays) == [];
    }
    assert AliveAmong([delay]) == if delay > 0 then 1 else 0 by {
      assert [delay][..0] == [];
    }
  }
}
