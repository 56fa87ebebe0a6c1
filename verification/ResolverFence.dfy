/** Host resolution through an installable hook, with the re-entrancy fence
    that keeps a hook lookup from calling the hook again.

    A nameserver may have to dial a proxy to answer, which resolves that
    proxy's host, which would re-enter the hook. A run of one task is a tree:
    a call, and below it the calls its hook lookup makes while it answers.
 */
module ResolverFence {
  import opened Common

  type Ip = string

  datatype Addr = Addr(ip: Ip, port: nat)

  datatype ResolveError = LookupFailed | NoAddress | Refused(code: nat)

  const SYS_DNS_TTL: nat := 60

  /** What the world answers one resolution with: whether the host is an
      address literal, the hook installed at that moment (what its full lookup
      does and returns, and what it knows locally), the system resolver, and
      the clock. */
  datatype Call = Call(
    host: string,
    port: nat,
    literal: Option<Ip>,
    hook: Option<Hook>,
    system: Result<seq<Ip>, ResolveError>,
    now: nat)

  datatype Hook = Hook(nested: seq<Call>, answer: Result<seq<Ip>, ResolveError>, localAnswer: Option<seq<Ip>>)

  datatype Event = HookEntered | HookLeft

  /** Cached system answers and when they were stored; only mobile builds cache. */
  type Cache = map<string, (seq<Ip>, nat)>

  datatype World = World(mobile: bool, cache: Cache, trace: seq<Event>)

  function WithPort(ips: seq<Ip>, port: nat): (r: seq<Addr>)
    ensures |r| == |ips| && forall i :: 0 <= i < |ips| ==> r[i] == Addr(ips[i], port)
  {
    seq(|ips|, (i: nat) requires i < |ips| => Addr(ips[i], port))
  }

  function NonEmpty(ips: seq<Ip>, port: nat): Result<seq<Addr>, ResolveError> {
    if ips == [] then Err(NoAddress) else Ok(WithPort(ips, port))
  }

  /** The cache, then the system resolver. */
  function ViaSystem(c: Call, w: World): (Result<seq<Addr>, ResolveError>, World) {
    if w.mobile && c.host in w.cache && c.now - w.cache[c.host].1 <= SYS_DNS_TTL then
      (Ok(WithPort(w.cache[c.host].0, c.port)), w)
    else match c.system
      case Err(e) => (Err(e), w)
      case Ok(ips) =>
        if ips == [] then (Err(NoAddress), w)
        else (Ok(WithPort(ips, c.port)), if w.mobile then w.(cache := w.cache[c.host := (ips, c.now)]) else w)
  }

  /** One resolution, inside a hook lookup or not. */
  function Resolve(c: Call, fenced: bool, w: World): (Result<seq<Addr>, ResolveError>, World)
    decreases c, 1
  {
    if c.literal.Some? then (Ok([Addr(c.literal.value, c.port)]), w)
    else if c.hook.None? then ViaSystem(c, w)
    else if fenced then
      if c.hook.value.localAnswer.Some? && c.hook.value.localAnswer.value != []
      then (Ok(WithPort(c.hook.value.localAnswer.value, c.port)), w)
      else ViaSystem(c, w)
    else
      var entered := w.(trace := w.trace + [HookEntered]);
      var answered := ResolveNested(c.hook.value.nested, entered);
      var left := answered.(trace := answered.trace + [HookLeft]);
      (match c.hook.value.answer
       case Err(e) => Err(e)
       case Ok(ips) => NonEmpty(ips, c.port), left)
  }

  /** What happens while the hook answers: its own resolutions, fenced. */
  function ResolveNested(calls: seq<Call>, w: World): World
    decreases calls, 0
  {
    if calls == [] then w else Resolve(calls[|calls| - 1], true, ResolveNested(calls[..|calls| - 1], w)).1
  }

  // ---------------------------------------------------------------------
  // One asynchronous task, with its task-local fence and the process-wide cache.
  // ---------------------------------------------------------------------

  class Task {
    var fence: bool
    var world: World

    constructor (mobile: bool)
      ensures !fence && world == World(mobile, map[], [])
    {
      fence := false;
      world := World(mobile, map[], []);
    }

    method SystemAddrs(c: Call) returns (r: Result<seq<Addr>, ResolveError>)
      modifies this`world
      ensures (r, world) == ViaSystem(c, old(world))
    {
      if world.mobile && c.host in world.cache && c.now - world.cache[c.host].1 <= SYS_DNS_TTL {
        return Ok(WithPort(world.cache[c.host].0, c.port));
      }
      if c.system.Err? { return Err(c.system.error); }
      if c.system.value == [] { return Err(NoAddress); }
      if world.mobile {
        world := world.(cache := world.cache[c.host := (c.system.value, c.now)]);
      }
      return Ok(WithPort(c.system.value, c.port));
    }

    /** `resolve_addrs` with `resolve_via_hook` inlined. The fence is scoped:
        it is set while the hook answers and restored before the return. */
    method ResolveAddrs(c: Call) returns (r: Result<seq<Addr>, ResolveError>)
      modifies this
      ensures (r, world) == Resolve(c, old(fence), old(world))
      ensures fence == old(fence)
      decreases c
    {
      if c.literal.Some? { return Ok([Addr(c.literal.value, c.port)]); }
      if c.hook.Some? {
        var hook := c.hook.value;
        if fence {
          if hook.localAnswer.Some? && hook.localAnswer.value != [] {
            return Ok(WithPort(hook.localAnswer.value, c.port));
          }
        } else {
          fence := true;
          world := world.(trace := world.trace + [HookEntered]);
          ghost var entered := world;
          for i := 0 to |hook.nested|
            invariant fence && world == ResolveNested(hook.nested[..i], entered)
          {
            assert hook.nested[..i + 1][..i] == hook.nested[..i];
            var _ := ResolveAddrs(hook.nested[i]);
          }
          assert hook.nested[..|hook.nested|] == hook.nested;
          world := world.(trace := world.trace + [HookLeft]);
          fence := false;
          if hook.answer.Err? { return Err(hook.answer.error); }
          return NonEmpty(hook.answer.value, c.port);
        }
      }
      r := SystemAddrs(c);
    }

    /** `connect_tcp_host`: the first candidate that connects; when none does,
        the cached entry is dropped and the last failure returned. */
    method ConnectTcpHost(c: Call, connect: Addr -> Result<(), ResolveError>) returns (r: Result<Addr, ResolveError>)
      requires CacheIsUsable(world.cache)
      modifies this
      ensures CacheIsUsable(world.cache) && fence == old(fence)
      ensures var (addrs, w) := Resolve(c, old(fence), old(world));
              if addrs.Err? then r == Err(addrs.error) && world == w
              else if exists i :: 0 <= i < |addrs.value| && connect(addrs.value[i]).Ok?
              then
                && r.Ok? && world == w
                && exists i :: FirstToConnect(connect, addrs.value, i) && r.value == addrs.value[i]
              else
                && |addrs.value| > 0 && connect(addrs.value[|addrs.value| - 1]).Err?
                && r == Err(connect(addrs.value[|addrs.value| - 1]).error)
                && world == w.(cache := w.cache - {c.host})
    {
      ResolutionIsUsable(c, fence, world);
      var addrs := ResolveAddrs(c);
      if addrs.Err? { return Err(addrs.error); }
      var lastError: Option<ResolveError> := None;
      for i := 0 to |addrs.value|
        invariant forall j :: 0 <= j < i ==> connect(addrs.value[j]).Err?
        invariant i > 0 ==> lastError == Some(connect(addrs.value[i - 1]).error)
        invariant world == Resolve(c, old(fence), old(world)).1 && fence == old(fence)
      {
        match connect(addrs.value[i]) {
          case Ok(_) =>
            assert FirstToConnect(connect, addrs.value, i);
            return Ok(addrs.value[i]);
          case Err(e) => lastError := Some(e);
        }
      }
      world := world.(cache := world.cache - {c.host});
      // There was a candidate, so there is an error: no default is needed.
      return Err(lastError.value);
    }

    /** `resolve_host`: taking index 0 is safe. */
    method ResolveHost(c: Call) returns (r: Result<Addr, ResolveError>)
      requires CacheIsUsable(world.cache)
      modifies this
      ensures CacheIsUsable(world.cache) && fence == old(fence)
      ensures var (addrs, w) := Resolve(c, old(fence), old(world));
              if addrs.Err? then r == Err(addrs.error) else |addrs.value| > 0 && r == Ok(addrs.value[0])
    {
      ResolutionIsUsable(c, fence, world);
      var addrs := ResolveAddrs(c);
      if addrs.Err? { return Err(addrs.error); }
      return Ok(addrs.value[0]);
    }
  }

  ghost predicate FirstToConnect(connect: Addr -> Result<(), ResolveError>, addrs: seq<Addr>, i: int) {
    0 <= i < |addrs| && connect(addrs[i]).Ok? && forall j :: 0 <= j < i ==> connect(addrs[j]).Err?
  }

  // ---------------------------------------------------------------------
  // The fence.
  // ---------------------------------------------------------------------

  /** Inside a hook lookup no resolution, however deep, enters the hook. */
  lemma {:induction false} FencedNeverEnters(c: Call, w: World)
    ensures Resolve(c, true, w).1.trace == w.trace
  {
  }

  lemma {:induction false} NestedNeverEnters(calls: seq<Call>, w: World)
    ensures ResolveNested(calls, w).trace == w.trace
    decreases |calls|
  {
    if calls != [] {
      NestedNeverEnters(calls[..|calls| - 1], w);
      FencedNeverEnters(calls[|calls| - 1], ResolveNested(calls[..|calls| - 1], w));
    }
  }

  /** How many hook lookups are open after the first `k` events. */
  function Open(trace: seq<Event>, k: nat): int
    requires k <= |trace|
  {
    if k == 0 then 0 else Open(trace, k - 1) + if trace[k - 1] == HookEntered then 1 else -1
  }

  /** At most one lookup is open at any time, and none at the end. */
  ghost predicate NeverNested(trace: seq<Event>) {
    && (forall k :: 0 <= k <= |trace| ==> 0 <= Open(trace, k) <= 1)
    && Open(trace, |trace|) == 0
  }

  lemma {:induction false} OpenPrefix(trace: seq<Event>, more: seq<Event>, k: nat)
    requires k <= |trace|
    ensures Open(trace + more, k) == Open(trace, k)
    decreases k
  {
    if k > 0 { OpenPrefix(trace, more, k - 1); }
  }

  lemma OnePairKeeps(trace: seq<Event>)
    requires NeverNested(trace)
    ensures NeverNested(trace + [HookEntered, HookLeft])
  {
    var longer := trace + [HookEntered, HookLeft];
    forall k | 0 <= k <= |trace| ensures Open(longer, k) == Open(trace, k) {
      OpenPrefix(trace, [HookEntered, HookLeft], k);
    }
    assert Open(longer, |trace| + 1) == 1;
    assert Open(longer, |trace| + 2) == 0;
  }

  /** Whatever tree of nested resolutions a call unfolds into, one hook lookup
      at most is active along any path through it. */
  lemma OneLookupAtATime(c: Call, fenced: bool, w: World)
    requires NeverNested(w.trace)
    ensures NeverNested(Resolve(c, fenced, w).1.trace)
  {
    if c.literal.None? && c.hook.Some? && !fenced {
      var entered := w.(trace := w.trace + [HookEntered]);
      NestedNeverEnters(c.hook.value.nested, entered);
      OnePairKeeps(w.trace);
      assert w.trace + [HookEntered] + [HookLeft] == w.trace + [HookEntered, HookLeft];
    }
  }

  // ---------------------------------------------------------------------
  // Where an answer comes from.
  // ---------------------------------------------------------------------

  /** These addresses, in order, on this port. */
  ghost predicate AreOn(r: Result<seq<Addr>, ResolveError>, ips: seq<Ip>, port: nat) {
    r.Ok? && |r.value| == |ips| && forall i :: 0 <= i < |ips| ==> r.value[i].ip == ips[i] && r.value[i].port == port
  }

  /** The cache holds an answer for the host that is at most a minute old. */
  predicate Cached(c: Call, w: World) { w.mobile && c.host in w.cache && c.now <= w.cache[c.host].1 + 60 }

  /** A hook lookup is the call's own, so its answer is final: an error or an empty
      answer is not made good by the system. */
  predicate AsksHook(c: Call, fenced: bool) { c.literal.None? && c.hook.Some? && !fenced }

  /** Inside a hook lookup, what the hook knows without looking up. */
  predicate KnownLocally(c: Call, fenced: bool) {
    c.literal.None? && c.hook.Some? && fenced && c.hook.value.localAnswer.Some? && c.hook.value.localAnswer.value != []
  }

  /** Each answer comes from one place: the literal, the hook, what the hook knows
      locally, the cache, or the system; and a mobile build remembers what the
      system said. */
  lemma AnswersComeFrom(c: Call, fenced: bool, w: World)
    ensures var (r, after) := Resolve(c, fenced, w);
      && (c.literal.Some? ==> AreOn(r, [c.literal.value], c.port) && after == w)
      && (AsksHook(c, fenced) ==>
            match c.hook.value.answer
            case Err(e) => r == Err(e)
            case Ok(ips) => if ips == [] then r == Err(NoAddress) else AreOn(r, ips, c.port))
      && (KnownLocally(c, fenced) ==> AreOn(r, c.hook.value.localAnswer.value, c.port) && after == w)
      && (c.literal.None? && !AsksHook(c, fenced) && !KnownLocally(c, fenced) ==>
            if Cached(c, w) then AreOn(r, w.cache[c.host].0, c.port) && after == w
            else match c.system
              case Err(e) => r == Err(e) && after == w
              case Ok(ips) =>
                if ips == [] then r == Err(NoAddress) && after == w
                else
                  && AreOn(r, ips, c.port) && after.trace == w.trace
                  && after.cache == if w.mobile then w.cache[c.host := (ips, c.now)] else w.cache)
  {}

  // ---------------------------------------------------------------------
  // Results are never empty.
  // ---------------------------------------------------------------------

  ghost predicate CacheIsUsable(cache: Cache) {
    forall h :: h in cache ==> cache[h].0 != []
  }

  /** A successful resolution has an address, cached ones included, and leaves
      only usable entries in the cache. */
  lemma {:induction false} ResolutionIsUsable(c: Call, fenced: bool, w: World)
    requires CacheIsUsable(w.cache)
    ensures Resolve(c, fenced, w).0.Ok? ==> |Resolve(c, fenced, w).0.value| > 0
    ensures Resolve(c, fenced, w).0.Ok? ==> forall a :: a in Resolve(c, fenced, w).0.value ==> a.port == c.port
    ensures CacheIsUsable(Resolve(c, fenced, w).1.cache)
    decreases c, 1
  {
    if c.literal.None? && c.hook.Some? && !fenced {
      NestedIsUsable(c.hook.value.nested, w.(trace := w.trace + [HookEntered]));
    }
  }

  lemma {:induction false} NestedIsUsable(calls: seq<Call>, w: World)
    requires CacheIsUsable(w.cache)
    ensures CacheIsUsable(ResolveNested(calls, w).cache)
    decreases calls, 0
  {
    if calls != [] {
      NestedIsUsable(calls[..|calls| - 1], w);
      ResolutionIsUsable(calls[|calls| - 1], true, ResolveNested(calls[..|calls| - 1], w));
    }
  }
}
