/** The on-demand samplers behind the traffic and memory feeds.

    The first subscriber creates a broadcast channel and spawns its sampler;
    later subscribers join the channel found in a mutex-guarded slot; the
    sampler exits once nobody listens, after a second look under the lock. The
    protocol is a state machine whose steps are the atomic actions of clients
    and samplers, so that a run is any interleaving of them.
 */
module FeedSampler {
  import opened Common

  type Client = nat
  type Channel = nat

  /** The traffic feed releases the slot before it spawns the sampler, the
      memory feed after. */
  datatype Feed = Traffic | Memory

  datatype ClientPc =
    | Arrived
    | Locked                        // holds the slot's mutex
    | Subscribed(channel: Channel)  // joined, mutex still held
    | Created(channel: Channel)     // slot filled, mutex still held
    | Baseline(channel: Channel)    // mutex released, sampler not yet spawned
    | Spawned(channel: Channel)     // sampler spawned, mutex still held
    | Streaming(channel: Channel)
    | Gone

  datatype SamplerPc =
    | Unspawned
    | Waiting      // for the next tick
    | SawNobody    // first look found no receiver
    | Rechecking   // holds the mutex, second look to come
    | Clearing     // second look found no receiver
    | Cleared      // slot emptied, loop left, mutex still held
    | Exited
    | Sampling

  datatype Holder = Free | HeldByClient(client: Client) | HeldBySampler(channel: Channel)

  datatype State = State(
    holder: Holder,
    slot: Option<Channel>,
    clients: map<Client, ClientPc>,
    samplers: map<Channel, SamplerPc>)

  datatype Action =
    | Arrive(client: Client)
    | ClientLock(client: Client)
    | Join(client: Client)
    | Create(client: Client, channel: Channel)
    | ClientUnlock(client: Client)
    | Spawn(client: Client)
    | Disconnect(client: Client)
    | Tick(channel: Channel)
    | SamplerLock(channel: Channel)
    | Recheck(channel: Channel)
    | Clear(channel: Channel)
    | SamplerUnlock(channel: Channel)
    | Send(channel: Channel)

  /** A receiver lives from the moment its channel is joined or created until
      its client disconnects. */
  predicate Receives(pc: ClientPc, c: Channel) {
    !pc.Arrived? && !pc.Locked? && !pc.Gone? && pc.channel == c
  }

  /** `tx.receiver_count() == 0` */
  predicate NobodyListens(s: State, c: Channel) {
    forall i :: i in s.clients ==> !Receives(s.clients[i], c)
  }

  predicate ClientAt(s: State, i: Client, pc: ClientPc) { i in s.clients && s.clients[i] == pc }
  predicate SamplerAt(s: State, c: Channel, pc: SamplerPc) { c in s.samplers && s.samplers[c] == pc }

  predicate Enabled(feed: Feed, s: State, a: Action) {
    match a
    case Arrive(i) => i !in s.clients
    case ClientLock(i) => ClientAt(s, i, Arrived) && s.holder.Free?
    case Join(i) => ClientAt(s, i, Locked) && s.slot.Some?
    case Create(i, c) => ClientAt(s, i, Locked) && s.slot.None? && c !in s.samplers
    case ClientUnlock(i) =>
      i in s.clients && (s.clients[i].Subscribed? || s.clients[i].Spawned? || (feed.Traffic? && s.clients[i].Created?))
    case Spawn(i) => i in s.clients && (if feed.Traffic? then s.clients[i].Baseline? else s.clients[i].Created?)
    case Disconnect(i) => i in s.clients && s.clients[i].Streaming?
    case Tick(c) => SamplerAt(s, c, Waiting)
    case SamplerLock(c) => SamplerAt(s, c, SawNobody) && s.holder.Free?
    case Recheck(c) => SamplerAt(s, c, Rechecking)
    case Clear(c) => SamplerAt(s, c, Clearing)
    case SamplerUnlock(c) => SamplerAt(s, c, Cleared)
    case Send(c) => SamplerAt(s, c, Sampling)
  }

  function SetClient(s: State, i: Client, pc: ClientPc): State { s.(clients := s.clients[i := pc]) }
  function SetSampler(s: State, c: Channel, pc: SamplerPc): State { s.(samplers := s.samplers[c := pc]) }

  function Step(feed: Feed, s: State, a: Action): State
    requires Enabled(feed, s, a)
  {
    match a
    case Arrive(i) => SetClient(s, i, Arrived)
    case ClientLock(i) => SetClient(s, i, Locked).(holder := HeldByClient(i))
    case Join(i) => SetClient(s, i, Subscribed(s.slot.value))
    case Create(i, c) => SetSampler(SetClient(s, i, Created(c)), c, Unspawned).(slot := Some(c))
    case ClientUnlock(i) =>
      var c := s.clients[i].channel;
      SetClient(s, i, if s.clients[i].Created? then Baseline(c) else Streaming(c)).(holder := Free)
    case Spawn(i) =>
      var c := s.clients[i].channel;
      SetSampler(SetClient(s, i, if feed.Traffic? then Streaming(c) else Spawned(c)), c, Waiting)
    case Disconnect(i) => SetClient(s, i, Gone)
    case Tick(c) => SetSampler(s, c, if NobodyListens(s, c) then SawNobody else Sampling)
    case SamplerLock(c) => SetSampler(s, c, Rechecking).(holder := HeldBySampler(c))
    case Recheck(c) =>
      if NobodyListens(s, c) then SetSampler(s, c, Clearing)
      else SetSampler(s, c, Sampling).(holder := Free)
    case Clear(c) => SetSampler(s, c, Cleared).(slot := None)
    case SamplerUnlock(c) => SetSampler(s, c, Exited).(holder := Free)
    case Send(c) => SetSampler(s, c, Waiting)
  }

  const INITIAL: State := State(Free, None, map[], map[])

  // ---------------------------------------------------------------------
  // What holds in every reachable state.
  // ---------------------------------------------------------------------

  /** The sampler has not left its loop. */
  predicate Unexited(pc: SamplerPc) { !pc.Cleared? && !pc.Exited? }

  /** The promise of the protocol, in terms of what clients can see. */
  ghost predicate Safe(s: State) {
    // A feed never has two unexited samplers.
    && (forall c, d :: c in s.samplers && d in s.samplers && Unexited(s.samplers[c]) && Unexited(s.samplers[d]) ==>
      c == d)
    // The slot is filled exactly while that sampler has not exited.
    && (forall c :: s.slot == Some(c) <==> c in s.samplers && Unexited(s.samplers[c]))
    // A live receiver hangs on a channel whose sampler runs, or whose creator
    // is still about to spawn it.
    && (forall i, c :: i in s.clients && Receives(s.clients[i], c) ==>
          && c in s.samplers && Unexited(s.samplers[c])
          && (s.samplers[c].Unspawned? ==> HasSpawner(s, c)))
  }

  predicate AboutToSpawn(pc: ClientPc, c: Channel) { pc == Created(c) || pc == Baseline(c) }

  predicate ClientHoldsLock(pc: ClientPc) { pc.Locked? || pc.Subscribed? || pc.Created? || pc.Spawned? }
  predicate SamplerHoldsLock(pc: SamplerPc) { pc.Rechecking? || pc.Clearing? || pc.Cleared? }

  ghost predicate LockInv(s: State) {
    && (forall i :: s.holder == HeldByClient(i) <==> i in s.clients && ClientHoldsLock(s.clients[i]))
    && (forall c :: s.holder == HeldBySampler(c) <==> c in s.samplers && SamplerHoldsLock(s.samplers[c]))
  }

  ghost predicate SlotInv(s: State) {
    forall c :: s.slot == Some(c) <==> c in s.samplers && Unexited(s.samplers[c])
  }

  ghost predicate ReceiverInv(s: State) {
    forall i, c :: i in s.clients && Receives(s.clients[i], c) ==>
      c in s.samplers && Unexited(s.samplers[c]) && !s.samplers[c].Clearing?
  }

  ghost predicate HasSpawner(s: State, c: Channel) { exists j :: j in s.clients && AboutToSpawn(s.clients[j], c) }

  ghost predicate UnspawnedInv(s: State) {
    forall c :: c in s.samplers && s.samplers[c].Unspawned? ==> HasSpawner(s, c)
  }

  ghost predicate SpawnerInv(s: State) {
    forall i, c :: i in s.clients && AboutToSpawn(s.clients[i], c) ==> c in s.samplers && s.samplers[c].Unspawned?
  }

  /** The channel whose sampler a client is about to spawn. */
  function Pending(pc: ClientPc): Option<Channel> {
    if pc.Created? || pc.Baseline? then Some(pc.channel) else None
  }

  ghost predicate OneSpawnerInv(s: State) {
    forall i, j :: i in s.clients && j in s.clients && i != j && Pending(s.clients[i]).Some? ==>
      Pending(s.clients[i]) != Pending(s.clients[j])
  }

  ghost predicate Inv(s: State) {
    LockInv(s) && SlotInv(s) && ReceiverInv(s) && UnspawnedInv(s) && SpawnerInv(s) && OneSpawnerInv(s)
  }

  lemma LockInvKept(feed: Feed, s: State, a: Action)
    requires LockInv(s) && SpawnerInv(s) && Enabled(feed, s, a)
    ensures LockInv(Step(feed, s, a))
  {
  }

  /** The double check: under the mutex nobody can join, so a channel found
      deserted by the second look stays deserted until the slot is cleared. */
  lemma ReceiverInvKept(feed: Feed, s: State, a: Action)
    requires Inv(s) && Enabled(feed, s, a)
    ensures ReceiverInv(Step(feed, s, a))
  {
  }

  lemma SlotInvKept(feed: Feed, s: State, a: Action)
    requires Inv(s) && Enabled(feed, s, a)
    ensures SlotInv(Step(feed, s, a))
  {
  }

  lemma SpawnerInvKept(feed: Feed, s: State, a: Action)
    requires Inv(s) && Enabled(feed, s, a)
    ensures SpawnerInv(Step(feed, s, a))
  {
    hide LockInv, SlotInv, ReceiverInv, UnspawnedInv;
    if a.Spawn? {
      assert Pending(s.clients[a.client]).Some?;
    }
  }

  lemma OneSpawnerInvKept(feed: Feed, s: State, a: Action)
    requires Inv(s) && Enabled(feed, s, a)
    ensures OneSpawnerInv(Step(feed, s, a))
  {
    hide LockInv, SlotInv, ReceiverInv, UnspawnedInv;
    if a.Create? {
      forall j | j in s.clients ensures Pending(s.clients[j]) != Some(a.channel) {
        assert !AboutToSpawn(s.clients[j], a.channel);
      }
    }
  }

  lemma UnspawnedInvKept(feed: Feed, s: State, a: Action)
    requires Inv(s) && Enabled(feed, s, a)
    ensures UnspawnedInv(Step(feed, s, a))
  {
    hide LockInv, SlotInv, ReceiverInv;
    var t := Step(feed, s, a);
    forall c | c in t.samplers && t.samplers[c].Unspawned?
      ensures HasSpawner(t, c)
    {
      if a.Create? && a.channel == c {
        assert AboutToSpawn(t.clients[a.client], c);
      } else {
        assert HasSpawner(s, c);
        var j :| j in s.clients && AboutToSpawn(s.clients[j], c);
        assert AboutToSpawn(t.clients[j], c);
      }
    }
  }

  lemma InvKept(feed: Feed, s: State, a: Action)
    requires Inv(s) && Enabled(feed, s, a)
    ensures Inv(Step(feed, s, a))
  {
    hide Enabled, Step, LockInv, SlotInv, ReceiverInv, UnspawnedInv, SpawnerInv, OneSpawnerInv;
    LockInvKept(feed, s, a);
    SlotInvKept(feed, s, a);
    ReceiverInvKept(feed, s, a);
    UnspawnedInvKept(feed, s, a);
    SpawnerInvKept(feed, s, a);
    OneSpawnerInvKept(feed, s, a);
  }

  /** `states` is what a run passes through while `actions` happen. */
  ghost predicate IsRun(feed: Feed, states: seq<State>, actions: seq<Action>) {
    && |states| == |actions| + 1 && states[0] == INITIAL
    && forall k :: 0 <= k < |actions| ==>
      Enabled(feed, states[k], actions[k]) && states[k + 1] == Step(feed, states[k], actions[k])
  }

  lemma {:induction false} RunKeepsInv(feed: Feed, states: seq<State>, actions: seq<Action>, k: nat)
    requires IsRun(feed, states, actions) && k < |states|
    ensures Inv(states[k])
    decreases k
  {
    hide Step, Enabled;
    if k > 0 {
      RunKeepsInv(feed, states, actions, k - 1);
      InvKept(feed, states[k - 1], actions[k - 1]);
    }
  }

  /** Every state of every interleaving is safe. */
  lemma EveryRunIsSafe(feed: Feed, states: seq<State>, actions: seq<Action>, k: nat)
    requires IsRun(feed, states, actions) && k < |states|
    ensures Safe(states[k])
  {
    hide IsRun, Step, Enabled;
    RunKeepsInv(feed, states, actions, k);
  }

  lemma RunOn(feed: Feed, states: seq<State>, actions: seq<Action>, a: Action) returns (more: seq<State>)
    requires IsRun(feed, states, actions) && Enabled(feed, states[|actions|], a)
    ensures IsRun(feed, more, actions + [a]) && more[|actions| + 1] == Step(feed, states[|actions|], a)
    ensures |more| == |actions| + 2 && more[|actions|] == states[|actions|]
  {
    hide Step, Enabled;
    more := states + [Step(feed, states[|actions|], a)];
    forall k | 0 <= k < |actions| + 1
      ensures Enabled(feed, more[k], (actions + [a])[k]) && more[k + 1] == Step(feed, more[k], (actions + [a])[k])
    {
      if k < |actions| { assert more[k] == states[k] && more[k + 1] == states[k + 1]; }
    }
  }

  /** And the feed does run: a first client starts the sampler. */
  lemma FirstSubscriberStartsIt(feed: Feed) returns (states: seq<State>, actions: seq<Action>)
    ensures IsRun(feed, states, actions) && |states| == |actions| + 1
    ensures states[|actions|] == State(Free, Some(0), map[0 := Streaming(0)], map[0 := Waiting])
  {
    hide IsRun;
    assert IsRun(feed, [INITIAL], []) by { Unmoved(feed); }
    var arrived := RunOn(feed, [INITIAL], [], Arrive(0));
    var locked := RunOn(feed, arrived, [] + [Arrive(0)], ClientLock(0));
    var created := RunOn(feed, locked, [] + [Arrive(0)] + [ClientLock(0)], Create(0, 0));
    actions := [] + [Arrive(0)] + [ClientLock(0)] + [Create(0, 0)];
    if feed.Traffic? {
      states := RunOn(feed, created, actions, ClientUnlock(0));
      actions := actions + [ClientUnlock(0)];
      states := RunOn(feed, states, actions, Spawn(0));
      actions := actions + [Spawn(0)];
    } else {
      states := RunOn(feed, created, actions, Spawn(0));
      actions := actions + [Spawn(0)];
      states := RunOn(feed, states, actions, ClientUnlock(0));
      actions := actions + [ClientUnlock(0)];
    }
  }

  lemma Unmoved(feed: Feed)
    ensures IsRun(feed, [INITIAL], [])
  {}

  /** A second one joins its channel. */
  lemma SecondSubscriberJoins(feed: Feed) returns (states: seq<State>, actions: seq<Action>)
    ensures IsRun(feed, states, actions) && |states| == |actions| + 1
    ensures states[|actions|] == State(Free, Some(0), map[0 := Streaming(0), 1 := Streaming(0)], map[0 := Waiting])
  {
    hide IsRun;
    states, actions := FirstSubscriberStartsIt(feed);
    var clients := map[0 := Streaming(0)];
    states := RunOn(feed, states, actions, Arrive(1));
    actions := actions + [Arrive(1)];
    assert states[|actions|] == State(Free, Some(0), clients[1 := Arrived], map[0 := Waiting]);
    states := RunOn(feed, states, actions, ClientLock(1));
    actions := actions + [ClientLock(1)];
    assert states[|actions|] == State(HeldByClient(1), Some(0), clients[1 := Locked], map[0 := Waiting]);
    states := RunOn(feed, states, actions, Join(1));
    actions := actions + [Join(1)];
    assert states[|actions|] == State(HeldByClient(1), Some(0), clients[1 := Subscribed(0)], map[0 := Waiting]);
    states := RunOn(feed, states, actions, ClientUnlock(1));
    actions := actions + [ClientUnlock(1)];
  }

  /** The sampler ticks for both and sends. */
  lemma SamplerServesBoth(feed: Feed) returns (states: seq<State>, actions: seq<Action>)
    ensures IsRun(feed, states, actions) && |actions| > 0 && |states| == |actions| + 1
    ensures states[|actions|] == State(Free, Some(0), map[0 := Streaming(0), 1 := Streaming(0)], map[0 := Waiting])
    ensures SamplerAt(states[|actions| - 1], 0, Sampling)
  {
    hide IsRun;
    states, actions := SecondSubscriberJoins(feed);
    assert Receives(states[|actions|].clients[1], 0);
    states := RunOn(feed, states, actions, Tick(0));
    actions := actions + [Tick(0)];
    states := RunOn(feed, states, actions, Send(0));
    actions := actions + [Send(0)];
  }

  /** An idle feed costs nothing: once the last client is gone and the mutex is
      free, the sampler's own next steps empty the slot and end it. */
  lemma DesertedSamplerExits(feed: Feed, s: State, c: Channel)
    requires Inv(s) && SamplerAt(s, c, Waiting) && NobodyListens(s, c) && s.holder.Free?
    ensures Enabled(feed, s, Tick(c))
    ensures var s1 := Step(feed, s, Tick(c)); Enabled(feed, s1, SamplerLock(c))
    ensures var s1 := Step(feed, s, Tick(c)); var s2 := Step(feed, s1, SamplerLock(c)); Enabled(feed, s2, Recheck(c))
    ensures var s1 := Step(feed, s, Tick(c)); var s2 := Step(feed, s1, SamplerLock(c));
            var s3 := Step(feed, s2, Recheck(c));
            Enabled(feed, s3, Clear(c)) && var s4 := Step(feed, s3, Clear(c));
            Enabled(feed, s4, SamplerUnlock(c)) && var s5 := Step(feed, s4, SamplerUnlock(c));
            s5.slot.None? && s5.holder.Free? && SamplerAt(s5, c, Exited)
  {
    var s1 := Step(feed, s, Tick(c));
    var s2 := Step(feed, s1, SamplerLock(c));
    assert NobodyListens(s2, c);
  }
}
