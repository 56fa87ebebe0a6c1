/** The serialised config commit lane of the API, with TUN start, stop and
    rollback.

    Every mutating handler holds one lock while it clones the stored config,
    edits the clone, rebuilds routing from it, swaps it in and reconciles the
    TUN device. The lane is a state machine over the atomic steps of any number
    of handlers. Writers that bypass the lane (the mode patch, the background
    subscription loop) appear as two more kinds of step: a write to the stored
    config, which never touches the `tun` section, and a new routing table.
 */
module CommitLane {
  import opened Common

  type Handler = nat

  // ---------------------------------------------------------------------
  // The TUN section and what starting its device comes to.
  // ---------------------------------------------------------------------

  const TUN_MIN_MTU: nat := 1280

  /** Text, as the network parser reads it. */
  datatype Cidr = Cidr(text: string) | NotCidr(text: string)

  datatype AutoRoute = Switch(on: bool) | Mode(name: string)

  datatype Tun = Tun(enable: bool, mtu: Option<nat>, inet4: Option<Cidr>, udpTimeout: Option<nat>,
                     autoRoute: Option<AutoRoute>, rest: string)

  datatype TunConfig = TunConfig(enable: bool, mtu: nat, inet4: string, udpTimeout: nat, autoRoute: bool, global: bool)

  const DEFAULT_TUN: TunConfig := TunConfig(false, 1500, "172.19.0.1/30", 60, true, false)

  function OrElse<T>(o: Option<T>, default: T): T { if o.Some? then o.value else default }

  /** `auto-route`: whether to route, and whether globally; nothing for an unknown mode. */
  function ParseAutoRoute(r: Option<AutoRoute>): Option<(bool, bool)> {
    match r
    case None => Some((DEFAULT_TUN.autoRoute, DEFAULT_TUN.global))
    case Some(Switch(on)) => Some((on, false))
    case Some(Mode(name)) =>
      if name == "fake-ip" then Some((true, false)) else if name == "global" then Some((true, true)) else None
  }

  /** `parse_tun_config`: nothing when the section is in error. */
  function ParseTun(raw: Option<Tun>): Option<TunConfig> {
    match raw
    case None => Some(DEFAULT_TUN)
    case Some(r) =>
      var mtu := OrElse(r.mtu, DEFAULT_TUN.mtu);
      var route := ParseAutoRoute(r.autoRoute);
      if mtu < TUN_MIN_MTU then None
      else if r.inet4.Some? && r.inet4.value.NotCidr? then None
      else if r.udpTimeout == Some(0) then None
      else if route.None? then None
      else
        Some(TunConfig(r.enable, mtu, if r.inet4.Some? then r.inet4.value.text else DEFAULT_TUN.inet4,
                       OrElse(r.udpTimeout, DEFAULT_TUN.udpTimeout), route.value.0, route.value.1))
  }

  /** How the listener's readiness signal turns out. */
  datatype Device = Ready | Refused | SignalDropped | TimedOut

  datatype TunStart = Started | NothingToStart | FailedToStart

  /** `spawn_tun_from_raw`, in builds with and without the listener. */
  function SpawnTun(hasListener: bool, raw: Option<Tun>, device: Device): TunStart {
    if !hasListener then
      if raw.Some? && raw.value.enable then FailedToStart else NothingToStart
    else match ParseTun(raw)
      case None => FailedToStart
      case Some(config) =>
        if !config.enable then NothingToStart
        else if device.Ready? then Started
        else FailedToStart
  }

  // ---------------------------------------------------------------------
  // The lane.
  // ---------------------------------------------------------------------

  /** The raw config: its `tun` section and everything else. */
  datatype Raw<D> = Raw(tun: Option<Tun>, data: D)

  predicate TunEnabled<D>(raw: Raw<D>) { raw.tun.Some? && raw.tun.value.enable }

  /** The rollback: `tun.enable` set to false where there is a `tun` section. */
  function Disabled<D>(raw: Raw<D>): Raw<D> {
    if raw.tun.Some? then raw.(tun := Some(raw.tun.value.(enable := false))) else raw
  }

  /** A mutation edits a clone of the stored config, never its `tun` section,
      and may refuse (conflict, not found, out of range); some save the result.
      A reload brings a whole config of its own. */
  datatype Request<!D> =
    | Mutate(edit: D -> Option<D>, saves: bool)
    | Reload(config: Raw<D>, force: bool)

  function Candidate<D>(req: Request<D>, stored: Raw<D>): Option<Raw<D>> {
    match req
    case Reload(config, _) => Some(config)
    case Mutate(edit, _) =>
      match edit(stored.data)
      case None => None
      case Some(d) => Some(stored.(data := d))
  }

  /** The live routing table, known by the config it was built from. */
  datatype Routing<D> = BuiltFrom(config: Raw<D>) | Emptied

  datatype Pc<!D> =
    | Queued(req: Request<D>)
    | InLane(req: Request<D>)
    | Edited(req: Request<D>, candidate: Raw<D>)
    | Routed(req: Request<D>, candidate: Raw<D>, built: bool)
    | Swapped(req: Request<D>, candidate: Raw<D>, wasEnabled: bool)
    | Reconciled(req: Request<D>, candidate: Raw<D>)
    | Finished

  /** What became of requests and writes, in the order they took effect: a
      request when it swaps or is rejected, a rollback and a write at once. */
  datatype Entry<!D> =
    | Rejected(req: Request<D>)
    | Committed(req: Request<D>, built: bool)
    | RolledBack
    | Wrote(write: D -> D)

  datatype State<!D> = State(
    hasListener: bool,
    lane: Option<Handler>,
    handlers: map<Handler, Pc<D>>,
    stored: Raw<D>,
    routing: Routing<D>,
    tunHandle: bool,
    disk: Option<Raw<D>>,
    log: seq<Entry<D>>,
    rerouted: bool)

  datatype Action<!D> =
    | Arrive(handler: Handler, req: Request<D>)
    | Enter(handler: Handler)
    | Edit(handler: Handler)
    | Rebuild(handler: Handler, ok: bool)
    | Swap(handler: Handler)
    | Reconcile(handler: Handler, device: Device)
    | Save(handler: Handler)
    | Leave(handler: Handler)
    | Bypass(write: D -> D)
    | Reroute(config: Raw<D>)

  predicate At<D>(s: State<D>, h: Handler) { h in s.handlers }

  predicate Enabled<D>(s: State<D>, a: Action<D>) {
    match a
    case Arrive(h, _) => !At(s, h)
    case Enter(h) => At(s, h) && s.handlers[h].Queued? && s.lane.None?
    case Edit(h) => At(s, h) && s.handlers[h].InLane?
    case Rebuild(h, _) => At(s, h) && s.handlers[h].Edited?
    case Swap(h) => At(s, h) && s.handlers[h].Routed?
    case Reconcile(h, _) => At(s, h) && s.handlers[h].Swapped?
    case Save(h) => At(s, h) && s.handlers[h].Reconciled? && s.handlers[h].req.Mutate? && s.handlers[h].req.saves
    case Leave(h) => At(s, h) && s.handlers[h].Reconciled?
    case Bypass(_) => true
    case Reroute(_) => true
  }

  function Goto<D>(s: State<D>, h: Handler, pc: Pc<D>): State<D> { s.(handlers := s.handlers[h := pc]) }

  function Logged<D>(s: State<D>, e: Entry<D>): State<D> { s.(log := s.log + [e]) }

  function Reject<D>(s: State<D>, h: Handler, req: Request<D>): State<D> {
    Logged(Goto(s, h, Finished).(lane := None), Rejected(req))
  }

  /** Clone the stored config and edit the clone. */
  function DoEdit<D>(s: State<D>, h: Handler): (t: State<D>)
    requires Enabled(s, Edit(h))
    ensures OnlyMoves(s, h, t) && SameConfig(s, t)
    ensures Moves(PcOf(s, h), Edit(h), t.handlers[h])
    ensures t.lane == if t.handlers[h].Finished? then None else s.lane
  {
    var req := s.handlers[h].req;
    match Candidate(req, s.stored)
    case None => Reject(s, h, req)
    case Some(c) => Goto(s, h, Edited(req, c))
  }

  /** Rebuild routing from the candidate; a forced reload empties it on failure. */
  function DoRebuild<D>(s: State<D>, h: Handler, ok: bool): (t: State<D>)
    requires Enabled(s, Rebuild(h, ok))
    ensures OnlyMoves(s, h, t) && t.stored == s.stored && t.tunHandle == s.tunHandle
    ensures Moves(PcOf(s, h), Rebuild(h, ok), t.handlers[h])
    ensures t.lane == if t.handlers[h].Finished? then None else s.lane
  {
    var pc := s.handlers[h];
    if ok then Goto(s, h, Routed(pc.req, pc.candidate, true)).(routing := BuiltFrom(pc.candidate))
    else if pc.req.Reload? && pc.req.force then Goto(s, h, Routed(pc.req, pc.candidate, false)).(routing := Emptied)
    else Reject(s, h, pc.req)
  }

  /** Put the candidate in the place of the stored config. */
  function DoSwap<D>(s: State<D>, h: Handler): (t: State<D>)
    requires Enabled(s, Swap(h))
    ensures OnlyMoves(s, h, t) && t.tunHandle == s.tunHandle && t.routing == s.routing && t.lane == s.lane
    ensures Moves(PcOf(s, h), Swap(h), t.handlers[h])
  {
    var pc := s.handlers[h];
    Logged(Goto(s, h, Swapped(pc.req, pc.candidate, TunEnabled(s.stored))).(stored := pc.candidate),
           Committed(pc.req, pc.built))
  }

  /** Start or stop the device where the flag has changed; roll back a failed start. */
  function DoReconcile<D>(s: State<D>, h: Handler, device: Device): (t: State<D>)
    requires Enabled(s, Reconcile(h, device))
    ensures OnlyMoves(s, h, t) && t.routing == s.routing && t.lane == s.lane
    ensures Moves(PcOf(s, h), Reconcile(h, device), t.handlers[h])
  {
    var pc := s.handlers[h];
    var done := Goto(s, h, Reconciled(pc.req, pc.candidate));
    if pc.wasEnabled == TunEnabled(pc.candidate) then done
    else if TunEnabled(pc.candidate) then
      match SpawnTun(s.hasListener, pc.candidate.tun, device)
      case Started => done.(tunHandle := true)
      case NothingToStart => done
      case FailedToStart => Logged(done.(stored := Disabled(s.stored)), RolledBack)
    else done.(tunHandle := false)
  }

  function Step<D>(s: State<D>, a: Action<D>): State<D>
    requires Enabled(s, a)
  {
    match a
    case Arrive(h, req) => Goto(s, h, Queued(req))
    case Enter(h) => Goto(s, h, InLane(s.handlers[h].req)).(lane := Some(h))
    case Edit(h) => DoEdit(s, h)
    case Rebuild(h, ok) => DoRebuild(s, h, ok)
    case Swap(h) => DoSwap(s, h)
    case Reconcile(h, device) => DoReconcile(s, h, device)
    case Save(h) => s.(disk := Some(s.handlers[h].candidate))
    case Leave(h) => Goto(s, h, Finished).(lane := None)
    case Bypass(write) => Logged(s.(stored := s.stored.(data := write(s.stored.data))), Wrote(write))
    case Reroute(config) => s.(routing := BuiltFrom(config), rerouted := true)
  }

  // ---- What a step leaves alone ----

  ghost predicate OnlyMoves<D>(s: State<D>, h: Handler, t: State<D>) {
    && h in t.handlers && t.handlers == s.handlers[h := t.handlers[h]]
    && t.rerouted == s.rerouted && t.disk == s.disk && t.hasListener == s.hasListener
  }

  ghost predicate SameConfig<D>(s: State<D>, t: State<D>) {
    t.stored == s.stored && t.routing == s.routing && t.tunHandle == s.tunHandle
  }

  function PcOf<D>(s: State<D>, h: Handler): Option<Pc<D>> { if h in s.handlers then Some(s.handlers[h]) else None }

  /** Where a handler may come from and what it takes along. */
  ghost predicate Moves<D>(before: Option<Pc<D>>, a: Action<D>, after: Pc<D>) {
    match a
    case Arrive(_, req) => before.None? && after == Queued(req)
    case Enter(_) => before.Some? && before.value.Queued? && after == InLane(before.value.req)
    case Edit(_) => before.Some? && before.value.InLane? &&
      (after.Finished? || (after.Edited? && after.req == before.value.req))
    case Rebuild(_, _) =>
      && before.Some? && before.value.Edited?
      && (after.Finished? ||
        (after.Routed? && after.req == before.value.req && after.candidate == before.value.candidate))
    case Swap(_) =>
      before.Some? && before.value.Routed? && after.Swapped? && after.req == before.value.req &&
        after.candidate == before.value.candidate
    case Reconcile(_, _) =>
      before.Some? && before.value.Swapped? && after == Reconciled(before.value.req, before.value.candidate)
    case Save(_) => before.Some? && before.value.Reconciled? && after == before.value
    case Leave(_) => before.Some? && before.value.Reconciled? && after.Finished?
    case _ => false
  }

  ghost predicate Initial<D>(s: State<D>) {
    && s.lane.None? && s.handlers == map[] && s.log == [] && !s.rerouted
    && s.tunHandle == TunEnabled(s.stored)
    && s.routing == BuiltFrom(s.stored) && s.disk.None?
  }

  ghost predicate IsRun<D>(states: seq<State<D>>, actions: seq<Action<D>>) {
    && |states| == |actions| + 1 && Initial(states[0])
    && forall k :: 0 <= k < |actions| ==> Enabled(states[k], actions[k]) && states[k + 1] == Step(states[k], actions[k])
  }

  lemma RunStep<D>(states: seq<State<D>>, actions: seq<Action<D>>, k: nat)
    requires IsRun(states, actions) && k < |actions|
    ensures Enabled(states[k], actions[k]) && states[k + 1] == Step(states[k], actions[k])
  {}

  // ---------------------------------------------------------------------
  // The serial reference: one request or write after another.
  // ---------------------------------------------------------------------

  /** The config after one request or write alone on `stored`. */
  function After<D>(stored: Raw<D>, e: Entry<D>): Raw<D> {
    match e
    case Rejected(_) => stored
    case Committed(req, _) => if Candidate(req, stored).Some? then Candidate(req, stored).value else stored
    case RolledBack => Disabled(stored)
    case Wrote(write) => stored.(data := write(stored.data))
  }

  function Serial<D>(initial: Raw<D>, log: seq<Entry<D>>): Raw<D> {
    if log == [] then initial else After(Serial(initial, log[..|log| - 1]), log[|log| - 1])
  }

  /** The routing after one request run alone: rebuilt from its candidate,
      emptied by a forced reload, or left as it was. */
  function RoutingAfter<D>(stored: Raw<D>, routing: Routing<D>, e: Entry<D>): Routing<D> {
    match e
    case Committed(req, built) =>
      var c := Candidate(req, stored);
      if c.None? then routing else if built then BuiltFrom(c.value) else Emptied
    case _ => routing
  }

  function SerialRouting<D>(initial: State<D>, log: seq<Entry<D>>): Routing<D> {
    if log == [] then initial.routing
    else RoutingAfter(Serial(initial.stored, log[..|log| - 1]), SerialRouting(initial, log[..|log| - 1]),
      log[|log| - 1])
  }

  lemma SerialStep<D>(initial: State<D>, log: seq<Entry<D>>, e: Entry<D>)
    ensures Serial(initial.stored, log + [e]) == After(Serial(initial.stored, log), e)
    ensures SerialRouting(initial, log + [e]) ==
            RoutingAfter(Serial(initial.stored, log), SerialRouting(initial, log), e)
  {
    assert (log + [e])[..|log|] == log;
  }

  // ---------------------------------------------------------------------
  // Mutual exclusion and the device.
  // ---------------------------------------------------------------------

  predicate HoldsLane<D>(pc: Pc<D>) { !pc.Queued? && !pc.Finished? }

  ghost predicate LaneInv<D>(s: State<D>) {
    forall h :: s.lane == Some(h) <==> h in s.handlers && HoldsLane(s.handlers[h])
  }

  /** The device follows the stored flag, except between swap and reconcile. */
  ghost predicate TunInv<D>(s: State<D>) {
    match s.lane
    case None => s.tunHandle == TunEnabled(s.stored)
    case Some(h) =>
      h in s.handlers &&
      match s.handlers[h]
      case Swapped(_, c, was) => s.tunHandle == was && s.stored.tun == c.tun
      case _ => s.tunHandle == TunEnabled(s.stored)
  }

  predicate Acts<D>(a: Action<D>, h: Handler) { !a.Bypass? && !a.Reroute? && a.handler == h }

  /** A step moves only the handler that takes it. */
  lemma OthersStay<D>(s: State<D>, a: Action<D>, h: Handler)
    requires Enabled(s, a) && !Acts(a, h)
    ensures h in Step(s, a).handlers <==> h in s.handlers
    ensures h in s.handlers ==> Step(s, a).handlers[h] == s.handlers[h]
  {
    hide DoEdit, DoRebuild, DoSwap, DoReconcile, Moves;
  }

  lemma OwnMove<D>(s: State<D>, a: Action<D>, h: Handler)
    requires Enabled(s, a) && Acts(a, h)
    ensures h in Step(s, a).handlers && Moves(PcOf(s, h), a, Step(s, a).handlers[h])
  {
    hide DoEdit, DoRebuild, DoSwap, DoReconcile;
  }

  lemma LaneAfter<D>(s: State<D>, a: Action<D>)
    requires Enabled(s, a)
    ensures a.Enter? ==> Step(s, a).lane == Some(a.handler)
    ensures a.Leave? ==> Step(s, a).lane.None?
    ensures a.Edit? || a.Rebuild? ==>
              a.handler in Step(s, a).handlers
              && Step(s, a).lane == if Step(s, a).handlers[a.handler].Finished? then None else s.lane
    ensures !a.Enter? && !a.Leave? && !a.Edit? && !a.Rebuild? ==> Step(s, a).lane == s.lane
  {
    hide DoEdit, DoRebuild, DoSwap, DoReconcile, Moves;
  }

  lemma LaneInvKept<D>(s: State<D>, a: Action<D>)
    requires LaneInv(s) && Enabled(s, a)
    ensures LaneInv(Step(s, a))
  {
    hide Step;
    LaneAfter(s, a);
    forall h ensures Step(s, a).lane == Some(h) <==> h in Step(s, a).handlers && HoldsLane(Step(s, a).handlers[h]) {
      if Acts(a, h) {
        OwnMove(s, a, h);
      } else {
        OthersStay(s, a, h);
        if !a.Bypass? && !a.Reroute? { OwnMove(s, a, a.handler); }
      }
    }
  }

  /** Parsing copies the switch: whatever else is in error, a section that parses
      is enabled exactly when it says so, and a missing one is not. */
  lemma ParsingCopiesEnable(raw: Option<Tun>)
    ensures ParseTun(raw).Some? ==> (ParseTun(raw).value.enable <==> raw.Some? && raw.value.enable)
  {}

  /** An enabled section starts the device or fails to. */
  lemma EnabledNeverIdles(hasListener: bool, raw: Option<Tun>, device: Device)
    ensures SpawnTun(hasListener, raw, device).NothingToStart? ==> !(raw.Some? && raw.value.enable)
  {
    hide ParseTun;
    ParsingCopiesEnable(raw);
  }

  /** A `tun` section without errors: no mtu below 1280, no address that is not a
      network, no timeout of zero, no unknown route mode. */
  predicate Sound(tun: Tun) {
    && (tun.mtu.None? || tun.mtu.value >= 1280)
    && (tun.inet4.None? || tun.inet4.value.Cidr?)
    && tun.udpTimeout != Some(0)
    && (tun.autoRoute.None? || tun.autoRoute.value.Switch? || tun.autoRoute.value.name in {"fake-ip", "global"})
  }

  /** Exactly the sound sections parse, each field as written or by default. */
  lemma ParsesIffSound(tun: Tun)
    ensures ParseTun(Some(tun)).Some? <==> Sound(tun)
    ensures Sound(tun) ==>
      var config := ParseTun(Some(tun)).value;
      && config.enable == tun.enable
      && (if tun.mtu.Some? then config.mtu == tun.mtu.value else config.mtu == 1500)
      && (if tun.inet4.Some? then config.inet4 == tun.inet4.value.text else config.inet4 == "172.19.0.1/30")
      && (if tun.udpTimeout.Some? then config.udpTimeout == tun.udpTimeout.value else config.udpTimeout == 60)
      && (config.autoRoute <==> tun.autoRoute != Some(Switch(false)))
      && (config.global <==> tun.autoRoute == Some(Mode("global")))
  {}

  /** An enabled section starts exactly in a build with the listener, on a sound
      section and a device that reports ready; otherwise the start fails. */
  lemma StartsIff(hasListener: bool, tun: Tun, device: Device)
    requires tun.enable
    ensures SpawnTun(hasListener, Some(tun), device) ==
            if hasListener && device.Ready? && Sound(tun) then Started else FailedToStart
  {
    hide ParseTun, Sound;
    ParsesIffSound(tun);
  }

  lemma TunInvKept<D>(s: State<D>, a: Action<D>)
    requires LaneInv(s) && TunInv(s) && Enabled(s, a)
    ensures TunInv(Step(s, a))
  {
    hide SpawnTun;
    if a.Reconcile? { EnabledNeverIdles(s.hasListener, s.handlers[a.handler].candidate.tun, a.device); }
  }

  lemma {:induction false} RunKeepsInv<D>(states: seq<State<D>>, actions: seq<Action<D>>, k: nat)
    requires IsRun(states, actions) && k < |states|
    ensures LaneInv(states[k]) && TunInv(states[k])
    decreases k
  {
    hide Step, Enabled, LaneInv, TunInv;
    if k == 0 {
      InitialInv(states[0]);
    } else {
      RunKeepsInv(states, actions, k - 1);
      LaneInvKept(states[k - 1], actions[k - 1]);
      TunInvKept(states[k - 1], actions[k - 1]);
    }
  }

  lemma InitialInv<D>(s: State<D>)
    requires Initial(s)
    ensures LaneInv(s) && TunInv(s)
  {}

  /** Whenever the lane is free, `tun.enable` says whether a handle is
      installed: over every run, bypassing writers included. */
  lemma TunFlagTellsTheTruth<D>(states: seq<State<D>>, actions: seq<Action<D>>, k: nat)
    requires IsRun(states, actions) && k < |states| && states[k].lane.None?
    ensures TunEnabled(states[k].stored) <==> states[k].tunHandle
  {
    RunKeepsInv(states, actions, k);
  }

  /** In every run an off-to-on change starts the device or fails and is rolled
      back: the branch that finds nothing to start is never taken, and after the
      reconciliation flag and device agree. */
  lemma NothingToStartIsUnreachable<D>(states: seq<State<D>>, actions: seq<Action<D>>, k: nat, h: Handler,
                                       device: Device)
    requires IsRun(states, actions) && k < |actions| && actions[k] == Reconcile(h, device)
    ensures h in states[k].handlers && states[k].handlers[h].Swapped?
    ensures var pc := states[k].handlers[h];
            !pc.wasEnabled && TunEnabled(pc.candidate) ==>
              && !SpawnTun(states[k].hasListener, pc.candidate.tun, device).NothingToStart?
              && (states[k + 1].tunHandle <==> SpawnTun(states[k].hasListener, pc.candidate.tun, device).Started?)
              && (states[k + 1].tunHandle <==> TunEnabled(states[k + 1].stored))
  {
    hide SpawnTun;
    RunStep(states, actions, k);
    RunKeepsInv(states, actions, k);
    RunKeepsInv(states, actions, k + 1);
    EnabledNeverIdles(states[k].hasListener, states[k].handlers[h].candidate.tun, device);
  }

  /** In every run, what a reconciliation leaves behind, without the parser or the
      start: switched on, the device runs exactly if this build has the listener,
      the device is ready and the section sound, and otherwise only the switch is
      taken back; switched off, it does not run; unswitched, nothing changes. */
  lemma ReconciledDevice<D>(states: seq<State<D>>, actions: seq<Action<D>>, k: nat, h: Handler, device: Device)
    requires IsRun(states, actions) && k < |actions| && actions[k] == Reconcile(h, device)
    ensures h in states[k].handlers && states[k].handlers[h].Swapped?
    ensures var s, t, pc := states[k], states[k + 1], states[k].handlers[h];
            if !pc.wasEnabled && TunEnabled(pc.candidate) then
              && (t.tunHandle <==> s.hasListener && device.Ready? && Sound(pc.candidate.tun.value))
              && (t.tunHandle ==> t.stored == s.stored)
              && (!t.tunHandle ==>
                    && t.stored.data == s.stored.data && s.stored.tun.Some?
                    && t.stored.tun == Some(s.stored.tun.value.(enable := false)))
            else
              && (t.tunHandle <==> s.tunHandle && !(pc.wasEnabled && !TunEnabled(pc.candidate)))
              && t.stored == s.stored
  {
    hide SpawnTun, Sound, ParseTun;
    RunStep(states, actions, k);
    RunKeepsInv(states, actions, k);
    var pc := states[k].handlers[h];
    if TunEnabled(pc.candidate) { StartsIff(states[k].hasListener, pc.candidate.tun.value, device); }
  }

  // ---------------------------------------------------------------------
  // No lost update.
  // ---------------------------------------------------------------------

  /** The handler has a candidate and has not swapped it in. */
  predicate Pending<D>(s: State<D>, h: Handler) {
    h in s.handlers && (s.handlers[h].Edited? || s.handlers[h].Routed?)
  }

  /** A write fell while the handler was pending, before step k. */
  ghost predicate Disturbed<D>(states: seq<State<D>>, actions: seq<Action<D>>, h: Handler, k: nat)
    requires k <= |actions| < |states|
  {
    exists w :: 0 <= w < k && actions[w].Bypass? && Pending(states[w], h)
  }

  /** Step k swaps in a mutation that a write has overtaken. A reload brings its
      own config, so nothing can overtake it. */
  ghost predicate Overtaken<D>(states: seq<State<D>>, actions: seq<Action<D>>, k: nat)
    requires k < |actions| < |states|
  {
    && actions[k].Swap? && Pending(states[k], actions[k].handler)
    && states[k].handlers[actions[k].handler].req.Mutate? && Disturbed(states, actions, actions[k].handler, k)
  }

  ghost predicate NoneOvertaken<D>(states: seq<State<D>>, actions: seq<Action<D>>, n: nat)
    requires n <= |actions| < |states|
  {
    forall k :: 0 <= k < n ==> !Overtaken(states, actions, k)
  }

  ghost predicate IsSerial<D>(initial: State<D>, s: State<D>) { s.stored == Serial(initial.stored, s.log) }

  /** Every state so far stores what its log gives, run one entry after another. */
  ghost predicate SerialSoFar<D>(states: seq<State<D>>, n: nat)
    requires n < |states|
  {
    forall k :: 0 <= k <= n ==> IsSerial(states[0], states[k])
  }

  /** The candidate is what the request gives on the config now stored. */
  ghost predicate UpToDate<D>(s: State<D>, h: Handler) {
    Pending(s, h) ==> Candidate(s.handlers[h].req, s.stored) == Some(s.handlers[h].candidate)
  }

  /** A pending candidate is up to date until a write disturbs it. */
  lemma UpToDateKept<D>(s: State<D>, a: Action<D>, h: Handler)
    requires LaneInv(s) && Enabled(s, a) && UpToDate(s, h)
    requires !(a.Bypass? && Pending(s, h) && s.handlers[h].req.Mutate?)
    ensures UpToDate(Step(s, a), h)
  {
    hide Step;
    if Pending(Step(s, a), h) {
      if Pending(s, h) {
        SameRequest(s, a, h);
        assert s.lane == Some(h);
        if a.Bypass? {
          ReloadIgnoresStored(s.handlers[h].req, s.stored, Step(s, a).stored);
        } else {
          StoredStays(s, a, h);
        }
      } else {
        PendingFromLane(s, a, h);
        EditedIsUpToDate(s, h);
      }
    }
  }

  lemma ReloadIgnoresStored<D>(req: Request<D>, a: Raw<D>, b: Raw<D>)
    requires req.Reload?
    ensures Candidate(req, a) == Candidate(req, b)
  {}

  lemma EditedIsUpToDate<D>(s: State<D>, h: Handler)
    requires Enabled(s, Edit(h))
    ensures UpToDate(Step(s, Edit(h)), h)
  {}

  /** Nobody else changes the store while a handler is pending, save a writer. */
  lemma StoredStays<D>(s: State<D>, a: Action<D>, h: Handler)
    requires LaneInv(s) && Enabled(s, a) && Pending(s, h) && !a.Bypass? && Pending(Step(s, a), h)
    ensures Step(s, a).stored == s.stored
  {
    hide DoEdit, DoRebuild, DoSwap, DoReconcile;
    assert s.lane == Some(h);
  }

  lemma {:induction false} UndisturbedIsUpToDate<D>(states: seq<State<D>>, actions: seq<Action<D>>, h: Handler, k: nat)
    requires IsRun(states, actions) && k < |states|
    requires Pending(states[k], h) && states[k].handlers[h].req.Mutate? ==> !Disturbed(states, actions, h, k)
    ensures UpToDate(states[k], h)
    decreases k
  {
    hide Step, Enabled, UpToDate, LaneInv, Pending;
    if k == 0 {
      InitiallyUpToDate(states[0], h);
    } else {
      RunStep(states, actions, k - 1);
      RunKeepsInv(states, actions, k - 1);
      if Pending(states[k], h) {
        var s, a := states[k - 1], actions[k - 1];
        if Pending(s, h) {
          SameRequest(s, a, h);
          UndisturbedIsUpToDate(states, actions, h, k - 1);
          UpToDateKept(s, a, h);
        } else {
          NotPendingIsUpToDate(s, h);
          UpToDateKept(s, a, h);
        }
      } else {
        NotPendingIsUpToDate(states[k], h);
      }
    }
  }

  lemma InitiallyUpToDate<D>(s: State<D>, h: Handler)
    requires Initial(s)
    ensures UpToDate(s, h)
  {}

  lemma NotPendingIsUpToDate<D>(s: State<D>, h: Handler)
    requires !Pending(s, h)
    ensures UpToDate(s, h)
  {}

  lemma SameRequest<D>(s: State<D>, a: Action<D>, h: Handler)
    requires Enabled(s, a) && Pending(s, h) && Pending(Step(s, a), h)
    ensures Step(s, a).handlers[h].req == s.handlers[h].req &&
            Step(s, a).handlers[h].candidate == s.handlers[h].candidate
  {
    hide Step;
    if Acts(a, h) { OwnMove(s, a, h); } else { OthersStay(s, a, h); }
  }

  /** A swap keeps the store serial exactly when it stores what its request makes
      of the config it replaces. */
  lemma SwapIsSerialIff<D>(initial: State<D>, s: State<D>, h: Handler)
    requires Enabled(s, Swap(h)) && IsSerial(initial, s)
    ensures Pending(s, h)
    ensures var pc := s.handlers[h];
            IsSerial(initial, Step(s, Swap(h))) <==> pc.candidate == After(s.stored, Committed(pc.req, true))
  {
    hide Serial, SerialRouting;
    var pc := s.handlers[h];
    SerialStep(initial, s.log, Committed(pc.req, pc.built));
  }

  /** One step keeps the store serial, unless it swaps in an outdated candidate. */
  lemma SerialKept<D>(initial: State<D>, s: State<D>, a: Action<D>)
    requires LaneInv(s) && Enabled(s, a) && IsSerial(initial, s)
    requires a.Swap? ==> UpToDate(s, a.handler)
    ensures IsSerial(initial, Step(s, a))
  {
    hide Serial, SerialRouting, SpawnTun, TunEnabled, LaneInv;
    match a
    case Swap(h) => SwapIsSerialIff(initial, s, h);
    case Reconcile(h, _) => SerialStep(initial, s.log, RolledBack);
    case Bypass(write) => SerialStep(initial, s.log, Wrote(write));
    case Edit(h) => SerialStep(initial, s.log, Rejected(s.handlers[h].req));
    case Rebuild(h, _) => SerialStep(initial, s.log, Rejected(s.handlers[h].req));
    case _ =>
  }

  /** In every run, what a swap stores, without the candidate: a reload its own
      config, and a mutation that no write has overtaken its edit of the data
      stored until then, with the `tun` section as it was. */
  lemma SwapStoresWhatWasAsked<D>(states: seq<State<D>>, actions: seq<Action<D>>, k: nat, h: Handler)
    requires IsRun(states, actions) && k < |actions| && actions[k] == Swap(h)
    ensures h in states[k].handlers && states[k].handlers[h].Routed?
    ensures var s, t, req := states[k], states[k + 1], states[k].handlers[h].req;
            match req
            case Reload(config, _) => t.stored == config
            case Mutate(edit, _) =>
              !Disturbed(states, actions, h, k) ==>
                && edit(s.stored.data).Some? && t.stored.data == edit(s.stored.data).value
                && t.stored.tun == s.stored.tun
  {
    hide Disturbed, LaneInv;
    RunStep(states, actions, k);
    var req := states[k].handlers[h].req;
    if req.Reload? || !Disturbed(states, actions, h, k) { UndisturbedIsUpToDate(states, actions, h, k); }
  }

  /** What an edit prepares, without the candidate: a reload its own config, always;
      a mutation its edit of the stored data, or a refusal if there is none. */
  lemma EditPrepares<D>(s: State<D>, h: Handler)
    requires Enabled(s, Edit(h))
    ensures var t, req := Step(s, Edit(h)), s.handlers[h].req;
            match req
            case Reload(config, _) => t.handlers[h] == Edited(req, config)
            case Mutate(edit, _) =>
              match edit(s.stored.data)
              case None => t.handlers[h].Finished? && t.lane.None? && t.log == s.log + [Rejected(req)]
              case Some(d) => t.handlers[h] == Edited(req, Raw(s.stored.tun, d))
  {}

  /** What a rebuild leaves to serve: the candidate if it succeeds, nothing after
      a forced reload that fails, and else what was served before. */
  lemma RebuildServes<D>(s: State<D>, h: Handler, ok: bool)
    requires Enabled(s, Rebuild(h, ok))
    ensures var t, pc := Step(s, Rebuild(h, ok)), s.handlers[h];
            && t.routing == (if ok then BuiltFrom(pc.candidate)
                             else if pc.req.Reload? && pc.req.force then Emptied else s.routing)
            && (t.handlers[h].Finished? <==> !ok && !(pc.req.Reload? && pc.req.force))
  {}

  /** No lost update: in every interleaving in which no write overtakes a
      mutation, the stored config is at all times that of the requests and writes
      run one by one, in the order they took effect. */
  lemma {:induction false} CommitsAreSerial<D>(states: seq<State<D>>, actions: seq<Action<D>>, n: nat)
    requires IsRun(states, actions) && n < |states| && NoneOvertaken(states, actions, n)
    ensures SerialSoFar(states, n)
    decreases n
  {
    hide Step, Enabled, UpToDate, IsSerial, LaneInv;
    if n == 0 {
      InitiallySerial(states[0]);
    } else {
      CommitsAreSerial(states, actions, n - 1);
      RunStep(states, actions, n - 1);
      RunKeepsInv(states, actions, n - 1);
      var s, a := states[n - 1], actions[n - 1];
      if a.Swap? {
        assert !Overtaken(states, actions, n - 1);
        SwapIsPending(s, a);
        UndisturbedIsUpToDate(states, actions, a.handler, n - 1);
      }
      SerialKept(states[0], s, a);
    }
  }

  lemma InitiallySerial<D>(s: State<D>)
    requires Initial(s)
    ensures IsSerial(s, s)
  {}

  lemma SwapIsPending<D>(s: State<D>, a: Action<D>)
    requires Enabled(s, a) && a.Swap?
    ensures Pending(s, a.handler)
  {}

  // ---- Exactly the overtaken mutations lose writes ----

  /** Step k swaps in an overtaken mutation, and it is not what the request makes
      of the config that the writes have left: they do not show in it. */
  ghost predicate Loses<D>(states: seq<State<D>>, actions: seq<Action<D>>, k: nat)
    requires k < |actions| < |states|
  {
    && Overtaken(states, actions, k)
    && var pc := states[k].handlers[actions[k].handler];
       pc.candidate != After(states[k].stored, Committed(pc.req, true))
  }

  /** The exact condition, for any edits and writes: in every run all states so
      far are serial if and only if no swap of an overtaken mutation loses. */
  lemma {:induction false} SerialIffNothingLost<D>(states: seq<State<D>>, actions: seq<Action<D>>, n: nat)
    requires IsRun(states, actions) && n < |states|
    ensures SerialSoFar(states, n) <==> forall k :: 0 <= k < n ==> !Loses(states, actions, k)
    decreases n
  {
    hide Step, Enabled, UpToDate, IsSerial, LaneInv, Overtaken, After;
    if n == 0 {
      InitiallySerial(states[0]);
    } else {
      SerialIffNothingLost(states, actions, n - 1);
      if SerialSoFar(states, n - 1) { LastStepIsSerialIff(states, actions, n - 1); }
    }
  }

  lemma LastStepIsSerialIff<D>(states: seq<State<D>>, actions: seq<Action<D>>, k: nat)
    requires IsRun(states, actions) && k < |actions| && IsSerial(states[0], states[k])
    ensures IsSerial(states[0], states[k + 1]) <==> !Loses(states, actions, k)
  {
    hide Step, Enabled, UpToDate, IsSerial, LaneInv, After, Disturbed;
    RunStep(states, actions, k);
    RunKeepsInv(states, actions, k);
    var s, a := states[k], actions[k];
    if a.Swap? { SwapIsSerialIff(states[0], s, a.handler); }
    if !Overtaken(states, actions, k) {
      if a.Swap? { UndisturbedIsUpToDate(states, actions, a.handler, k); }
      SerialKept(states[0], s, a);
    }
  }

  /** Every accepted edit of the request shifts the count by the same amount, and
      not upwards if the request also refuses configs. An edit that leaves the
      count of outside writes alone shifts it by nothing, and may refuse. */
  ghost predicate Counts<D(!new)>(req: Request<D>, size: D -> nat) {
    req.Mutate? ==> exists n: int :: Shifts(req, size, n) && (n <= 0 || AcceptsAll(req))
  }

  ghost predicate Shifts<D(!new)>(req: Request<D>, size: D -> nat, n: int) {
    req.Mutate? && forall d :: req.edit(d).Some? ==> size(req.edit(d).value) == size(d) + n
  }

  ghost predicate AcceptsAll<D(!new)>(req: Request<D>) {
    req.Mutate? && forall d :: req.edit(d).Some?
  }

  ghost predicate RequestsCount<D(!new)>(s: State<D>, size: D -> nat) {
    forall h :: h in s.handlers && !s.handlers[h].Finished? ==> Counts(s.handlers[h].req, size)
  }

  /** The config keeps a count that every outside write raises, as a revision
      number or a list of what was written would, and that edits do not blur. */
  ghost predicate KeepsCount<D(!new)>(states: seq<State<D>>, actions: seq<Action<D>>, size: D -> nat) {
    && (forall k :: 0 <= k < |states| ==> RequestsCount(states[k], size))
    && (forall k :: 0 <= k < |actions| && actions[k].Bypass? ==> WriteCounts(actions[k], size))
  }

  ghost predicate WriteCounts<D(!new)>(a: Action<D>, size: D -> nat) {
    a.Bypass? && forall d :: size(a.write(d)) > size(d)
  }

  /** The candidate of a pending mutation holds no more than its edit gives on the
      stored config, and less once it has been disturbed. */
  ghost predicate Behind<D(!new)>(s: State<D>, h: Handler, size: D -> nat, n: int, disturbed: bool) {
    Pending(s, h) && Shifts(s.handlers[h].req, size, n) ==>
      var held, due := size(s.handlers[h].candidate.data), size(s.stored.data) + n;
      held <= due && (disturbed ==> held < due)
  }

  lemma BehindKept<D(!new)>(s: State<D>, a: Action<D>, h: Handler, size: D -> nat, n: int, disturbed: bool)
    requires LaneInv(s) && Enabled(s, a) && Pending(s, h) && Behind(s, h, size, n, disturbed)
    requires a.Bypass? ==> WriteCounts(a, size)
    ensures Behind(Step(s, a), h, size, n, disturbed || a.Bypass?)
  {
    hide SpawnTun, Candidate, Shifts;
    if Pending(Step(s, a), h) { SameRequest(s, a, h); }
  }

  lemma BehindStarts<D(!new)>(s: State<D>, a: Action<D>, h: Handler, size: D -> nat, n: int)
    requires LaneInv(s) && Enabled(s, a) && !Pending(s, h)
    ensures Behind(Step(s, a), h, size, n, false)
  {
    hide SpawnTun;
  }

  lemma DisturbedOneMore<D>(states: seq<State<D>>, actions: seq<Action<D>>, h: Handler, k: nat)
    requires k < |actions| < |states|
    ensures Disturbed(states, actions, h, k + 1) <==>
            Disturbed(states, actions, h, k) || (actions[k].Bypass? && Pending(states[k], h))
  {
    hide Pending;
  }

  /** A handler becomes pending once: before that nothing has disturbed it. */
  lemma {:induction false} NotDisturbedBefore<D>(states: seq<State<D>>, actions: seq<Action<D>>, h: Handler, k: nat)
    requires IsRun(states, actions) && k <= |actions|
    requires h !in states[k].handlers || states[k].handlers[h].Queued? || states[k].handlers[h].InLane?
    ensures !Disturbed(states, actions, h, k)
    decreases k
  {
    hide Step;
    if k > 0 {
      RunStep(states, actions, k - 1);
      EarlierStill(states[k - 1], actions[k - 1], h);
      NotDisturbedBefore(states, actions, h, k - 1);
      DisturbedOneMore(states, actions, h, k - 1);
    }
  }

  lemma EarlierStill<D>(s: State<D>, a: Action<D>, h: Handler)
    requires Enabled(s, a)
    requires var t := Step(s, a); h !in t.handlers || t.handlers[h].Queued? || t.handlers[h].InLane?
    ensures h !in s.handlers || s.handlers[h].Queued? || s.handlers[h].InLane?
  {
    hide Step;
    if Acts(a, h) { OwnMove(s, a, h); } else { OthersStay(s, a, h); }
  }

  /** Becoming pending takes being in the lane before. */
  lemma PendingFromLane<D>(s: State<D>, a: Action<D>, h: Handler)
    requires Enabled(s, a) && !Pending(s, h) && Pending(Step(s, a), h)
    ensures h in s.handlers && s.handlers[h].InLane? && a == Edit(h)
  {
    hide Step;
    if Acts(a, h) { OwnMove(s, a, h); } else { OthersStay(s, a, h); }
  }

  lemma {:induction false} PendingIsBehind<D(!new)>(states: seq<State<D>>, actions: seq<Action<D>>, h: Handler, k: nat,
      size: D -> nat, n: int)
    requires IsRun(states, actions) && k <= |actions| && KeepsCount(states, actions, size)
    requires Pending(states[k], h)
    ensures Behind(states[k], h, size, n, Disturbed(states, actions, h, k))
    decreases k
  {
    hide Step, Enabled, Behind, LaneInv, Pending, Disturbed, WriteCounts, RequestsCount;
    if k == 0 {
      NobodyPending(states[0], h);
    } else {
      var s, a := states[k - 1], actions[k - 1];
      RunStep(states, actions, k - 1);
      RunKeepsInv(states, actions, k - 1);
      DisturbedOneMore(states, actions, h, k - 1);
      if Pending(s, h) {
        PendingIsBehind(states, actions, h, k - 1, size, n);
        BehindKept(s, a, h, size, n, Disturbed(states, actions, h, k - 1));
      } else {
        PendingFromLane(s, a, h);
        NotDisturbedBefore(states, actions, h, k - 1);
        BehindStarts(s, a, h, size, n);
      }
    }
  }

  lemma NobodyPending<D>(s: State<D>, h: Handler)
    requires Initial(s)
    ensures !Pending(s, h)
  {}

  /** Swapping in an overtaken mutation leaves the serial order: whether its
      request would now be accepted or refused, the candidate counts too few. */
  lemma OvertakenLeavesSerial<D(!new)>(states: seq<State<D>>, actions: seq<Action<D>>, k: nat, size: D -> nat)
    requires IsRun(states, actions) && k < |actions| && KeepsCount(states, actions, size)
    requires Overtaken(states, actions, k) && IsSerial(states[0], states[k])
    ensures !IsSerial(states[0], states[k + 1])
  {
    hide LaneInv, Disturbed, IsSerial, Step, Enabled;
    var s, h := states[k], actions[k].handler;
    RunStep(states, actions, k);
    assert RequestsCount(s, size);
    var n: int :| Shifts(s.handlers[h].req, size, n) && (n <= 0 || AcceptsAll(s.handlers[h].req));
    PendingIsBehind(states, actions, h, k, size, n);
    SwapIsSerialIff(states[0], s, h);
  }

  /** The exact condition: as long as the config keeps a count of what is written,
      every state so far is serial if and only if no write fell while a mutation
      that went on to swap was pending. Writes while the lane is free, before the
      edit, after the swap or before a rejection survive. */
  lemma {:induction false} SerialIffNoneOvertaken<D(!new)>(states: seq<State<D>>, actions: seq<Action<D>>, n: nat,
      size: D -> nat)
    requires IsRun(states, actions) && n < |states| && KeepsCount(states, actions, size)
    ensures SerialSoFar(states, n) <==> NoneOvertaken(states, actions, n)
  {
    hide Overtaken, IsSerial;
    if NoneOvertaken(states, actions, n) {
      CommitsAreSerial(states, actions, n);
    }
    if SerialSoFar(states, n) {
      forall k | 0 <= k < n ensures !Overtaken(states, actions, k) {
        assert IsSerial(states[0], states[k]) && IsSerial(states[0], states[k + 1]);
        if Overtaken(states, actions, k) { OvertakenLeavesSerial(states, actions, k, size); }
      }
    }
  }

  /** A run in which a write falls between a mutation's edit and its swap. */
  function LosingActions<D>(edit: D -> Option<D>, write: D -> D): seq<Action<D>> {
    [Arrive(0, Mutate(edit, false)), Enter(0), Edit(0), Bypass(write), Rebuild(0, true), Swap(0)]
  }

  function LosingStates<D>(s: State<D>, edit: D -> Option<D>, write: D -> D): seq<State<D>>
    requires edit(s.stored.data).Some?
  {
    var req := Mutate(edit, false);
    var edited := s.stored.(data := edit(s.stored.data).value);
    var s1 := s.(handlers := map[0 := Queued(req)]);
    var s2 := s1.(handlers := map[0 := InLane(req)], lane := Some(0));
    var s3 := s2.(handlers := map[0 := Edited(req, edited)]);
    var s4 := s3.(stored := s.stored.(data := write(s.stored.data)), log := [Wrote(write)]);
    var s5 := s4.(handlers := map[0 := Routed(req, edited, true)], routing := BuiltFrom(edited));
    var s6 := s5.(handlers := map[0 := Swapped(req, edited, TunEnabled(s.stored))], stored := edited,
                  log := [Wrote(write), Committed(req, true)]);
    [s, s1, s2, s3, s4, s5, s6]
  }

  lemma LosingStep<D>(s: State<D>, edit: D -> Option<D>, write: D -> D, k: nat)
    requires Initial(s) && edit(s.stored.data).Some? && k < 6
    ensures var states, actions := LosingStates(s, edit, write), LosingActions(edit, write);
            Enabled(states[k], actions[k]) && states[k + 1] == Step(states[k], actions[k])
  {
    hide SpawnTun;
    assert [] + [Wrote(write)] == [Wrote(write)];
    assert [Wrote(write)] + [Committed(Mutate(edit, false), true)] ==
      [Wrote(write), Committed(Mutate(edit, false), true)];
    var states := LosingStates(s, edit, write);
    if k == 0 {
      assert states[1].handlers == s.handlers[0 := Queued(Mutate(edit, false))];
    } else {
      assert states[k + 1].handlers == states[k].handlers[0 := states[k + 1].handlers[0]];
    }
  }

  lemma LosingIsRun<D>(s: State<D>, edit: D -> Option<D>, write: D -> D)
    requires Initial(s) && edit(s.stored.data).Some?
    ensures IsRun(LosingStates(s, edit, write), LosingActions(edit, write))
  {
    hide Enabled, Step;
    var states, actions := LosingStates(s, edit, write), LosingActions(edit, write);
    forall k | 0 <= k < |actions|
      ensures Enabled(states[k], actions[k]) && states[k + 1] == Step(states[k], actions[k])
    {
      LosingStep(s, edit, write, k);
    }
  }

  /** "No update is lost" is false: a write that falls between a mutation's edit
      and its swap is gone after the swap, in a run from every initial state, for
      every write that the edit would have let through. */
  lemma BypassingWriteIsLost<D>(s: State<D>, edit: D -> Option<D>, write: D -> D)
    requires Initial(s) && edit(s.stored.data).Some? && edit(write(s.stored.data)).Some?
    requires edit(s.stored.data) != edit(write(s.stored.data))
    ensures var states, actions := LosingStates(s, edit, write), LosingActions(edit, write);
            && IsRun(states, actions) && Overtaken(states, actions, 5)
            && Wrote(write) in states[6].log
            && states[6].stored.data == edit(s.stored.data).value
            && !IsSerial(states[0], states[6])
  {
    hide Serial, SerialRouting, IsRun, Disturbed;
    LosingIsRun(s, edit, write);
    var states, actions := LosingStates(s, edit, write), LosingActions(edit, write);
    DisturbedBy(states, actions, 0, 3, 5);
    var commit := Committed(Mutate(edit, false), true);
    SerialOfNothing(s);
    SerialSnoc(s.stored, [], Wrote(write));
    SerialSnoc(s.stored, [Wrote(write)], commit);
    assert [] + [Wrote(write)] == [Wrote(write)] && [Wrote(write)] + [commit] == [Wrote(write), commit];
    assert states[6].log[0] == Wrote(write);
  }

  lemma SerialOfNothing<D>(s: State<D>)
    ensures Serial(s.stored, []) == s.stored
  {}

  lemma DisturbedBy<D>(states: seq<State<D>>, actions: seq<Action<D>>, h: Handler, w: nat, k: nat)
    requires w < k <= |actions| < |states| && actions[w].Bypass? && Pending(states[w], h)
    ensures Disturbed(states, actions, h, k)
  {}

  // ---------------------------------------------------------------------
  // Routing, disk and rejections.
  // ---------------------------------------------------------------------

  /** While nobody reroutes from outside, routing is the serial one up to the
      rebuild of the current holder. */
  ghost predicate RoutingInv<D>(initial: State<D>, s: State<D>) {
    match s.lane
    case Some(h) =>
      h in s.handlers &&
      (match s.handlers[h]
       case Routed(_, c, built) => s.routing == (if built then BuiltFrom(c) else Emptied)
       case _ => s.routing == SerialRouting(initial, s.log))
    case None => s.routing == SerialRouting(initial, s.log)
  }

  lemma RoutingInvKept<D>(initial: State<D>, s: State<D>, a: Action<D>)
    requires LaneInv(s) && Enabled(s, a) && IsSerial(initial, s) && RoutingInv(initial, s) && !a.Reroute?
    requires a.Swap? ==> UpToDate(s, a.handler)
    ensures RoutingInv(initial, Step(s, a))
  {
    hide Serial, SerialRouting, SpawnTun, Disabled, TunEnabled;
    var t := Step(s, a);
    match a
    case Swap(h) =>
      var pc := s.handlers[h];
      SerialStep(initial, s.log, Committed(pc.req, pc.built));
    case Reconcile(h, _) => SerialStep(initial, s.log, RolledBack);
    case Bypass(write) => SerialStep(initial, s.log, Wrote(write));
    case Edit(h) => SerialStep(initial, s.log, Rejected(s.handlers[h].req));
    case Rebuild(h, _) => SerialStep(initial, s.log, Rejected(s.handlers[h].req));
    case Reroute(_) =>
    case _ => assert t.log == s.log && t.routing == s.routing;
  }

  lemma {:induction false} RoutingIsSerial<D>(states: seq<State<D>>, actions: seq<Action<D>>, n: nat)
    requires IsRun(states, actions) && n < |states| && NoneOvertaken(states, actions, n) && !states[n].rerouted
    ensures RoutingInv(states[0], states[n])
    decreases n
  {
    hide Step, Enabled, UpToDate, IsSerial, LaneInv, RoutingInv;
    if n == 0 {
      RoutingInvStarts(states[0]);
    } else {
      var s, a := states[n - 1], actions[n - 1];
      RunStep(states, actions, n - 1);
      ReroutedStays(s, a);
      RoutingIsSerial(states, actions, n - 1);
      RunKeepsInv(states, actions, n - 1);
      CommitsAreSerial(states, actions, n - 1);
      if a.Swap? {
        assert !Overtaken(states, actions, n - 1);
        SwapIsPending(s, a);
        UndisturbedIsUpToDate(states, actions, a.handler, n - 1);
      }
      RoutingInvKept(states[0], s, a);
    }
  }

  lemma RoutingInvStarts<D>(s: State<D>)
    requires Initial(s)
    ensures RoutingInv(s, s)
  {}

  lemma ReroutedStays<D>(s: State<D>, a: Action<D>)
    requires Enabled(s, a)
    ensures Step(s, a).rerouted <==> s.rerouted || a.Reroute?
  {
    hide SpawnTun, Candidate;
  }

  /** "Routing is serial" does not hold once somebody reroutes from outside: the
      shortest such run, from every initial state. */
  lemma ReroutingIsUnseen<D>(s: State<D>, config: Raw<D>)
    requires Initial(s) && s.routing != BuiltFrom(config)
    ensures exists states: seq<State<D>> ::
              && IsRun(states, [Reroute(config)]) && states[0] == s && states[1].rerouted
              && states[1].routing == BuiltFrom(config) && !RoutingInv(s, states[1])
  {
    var t := Step(s, Reroute(config));
    assert IsRun([s, t], [Reroute(config)]);
    assert [s, t][1] == t;
  }

  /** From entry j on the log is replayed on the config that routing serves, and
      no commit among it changes anything. */
  ghost predicate Served<D>(initial: State<D>, log: seq<Entry<D>>, j: nat)
    requires j <= |log|
  {
    && SerialRouting(initial, log).BuiltFrom?
    && Serial(initial.stored, log) == Serial(SerialRouting(initial, log).config, log[j..])
    && Idle(initial, log, j)
  }

  ghost predicate Idle<D>(initial: State<D>, log: seq<Entry<D>>, j: nat)
    requires j <= |log|
  {
    forall i :: j <= i < |log| && log[i].Committed? ==> Candidate(log[i].req, Serial(initial.stored, log[..i])).None?
  }

  lemma SerialSnoc<D>(raw: Raw<D>, log: seq<Entry<D>>, e: Entry<D>)
    ensures Serial(raw, log + [e]) == After(Serial(raw, log), e)
  {
    assert (log + [e])[..|log|] == log;
  }

  lemma ServedGrows<D>(initial: State<D>, log: seq<Entry<D>>, e: Entry<D>, j: nat)
    requires j <= |log| && Served(initial, log, j)
    requires e.Committed? ==> Candidate(e.req, Serial(initial.stored, log)).None?
    ensures Served(initial, log + [e], j)
  {
    hide Serial, SerialRouting, Candidate;
    var longer := log + [e];
    SerialStep(initial, log, e);
    assert longer[j..] == log[j..] + [e] && longer[..|log|] == log;
    SerialSnoc(SerialRouting(initial, log).config, log[j..], e);
    forall i | j <= i < |longer| && longer[i].Committed?
      ensures Candidate(longer[i].req, Serial(initial.stored, longer[..i])).None?
    {
      if i < |log| { assert longer[i] == log[i] && longer[..i] == log[..i]; }
    }
  }

  /** Serial routing serves the config of the last commit that was built: what is
      stored differs from it by the rollbacks and writes since, and nothing else. */
  lemma {:induction false} RoutingServesStored<D>(initial: State<D>, log: seq<Entry<D>>)
    requires initial.routing == BuiltFrom(initial.stored)
    ensures SerialRouting(initial, log).BuiltFrom? ==> exists j: nat :: j <= |log| && Served(initial, log, j)
    decreases |log|
  {
    hide Served, Candidate;
    if log == [] {
      ServedFromStart(initial);
    } else {
      var init, e := log[..|log| - 1], log[|log| - 1];
      assert log == init + [e];
      SerialStep(initial, init, e);
      if e.Committed? && Candidate(e.req, Serial(initial.stored, init)).Some? {
        if SerialRouting(initial, log).BuiltFrom? { ServedAfresh(initial, log); }
      } else {
        RoutingServesStored(initial, init);
        if j: nat :| j <= |init| && Served(initial, init, j) { ServedGrows(initial, init, e, j); }
      }
    }
  }

  lemma ServedFromStart<D>(initial: State<D>)
    requires initial.routing == BuiltFrom(initial.stored)
    ensures Served(initial, [], 0)
  {
    var nothing: seq<Entry<D>> := [];
    assert nothing[0..] == [];
  }

  lemma ServedAfresh<D>(initial: State<D>, log: seq<Entry<D>>)
    requires SerialRouting(initial, log) == BuiltFrom(Serial(initial.stored, log))
    ensures Served(initial, log, |log|)
  {
    assert log[|log|..] == [];
  }

  /** What a saving mutation writes to disk is the config then stored, if no write
      fell after its swap. */
  ghost predicate Untouched<D>(states: seq<State<D>>, actions: seq<Action<D>>, h: Handler, k: nat)
    requires k <= |actions| < |states|
  {
    forall w :: 0 <= w < k && actions[w].Bypass? ==> !AfterSwap(states[w], h)
  }

  predicate AfterSwap<D>(s: State<D>, h: Handler) {
    h in s.handlers && (s.handlers[h].Swapped? || s.handlers[h].Reconciled?)
  }

  /** A mutation leaves the `tun` section alone, so it is never rolled back and
      its candidate stays stored until somebody writes. */
  ghost predicate Keeps<D>(s: State<D>, h: Handler) {
    && (Pending(s, h) && s.handlers[h].req.Mutate? ==> s.handlers[h].candidate.tun == s.stored.tun)
    && (AfterSwap(s, h) && s.handlers[h].req.Mutate? ==> s.stored == s.handlers[h].candidate)
    && (h in s.handlers && s.handlers[h].Swapped? && s.handlers[h].req.Mutate? ==>
          s.handlers[h].wasEnabled == TunEnabled(s.stored))
  }

  lemma OutsideIsNeither<D>(s: State<D>, a: Action<D>, h: Handler)
    requires Enabled(s, a) && (h in s.handlers ==> !HoldsLane(s.handlers[h]))
    ensures !Pending(Step(s, a), h) && !AfterSwap(Step(s, a), h)
  {
    hide Step;
    if Acts(a, h) { OwnMove(s, a, h); } else { OthersStay(s, a, h); }
  }

  lemma OwnStepKeeps<D>(s: State<D>, a: Action<D>, h: Handler)
    requires Enabled(s, a) && Keeps(s, h) && !a.Bypass? && !a.Reroute? && a.handler == h
    ensures Keeps(Step(s, a), h)
  {
    hide SpawnTun, DoEdit, DoRebuild;
    if a.Edit? { EditKeepsTun(s, h); }
  }

  lemma EditKeepsTun<D>(s: State<D>, h: Handler)
    requires Enabled(s, Edit(h))
    ensures var t := Step(s, Edit(h));
            t.handlers[h].Edited? && t.handlers[h].req.Mutate? ==> t.handlers[h].candidate.tun == t.stored.tun
  {}

  lemma SideStepKeeps<D>(s: State<D>, a: Action<D>, h: Handler)
    requires Enabled(s, a) && Keeps(s, h) && h in s.handlers
    requires a.Bypass? || a.Reroute? || (a.Arrive? && a.handler != h)
    requires !(a.Bypass? && AfterSwap(s, h))
    ensures Keeps(Step(s, a), h)
  {
  }

  lemma KeepsKept<D>(s: State<D>, a: Action<D>, h: Handler)
    requires LaneInv(s) && Enabled(s, a) && Keeps(s, h) && !(a.Bypass? && AfterSwap(s, h))
    ensures Keeps(Step(s, a), h)
  {
    hide SpawnTun, Step, Keeps;
    if s.lane != Some(h) {
      OutsideIsNeither(s, a, h);
      NeitherKeeps(Step(s, a), h);
    } else {
      assert h in s.handlers && HoldsLane(s.handlers[h]);
      if a.Bypass? || a.Reroute? || (a.Arrive? && a.handler != h) {
        SideStepKeeps(s, a, h);
      } else {
        assert a.handler in s.handlers && HoldsLane(s.handlers[a.handler]) ==> a.handler == h;
        OwnStepKeeps(s, a, h);
      }
    }
  }

  lemma NeitherKeeps<D>(s: State<D>, h: Handler)
    requires !Pending(s, h) && !AfterSwap(s, h)
    ensures Keeps(s, h)
  {}

  lemma {:induction false} UntouchedKeeps<D>(states: seq<State<D>>, actions: seq<Action<D>>, h: Handler, k: nat)
    requires IsRun(states, actions) && k <= |actions| && Untouched(states, actions, h, k)
    ensures Keeps(states[k], h)
    decreases k
  {
    hide Step, Enabled, Keeps, LaneInv, AfterSwap;
    if k == 0 {
      KeepsStarts(states[0], h);
    } else {
      UntouchedKeeps(states, actions, h, k - 1);
      RunStep(states, actions, k - 1);
      RunKeepsInv(states, actions, k - 1);
      KeepsKept(states[k - 1], actions[k - 1], h);
    }
  }

  lemma KeepsStarts<D>(s: State<D>, h: Handler)
    requires Initial(s)
    ensures Keeps(s, h)
  {}

  lemma SavedIsStored<D>(states: seq<State<D>>, actions: seq<Action<D>>, k: nat, h: Handler)
    requires IsRun(states, actions) && k < |actions| && actions[k] == Save(h) && Untouched(states, actions, h, k)
    ensures states[k + 1].disk == Some(states[k].stored)
  {
    hide LaneInv;
    RunStep(states, actions, k);
    UntouchedKeeps(states, actions, h, k);
  }

  /** A request refused by its edit or by an unforced rebuild frees the lane and
      changes nothing: store and device stay as they are, and routing stays what
      the requests before it made it. */
  lemma RejectionChangesNothing<D>(states: seq<State<D>>, actions: seq<Action<D>>, k: nat)
    requires IsRun(states, actions) && k < |actions|
    requires |states[k + 1].log| > |states[k].log| && states[k + 1].log[|states[k].log|].Rejected?
    ensures states[k + 1].lane.None?
    ensures states[k + 1].stored == states[k].stored && states[k + 1].tunHandle == states[k].tunHandle
    ensures states[k + 1].routing == states[k].routing
    ensures NoneOvertaken(states, actions, k) && !states[k].rerouted ==>
              states[k + 1].routing == SerialRouting(states[0], states[k].log)
  {
    hide Step, Enabled, SerialRouting, NoneOvertaken, TunInv;
    RunStep(states, actions, k);
    RunKeepsInv(states, actions, k);
    RejectedStep(states[k], actions[k]);
    if NoneOvertaken(states, actions, k) && !states[k].rerouted { RoutingIsSerial(states, actions, k); }
  }

  /** Only the holder of the lane, before its rebuild is through, is refused. */
  lemma RejectedStep<D>(s: State<D>, a: Action<D>)
    requires LaneInv(s) && Enabled(s, a)
    requires |Step(s, a).log| > |s.log| && Step(s, a).log[|s.log|].Rejected?
    ensures var t := Step(s, a);
            t.lane.None? && t.stored == s.stored && t.tunHandle == s.tunHandle && t.routing == s.routing
    ensures s.lane.Some? && s.lane.value in s.handlers && !s.handlers[s.lane.value].Routed?
  {
    hide SpawnTun;
  }
}
