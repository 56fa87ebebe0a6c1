/** Nested dial deadlines: one budget for a dial and every dial inside it.

    A dial is a program of one task: it may take time, hang, dial again (a relay
    hop, a group member) and go on with the result. The module compares the run
    under `with_dial_timeout` with the run without any timeout.
 */
module DialDeadline {
  import opened Common

  /** DIAL_TIMEOUT, in milliseconds. */
  const DIAL_TIMEOUT: nat := 5000

  datatype Outcome<T> = Connected(conn: T) | Refused(error: string) | TimedOut(via: string)

  datatype Prog<T> =
    | Return(result: Outcome<T>)
    | Propagate                                   // hand on the result of the last dial
    | Hang
    | Sleep(ms: nat, next: Prog<T>)
    | Dial(via: string, inner: Prog<T>, onOk: Prog<T>, onErr: Prog<T>)

  datatype End<T> = Done(at: nat, result: Outcome<T>) | Never

  function After<T>(p: Prog<T>, r: Outcome<T>): Prog<T>
    requires p.Dial?
  {
    if r.Connected? then p.onOk else p.onErr
  }

  /** The run without timeouts. */
  function Unbounded<T>(p: Prog<T>, last: Outcome<T>, now: nat): End<T>
    decreases p
  {
    match p
    case Return(r) => Done(now, r)
    case Propagate => Done(now, last)
    case Hang => Never
    case Sleep(ms, next) => Unbounded(next, last, now + ms)
    case Dial(_, inner, onOk, onErr) =>
      match Unbounded(inner, last, now)
      case Never => Never
      case Done(t, r) => if r.Connected? then Unbounded(onOk, r, t) else Unbounded(onErr, r, t)
  }

  /** `timeout_at`: the future is polled before the timer, so finishing on the
      deadline is in time; otherwise the cut falls on the deadline, or at once
      when it has passed. */
  function Cut<T>(via: string, e: End<T>, now: nat, deadline: nat): End<T> {
    if e.Done? && e.at <= deadline then e
    else Done(if deadline < now then now else deadline, TimedOut(via))
  }

  /** The deadline a dial runs under: the one in scope, else its own. */
  function DeadlineOf(scope: Option<nat>, now: nat): nat {
    match scope
    case Some(d) => d
    case None => now + DIAL_TIMEOUT
  }

  /** The run in which every dial goes through `with_dial_timeout`. */
  function Run<T>(p: Prog<T>, last: Outcome<T>, now: nat, scope: Option<nat>): End<T>
    decreases p
  {
    match p
    case Return(r) => Done(now, r)
    case Propagate => Done(now, last)
    case Hang => Never
    case Sleep(ms, next) => Run(next, last, now + ms, scope)
    case Dial(via, inner, onOk, onErr) =>
      var deadline := DeadlineOf(scope, now);
      var e := Cut(via, Run(inner, last, now, Some(deadline)), now, deadline);
      if e.result.Connected? then Run(onOk, e.result, e.at, scope) else Run(onErr, e.result, e.at, scope)
  }

  /** `with_dial_timeout` around a future. */
  function WithDialTimeout<T>(via: string, fut: Prog<T>, last: Outcome<T>, now: nat, scope: Option<nat>): End<T> {
    var deadline := DeadlineOf(scope, now);
    Cut(via, Run(fut, last, now, Some(deadline)), now, deadline)
  }

  /** A dial that took place: when it began and when it ended. */
  datatype Span = Span(began: nat, ended: nat)

  /** The dials of a run that were begun by the deadline; the future is cut there. */
  function BegunBy(spans: seq<Span>, deadline: nat): seq<Span> {
    if spans == [] then []
    else (if spans[0].began <= deadline then [spans[0]] else []) + BegunBy(spans[1..], deadline)
  }

  /** Every dial a run performs, nested ones included. */
  function Dials<T>(p: Prog<T>, last: Outcome<T>, now: nat, scope: Option<nat>): seq<Span>
    decreases p
  {
    match p
    case Return(_) => []
    case Propagate => []
    case Hang => []
    case Sleep(ms, next) => Dials(next, last, now + ms, scope)
    case Dial(via, inner, onOk, onErr) =>
      var deadline := DeadlineOf(scope, now);
      var e := Cut(via, Run(inner, last, now, Some(deadline)), now, deadline);
      BegunBy(Dials(inner, last, now, Some(deadline)), deadline) + [Span(now, e.at)]
      + if e.result.Connected? then Dials(onOk, e.result, e.at, scope) else Dials(onErr, e.result, e.at, scope)
  }

  predicate EndBy(spans: seq<Span>, deadline: nat) {
    forall i :: 0 <= i < |spans| && spans[i].began <= deadline ==> spans[i].ended <= deadline
  }

  lemma {:induction false} BegunEndBy(spans: seq<Span>, deadline: nat)
    requires EndBy(spans, deadline)
    ensures forall i :: 0 <= i < |BegunBy(spans, deadline)| ==> BegunBy(spans, deadline)[i].ended <= deadline
    decreases |spans|
  {
    if spans != [] { BegunEndBy(spans[1..], deadline); }
  }

  lemma {:induction false} DialsEndByDeadline<T>(p: Prog<T>, last: Outcome<T>, now: nat, deadline: nat)
    ensures EndBy(Dials(p, last, now, Some(deadline)), deadline)
    decreases p
  {
    match p
    case Sleep(ms, next) => DialsEndByDeadline(next, last, now + ms, deadline);
    case Dial(via, inner, onOk, onErr) =>
      var e := Cut(via, Run(inner, last, now, Some(deadline)), now, deadline);
      DialsEndByDeadline(inner, last, now, deadline);
      BegunEndBy(Dials(inner, last, now, Some(deadline)), deadline);
      DialsEndByDeadline(After(p, e.result), e.result, e.at, deadline);
    case _ =>
  }

  /** However dials nest, the outermost and every dial inside it end within one
      timeout of the outermost start. */
  lemma EverythingEndsWithinOneBudget<T>(via: string, fut: Prog<T>, last: Outcome<T>, start: nat)
    ensures WithDialTimeout(via, fut, last, start, None).Done?
    ensures WithDialTimeout(via, fut, last, start, None).at <= start + DIAL_TIMEOUT
    ensures var inside := BegunBy(Dials(fut, last, start, Some(start + DIAL_TIMEOUT)), start + DIAL_TIMEOUT);
            forall i :: 0 <= i < |inside| ==> inside[i].ended <= start + DIAL_TIMEOUT
  {
    DialsEndByDeadline(fut, last, start, start + DIAL_TIMEOUT);
    BegunEndBy(Dials(fut, last, start, Some(start + DIAL_TIMEOUT)), start + DIAL_TIMEOUT);
  }

  lemma {:induction false} TimeAdvances<T>(p: Prog<T>, last: Outcome<T>, now: nat, scope: Option<nat>)
    ensures Run(p, last, now, scope).Done? ==> Run(p, last, now, scope).at >= now
    ensures Unbounded(p, last, now).Done? ==> Unbounded(p, last, now).at >= now
    decreases p
  {
    match p
    case Sleep(ms, next) => TimeAdvances(next, last, now + ms, scope);
    case Dial(via, inner, onOk, onErr) =>
      var deadline := DeadlineOf(scope, now);
      TimeAdvances(inner, last, now, Some(deadline));
      var e := Cut(via, Run(inner, last, now, Some(deadline)), now, deadline);
      TimeAdvances(After(p, e.result), e.result, e.at, scope);
      var u := Unbounded(inner, last, now);
      if u.Done? { TimeAdvances(After(p, u.result), u.result, u.at, scope); }
    case _ =>
  }

  /** A run that needs no more than the budget is not changed by it. */
  lemma {:induction false} InTimeIsUntouched<T>(p: Prog<T>, last: Outcome<T>, now: nat, deadline: nat)
    requires Unbounded(p, last, now).Done? && Unbounded(p, last, now).at <= deadline
    ensures Run(p, last, now, Some(deadline)) == Unbounded(p, last, now)
    decreases p
  {
    match p
    case Sleep(ms, next) => InTimeIsUntouched(next, last, now + ms, deadline);
    case Dial(via, inner, onOk, onErr) =>
      var u := Unbounded(inner, last, now);
      TimeAdvances(After(p, u.result), u.result, u.at, None);
      InTimeIsUntouched(inner, last, now, deadline);
      InTimeIsUntouched(After(p, u.result), u.result, u.at, deadline);
    case _ =>
  }

  /** What the budget lets finish before the deadline is the unbounded result:
      no timeout anywhere inside can have been the cause. */
  lemma {:induction false} EarlyMeansUnbounded<T>(p: Prog<T>, last: Outcome<T>, now: nat, deadline: nat)
    requires Run(p, last, now, Some(deadline)).Done? && Run(p, last, now, Some(deadline)).at < deadline
    ensures Unbounded(p, last, now) == Run(p, last, now, Some(deadline))
    decreases p
  {
    match p
    case Sleep(ms, next) => EarlyMeansUnbounded(next, last, now + ms, deadline);
    case Dial(via, inner, onOk, onErr) =>
      var e := Cut(via, Run(inner, last, now, Some(deadline)), now, deadline);
      TimeAdvances(After(p, e.result), e.result, e.at, Some(deadline));
      assert e.at < deadline;
      EarlyMeansUnbounded(inner, last, now, deadline);
      EarlyMeansUnbounded(After(p, e.result), e.result, e.at, deadline);
    case _ =>
  }

  /** The two together, for a dial with no deadline in scope. */
  lemma BudgetOnlyCutsSlowDials<T>(via: string, fut: Prog<T>, last: Outcome<T>, start: nat)
    ensures var bounded := WithDialTimeout(via, fut, last, start, None);
            var free := Unbounded(fut, last, start);
            && (free.Done? && free.at <= start + DIAL_TIMEOUT ==> bounded == free)
            && (bounded.at < start + DIAL_TIMEOUT ==> bounded == free)
            && (free.Never? || free.at > start + DIAL_TIMEOUT ==> bounded.at == start + DIAL_TIMEOUT)
  {
    var deadline := start + DIAL_TIMEOUT;
    var free := Unbounded(fut, last, start);
    if free.Done? && free.at <= deadline { InTimeIsUntouched(fut, last, start, deadline); }
    var e := Run(fut, last, start, Some(deadline));
    if e.Done? && e.at < deadline { EarlyMeansUnbounded(fut, last, start, deadline); }
  }
}
