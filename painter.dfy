/**
 * The painter (painter/painter.go): the cost of one draw call, the
 * fixed-window cost ledger that paces draws, and one step of the dispatch
 * loop, which picks the first pattern with work, marks its pixel in flight,
 * charges the cost and, when the draw completes, refunds failures other
 * than the server's rate-limit rejection.
 *
 * The clock is the `now` parameter (Unix seconds); each sleeping loop of the
 * source is one step here. The draw itself runs in a goroutine in the
 * source; here its completion is the separate step Dispatcher.Complete.
 */
module Painter {
  import opened Wrappers
  import opened Art
  import opened Canvas
  import opened Resource

  const ScorePerWindow := 30
  const ScoreWindowSecs := 10
  const PaintOverWhiteCost := 2
  const PaintOverOtherCost := 5

  /** http.StatusForbidden: the server's rate-limit rejection. */
  const StatusForbidden := 403

  /**
   * drawCallCost: painting over White is cheaper than painting over any
   * other colour; no draw costs more than PaintOverOtherCost.
   */
  function DrawCallCost(oldColor: int): (cost: int)
    ensures 0 < cost <= PaintOverOtherCost
    ensures cost == PaintOverWhiteCost <==> oldColor == White
    ensures cost == PaintOverOtherCost <==> oldColor != White
  {
    if oldColor == White then PaintOverWhiteCost else PaintOverOtherCost
  }

  /** The package's cycleCost and cycleStart. */
  datatype Ledger = Ledger(cycleCost: int, cycleStart: int)

  /** addCycleCost's effect: the cost is added, the window is kept. */
  function Charge(l: Ledger, cost: int): (r: Ledger)
    ensures r.cycleCost == l.cycleCost + cost && r.cycleStart == l.cycleStart
  {
    Ledger(l.cycleCost + cost, l.cycleStart)
  }

  /** removeCycleCost's effect: a refund only counts in the window that was charged. */
  function Refund(l: Ledger, start: int, cost: int): (r: Ledger)
    ensures r.cycleStart == l.cycleStart
    ensures start == l.cycleStart ==> r.cycleCost == l.cycleCost - cost
    ensures start != l.cycleStart ==> r == l
  {
    if l.cycleStart == start then Ledger(l.cycleCost - cost, l.cycleStart) else l
  }

  datatype Admission = Admission(admitted: bool, ledger: Ledger)

  /**
   * One iteration of sleepUntilNextMove at time `now`: a window that is
   * ScoreWindowSecs old is replaced by an empty one starting now, and the
   * move is admitted; otherwise the move is admitted when the window still
   * has room for the most expensive draw, and the ledger is left alone.
   */
  function AdmitStep(l: Ledger, now: int): (a: Admission)
    ensures l.cycleStart + ScoreWindowSecs <= now ==> a == Admission(true, Ledger(0, now))
    ensures l.cycleStart + ScoreWindowSecs > now ==> a.ledger == l
    ensures l.cycleStart + ScoreWindowSecs > now ==>
      (a.admitted <==> l.cycleCost + PaintOverOtherCost <= ScorePerWindow)
    ensures a.admitted ==> a.ledger.cycleCost + PaintOverOtherCost <= ScorePerWindow
    ensures a.ledger != l ==> a.ledger.cycleStart > l.cycleStart && a.ledger.cycleCost == 0
  {
    if l.cycleStart + ScoreWindowSecs <= now then Admission(true, Ledger(0, now))
    else Admission(ScorePerWindow - l.cycleCost >= PaintOverOtherCost, l)
  }

  /** A draw in flight: the pixel, the window it was charged to, and its cost. */
  datatype DrawCall = DrawCall(pixel: Pixel, start: int, cost: int)

  /** How sp.DrawPixel ended: success, or an error with an HTTP status. */
  datatype DrawOutcome = Drawn | Failed(status: int)

  /** The completion policy of a draw: keep the charge on success and on 403, refund otherwise. */
  function Settle(l: Ledger, call: DrawCall, outcome: DrawOutcome): (r: Ledger)
    ensures outcome.Failed? && outcome.status != StatusForbidden ==> r == Refund(l, call.start, call.cost)
    ensures outcome.Drawn? || outcome.status == StatusForbidden ==> r == l
  {
    if outcome.Failed? && outcome.status != StatusForbidden then Refund(l, call.start, call.cost) else l
  }

  function KeyOf(call: DrawCall): int {
    PackKey(call.pixel.x, call.pixel.y)
  }

  /** The total cost of the draws in flight that were charged to window `start`. */
  function CycleShare(pending: seq<DrawCall>, start: int): int
    decreases |pending|
  {
    if pending == [] then 0
    else
      var last := pending[|pending| - 1];
      CycleShare(pending[..|pending| - 1], start) + (if last.start == start then last.cost else 0)
  }

  lemma {:induction false} CycleShareAppend(a: seq<DrawCall>, b: seq<DrawCall>, start: int)
    ensures CycleShare(a + b, start) == CycleShare(a, start) + CycleShare(b, start)
    decreases |b|
  {
    if b != [] {
      var b' := b[..|b| - 1];
      assert (a + b)[..|a + b| - 1] == a + b';
      CycleShareAppend(a, b', start);
    } else {
      assert a + b == a;
    }
  }

  lemma {:induction false} CycleShareOlder(pending: seq<DrawCall>, start: int)
    requires forall i :: 0 <= i < |pending| ==> pending[i].start < start
    ensures CycleShare(pending, start) == 0
    decreases |pending|
  {
    if pending != [] {
      CycleShareOlder(pending[..|pending| - 1], start);
    }
  }

  lemma {:induction false} CycleShareNonNegative(pending: seq<DrawCall>, start: int)
    requires forall i :: 0 <= i < |pending| ==> 0 <= pending[i].cost
    ensures 0 <= CycleShare(pending, start)
    decreases |pending|
  {
    if pending != [] {
      CycleShareNonNegative(pending[..|pending| - 1], start);
    }
  }

  function RemoveAt(pending: seq<DrawCall>, i: nat): seq<DrawCall>
    requires i < |pending|
  {
    pending[..i] + pending[i + 1..]
  }

  /**
   * The ledger invariant, with the draws still in flight: every one was
   * charged to this window or an earlier one, costs are non-negative, the
   * window's cost covers every refund still to come for it, and it stays
   * within the budget.
   */
  ghost predicate LedgerInv(l: Ledger, pending: seq<DrawCall>) {
    && (forall i :: 0 <= i < |pending| ==> pending[i].start <= l.cycleStart && 0 <= pending[i].cost)
    && CycleShare(pending, l.cycleStart) <= l.cycleCost <= ScorePerWindow
  }

  /** Under the invariant the window's cost lies within [0, ScorePerWindow]. */
  lemma LedgerInvBounds(l: Ledger, pending: seq<DrawCall>)
    requires LedgerInv(l, pending)
    ensures 0 <= l.cycleCost <= ScorePerWindow
  {
    CycleShareNonNegative(pending, l.cycleStart);
  }

  /** An admission step keeps the invariant: a new window starts after every charged one. */
  lemma AdmitPreserves(l: Ledger, pending: seq<DrawCall>, now: int)
    requires LedgerInv(l, pending)
    ensures LedgerInv(AdmitStep(l, now).ledger, pending)
  {
    var a := AdmitStep(l, now);
    if a.ledger != l {
      CycleShareOlder(pending, now);
    }
  }

  /** A charge of at most PaintOverOtherCost right after an admission keeps the invariant. */
  lemma ChargePreserves(l: Ledger, pending: seq<DrawCall>, p: Pixel, cost: int)
    requires LedgerInv(l, pending)
    requires l.cycleCost + PaintOverOtherCost <= ScorePerWindow
    requires 0 <= cost <= PaintOverOtherCost
    ensures LedgerInv(Charge(l, cost), pending + [DrawCall(p, l.cycleStart, cost)])
  {
    CycleShareAppend(pending, [DrawCall(p, l.cycleStart, cost)], l.cycleStart);
    assert CycleShare([DrawCall(p, l.cycleStart, cost)], l.cycleStart) == cost;
  }

  /** Completing any draw in flight, with any outcome, keeps the invariant. */
  lemma SettlePreserves(l: Ledger, pending: seq<DrawCall>, i: nat, outcome: DrawOutcome)
    requires LedgerInv(l, pending)
    requires i < |pending|
    ensures LedgerInv(Settle(l, pending[i], outcome), RemoveAt(pending, i))
  {
    var call := pending[i];
    assert pending == pending[..i] + [call] + pending[i + 1..];
    CycleShareAppend(pending[..i] + [call], pending[i + 1..], l.cycleStart);
    CycleShareAppend(pending[..i], [call], l.cycleStart);
    CycleShareAppend(pending[..i], pending[i + 1..], l.cycleStart);
    assert CycleShare([call], l.cycleStart) == (if call.start == l.cycleStart then call.cost else 0);
    CycleShareNonNegative([call], l.cycleStart);
    var r := RemoveAt(pending, i);
    forall j | 0 <= j < |r| ensures r[j].start <= l.cycleStart && 0 <= r[j].cost {
      if j < i {
        assert r[j] == pending[j];
      } else {
        assert r[j] == pending[j + 1];
      }
    }
  }

  lemma RemoveAtMultiset(pending: seq<DrawCall>, i: nat)
    requires i < |pending|
    ensures multiset(RemoveAt(pending, i)) == multiset(pending) - multiset{pending[i]}
  {
    assert pending == pending[..i] + [pending[i]] + pending[i + 1..];
  }

  /** The keys of the draws in flight. */
  function KeySet(pending: seq<DrawCall>): set<int>
    decreases |pending|
  {
    if pending == [] then {} else KeySet(pending[..|pending| - 1]) + {KeyOf(pending[|pending| - 1])}
  }

  lemma {:induction false} KeySetMembers(pending: seq<DrawCall>, k: int)
    ensures k in KeySet(pending) <==> exists i :: 0 <= i < |pending| && KeyOf(pending[i]) == k
    decreases |pending|
  {
    if pending != [] {
      var front := pending[..|pending| - 1];
      KeySetMembers(front, k);
      if k in KeySet(front) {
        var i :| 0 <= i < |front| && KeyOf(front[i]) == k;
        assert pending[i] == front[i];
      }
      if exists i :: 0 <= i < |pending| && KeyOf(pending[i]) == k {
        var i :| 0 <= i < |pending| && KeyOf(pending[i]) == k;
        if i < |front| {
          assert front[i] == pending[i];
        }
      }
    }
  }

  /** No two draws in flight share a key. */
  ghost predicate DistinctKeys(pending: seq<DrawCall>) {
    forall i, j :: 0 <= i < j < |pending| ==> KeyOf(pending[i]) != KeyOf(pending[j])
  }

  lemma RemoveAtIndex(pending: seq<DrawCall>, i: nat, j: nat)
    requires i < |pending| && j < |pending| - 1
    ensures RemoveAt(pending, i)[j] == pending[if j < i then j else j + 1]
  {
  }

  /** With distinct keys, completing draw i frees exactly its key. */
  lemma RemoveKey(pending: seq<DrawCall>, i: nat)
    requires i < |pending| && DistinctKeys(pending)
    ensures KeySet(RemoveAt(pending, i)) == KeySet(pending) - {KeyOf(pending[i])}
    ensures DistinctKeys(RemoveAt(pending, i))
  {
    RemoveKeyShrinks(pending, i);
    RemoveKeyKeeps(pending, i);
    var r := RemoveAt(pending, i);
    forall a, b | 0 <= a < b < |r| ensures KeyOf(r[a]) != KeyOf(r[b]) {
      RemoveAtIndex(pending, i, a);
      RemoveAtIndex(pending, i, b);
    }
  }

  lemma RemoveKeyShrinks(pending: seq<DrawCall>, i: nat)
    requires i < |pending| && DistinctKeys(pending)
    ensures KeySet(RemoveAt(pending, i)) <= KeySet(pending) - {KeyOf(pending[i])}
  {
    var r := RemoveAt(pending, i);
    forall k | k in KeySet(r) ensures k in KeySet(pending) && k != KeyOf(pending[i]) {
      KeySetMembers(r, k);
      KeySetMembers(pending, k);
      var j :| 0 <= j < |r| && KeyOf(r[j]) == k;
      RemoveAtIndex(pending, i, j);
    }
  }

  lemma RemoveKeyKeeps(pending: seq<DrawCall>, i: nat)
    requires i < |pending|
    ensures KeySet(pending) - {KeyOf(pending[i])} <= KeySet(RemoveAt(pending, i))
  {
    var r := RemoveAt(pending, i);
    forall k | k in KeySet(pending) && k != KeyOf(pending[i]) ensures k in KeySet(r) {
      KeySetMembers(r, k);
      KeySetMembers(pending, k);
      var j :| 0 <= j < |pending| && KeyOf(pending[j]) == k;
      var j' := if j < i then j else j - 1;
      RemoveAtIndex(pending, i, j');
    }
  }

  /** With a fresh key, dispatching a draw adds exactly its key and keeps keys distinct. */
  lemma AddKey(pending: seq<DrawCall>, call: DrawCall)
    requires DistinctKeys(pending) && KeyOf(call) !in KeySet(pending)
    ensures KeySet(pending + [call]) == KeySet(pending) + {KeyOf(call)}
    ensures DistinctKeys(pending + [call])
  {
    var r := pending + [call];
    assert r[..|r| - 1] == pending;
    forall i | 0 <= i < |pending| ensures KeyOf(r[i]) != KeyOf(call) {
      KeySetMembers(pending, KeyOf(call));
      assert r[i] == pending[i];
    }
  }

  /** The cycle ledger, the package-level globals of the source. */
  class CycleLedger {
    var cycleCost: int
    var cycleStart: int

    constructor ()
      ensures State() == Ledger(0, 0)
    {
      cycleCost, cycleStart := 0, 0;
    }

    function State(): Ledger
      reads this
    {
      Ledger(cycleCost, cycleStart)
    }

    /** addCycleCost: charge the current window and return when it started. */
    method AddCycleCost(cost: int) returns (start: int)
      modifies this
      ensures State() == Charge(old(State()), cost)
      ensures start == old(cycleStart)
    {
      cycleCost := cycleCost + cost;
      start := cycleStart;
    }

    /** removeCycleCost: refund a charge, if its window is still the current one. */
    method RemoveCycleCost(start: int, cost: int)
      modifies this
      ensures State() == Refund(old(State()), start, cost)
    {
      if cycleStart == start {
        cycleCost := cycleCost - cost;
      }
    }

    /** One iteration of sleepUntilNextMove; when not admitted the caller sleeps and retries. */
    method TryAdmit(now: int) returns (admitted: bool)
      modifies this
      ensures AdmitStep(old(State()), now) == Admission(admitted, State())
    {
      if cycleStart + ScoreWindowSecs <= now {
        cycleStart := now;
        cycleCost := 0;
        return true;
      }
      admitted := ScorePerWindow - cycleCost >= PaintOverOtherCost;
    }
  }

  /** Every pattern before the i-th has no work and the i-th proposes p. */
  ghost predicate ChosenFrom(resources: seq<Resource>, image: Image, ignore: map<int, bool>, i: int, p: Pixel)
    reads image
  {
    && 0 <= i < |resources|
    && resources[i].IsWork(image, ignore, p)
    && forall j :: 0 <= j < i ==> resources[j].HasNoWork(image, ignore)
  }

  ghost predicate NoneHasWork(resources: seq<Resource>, image: Image, ignore: map<int, bool>)
    reads image
  {
    forall i :: 0 <= i < |resources| ==> resources[i].HasNoWork(image, ignore)
  }

  /**
   * The resource loop of Work: ask the patterns in list order and take the
   * first pixel one of them proposes.
   */
  method FindWork(resources: seq<Resource>, image: Image, ignore: map<int, bool>) returns (p: Option<Pixel>)
    ensures p.None? <==> NoneHasWork(resources, image, ignore)
    ensures p.Some? ==> exists i :: ChosenFrom(resources, image, ignore, i, p.value)
    ensures p.Some? ==> !Ignored(ignore, p.value.x, p.value.y)
  {
    var i := 0;
    while i < |resources|
      invariant 0 <= i <= |resources|
      invariant forall j :: 0 <= j < i ==> resources[j].HasNoWork(image, ignore)
    {
      p := resources[i].GetWork(image, ignore);
      if p.Some? {
        assert ChosenFrom(resources, image, ignore, i, p.value);
        return;
      }
      i := i + 1;
    }
    return None;
  }

  /** What one pass of the dispatch loop did. */
  datatype Step =
    | NoData              // the canvas has version 0: nothing is read yet
    | Waiting             // the window is full: sleep and retry
    | Idle                // admitted, but no pattern has work
    | Issued(call: DrawCall)

  /** The state of one running Work loop: its patterns and its in-flight map. */
  class Dispatcher {
    const ledger: CycleLedger
    const resources: seq<Resource>
    var inFlight: map<int, bool>
    /** The draws issued and not yet completed. */
    ghost var pending: seq<DrawCall>

    ghost predicate Valid()
      reads this, ledger
    {
      && LedgerInv(ledger.State(), pending)
      && DistinctKeys(pending)
      && inFlight.Keys == KeySet(pending)
      && forall k :: k in inFlight ==> inFlight[k]
    }

    constructor (ledger: CycleLedger, resources: seq<Resource>)
      requires 0 <= ledger.cycleCost <= ScorePerWindow
      ensures Valid()
      ensures this.ledger == ledger && this.resources == resources
      ensures inFlight == map[] && pending == []
    {
      this.ledger := ledger;
      this.resources := resources;
      inFlight := map[];
      pending := [];
    }

    /** The budget holds between steps. */
    lemma WithinBudget()
      requires Valid()
      ensures 0 <= ledger.cycleCost <= ScorePerWindow
    {
      LedgerInvBounds(ledger.State(), pending);
    }

    /**
     * One pass of the Work loop at time `now`: no draw while the canvas has
     * version 0; otherwise one admission step, then the first pattern's pixel
     * is marked in flight under x | (y << 16) and charged with the cost of
     * painting over the canvas's current colour.
     */
    method DispatchStep(image: Image, now: int) returns (step: Step)
      requires Valid()
      modifies this, ledger
      ensures Valid()
      ensures image.Version() == 0 ==>
        step == NoData && ledger.State() == old(ledger.State()) &&
        inFlight == old(inFlight) && pending == old(pending)
      ensures image.Version() != 0 ==> (step == Waiting <==> !AdmitStep(old(ledger.State()), now).admitted)
      ensures image.Version() != 0 && !step.Issued? ==>
        ledger.State() == AdmitStep(old(ledger.State()), now).ledger &&
        inFlight == old(inFlight) && pending == old(pending)
      ensures step == NoData <==> image.Version() == 0
      ensures step == Idle ==> NoneHasWork(resources, image, old(inFlight))
      ensures (image.Version() != 0 && AdmitStep(old(ledger.State()), now).admitted &&
               !NoneHasWork(resources, image, old(inFlight))) ==> step.Issued?
      ensures step.Issued? ==> image.Version() != 0 && AdmitStep(old(ledger.State()), now).admitted
      ensures step.Issued? ==> exists i :: ChosenFrom(resources, image, old(inFlight), i, step.call.pixel)
      ensures step.Issued? ==> KeyOf(step.call) !in old(inFlight) && inFlight == old(inFlight)[KeyOf(step.call) := true]
      ensures step.Issued? ==> step.call.cost == DrawCallCost(image.At(step.call.pixel.x, step.call.pixel.y))
      ensures step.Issued? ==> step.call.start == AdmitStep(old(ledger.State()), now).ledger.cycleStart
      ensures step.Issued? ==> ledger.State() == Charge(AdmitStep(old(ledger.State()), now).ledger, step.call.cost)
      ensures step.Issued? ==> pending == old(pending) + [step.call]
    {
      if image.Version() == 0 {
        return NoData;
      }
      AdmitPreserves(ledger.State(), pending, now);
      var admitted := ledger.TryAdmit(now);
      if !admitted {
        return Waiting;
      }
      var p := FindWork(resources, image, inFlight);
      if p.None? {
        return Idle;
      }
      var px := p.value;
      ghost var chosen :| ChosenFrom(resources, image, old(inFlight), chosen, px);
      var cost := DrawCallCost(image.At(px.x, px.y));
      var call := Issue(px, cost);
      assert ChosenFrom(resources, image, old(inFlight), chosen, px);
      return Issued(call);
    }

    /** The tail of a pass that found work: mark the pixel in flight and charge the window. */
    method Issue(px: Pixel, cost: int) returns (call: DrawCall)
      requires Valid()
      requires PackKey(px.x, px.y) !in inFlight
      requires ledger.cycleCost + PaintOverOtherCost <= ScorePerWindow
      requires 0 <= cost <= PaintOverOtherCost
      modifies this, ledger
      ensures Valid()
      ensures call == DrawCall(px, old(ledger.cycleStart), cost)
      ensures inFlight == old(inFlight)[KeyOf(call) := true]
      ensures ledger.State() == Charge(old(ledger.State()), cost)
      ensures pending == old(pending) + [call]
    {
      ChargePreserves(ledger.State(), pending, px, cost);
      inFlight := inFlight[PackKey(px.x, px.y) := true];
      var cs := ledger.AddCycleCost(cost);
      call := DrawCall(px, cs, cost);
      AddKey(pending, call);
      pending := pending + [call];
    }

    /**
     * The end of a draw's goroutine: refund unless it succeeded or was
     * rejected with 403, then release the pixel's in-flight key.
     */
    method Complete(call: DrawCall, outcome: DrawOutcome)
      requires Valid()
      requires call in pending
      modifies this, ledger
      ensures Valid()
      ensures ledger.State() == Settle(old(ledger.State()), call, outcome)
      ensures inFlight == old(inFlight) - {KeyOf(call)}
      ensures multiset(pending) == multiset(old(pending)) - multiset{call}
    {
      ghost var i :| 0 <= i < |pending| && pending[i] == call;
      SettlePreserves(ledger.State(), pending, i, outcome);
      RemoveKey(pending, i);
      RemoveAtMultiset(pending, i);
      if outcome.Failed? && outcome.status != StatusForbidden {
        ledger.RemoveCycleCost(call.start, call.cost);
      }
      inFlight := inFlight - {KeyOf(call)};
      assert inFlight.Keys == KeySet(RemoveAt(pending, i));
      pending := RemoveAt(pending, i);
    }
  }
}
