/**
 Any number of equal reserves racing on one fresh counter. Each touches the
 counter first and is admitted later under the registry's lock, so the touch
 of one may fall anywhere between the steps of the others.
 */
module ReserveInterleaving {
  import opened Prelude
  import opened Counters
  import opened InMemory
  import opened Reservations
  import ReservingStorage

  /** The shared request: how much, for how long, and when each caller read its clock. */
  datatype Race = Race(c: Counter, amount: nat, ttl: nat, nows: seq<nat>)

  datatype Pc = Start | Touched(view: View) | Admitted | Denied

  datatype State = State(cells: Cells, reg: Registry, pcs: seq<Pc>)

  function RequestOf(race: Race, t: nat): Request
    requires t < |race.nows|
  {
    Request(t, race.amount, race.amount, race.ttl, race.nows[t])
  }

  function Step(race: Race, s: State, t: nat): (r: State)
    requires t < |race.nows| == |s.pcs|
    ensures |r.pcs| == |s.pcs|
  {
    var now := race.nows[t];
    match s.pcs[t]
    case Start =>
      var cells := Updated(s.cells, race.c, 0, now);
      var cell := cells[race.c.key];
      s.(cells := cells, pcs := s.pcs[t := Touched(View(cell.value, cell.Ttl(now)))])
    case Touched(view) =>
      if Fits(s.reg, race.c, view, RequestOf(race, t)) then
        s.(reg := Placed(s.reg, race.c, view, RequestOf(race, t)), pcs := s.pcs[t := Admitted])
      else
        s.(pcs := s.pcs[t := Denied])
    case _ => s
  }

  function Run(race: Race, s: State, schedule: seq<nat>): (r: State)
    requires |s.pcs| == |race.nows| && forall i :: 0 <= i < |schedule| ==> schedule[i] < |race.nows|
    ensures |r.pcs| == |s.pcs|
    decreases |schedule|
  {
    if schedule == [] then s else Run(race, Step(race, s, schedule[0]), schedule[1..])
  }

  function Initial(race: Race): State {
    State(map[], map[], seq(|race.nows|, _ => Start))
  }

  /** All callers fall in one window, within the life of every hold. */
  ghost predicate OneWindow(race: Race) {
    forall i, j :: 0 <= i < |race.nows| && 0 <= j < |race.nows| ==>
      race.nows[i] < race.nows[j] + Min(race.c.window, race.ttl)
  }

  function Count(pcs: seq<Pc>): nat {
    if pcs == [] then 0 else Count(pcs[..|pcs| - 1]) + if pcs[|pcs| - 1].Admitted? then 1 else 0
  }

  lemma {:induction false} CountChange(pcs: seq<Pc>, t: nat, pc: Pc)
    requires t < |pcs| && !pcs[t].Admitted?
    ensures Count(pcs[t := pc]) == Count(pcs) + if pc.Admitted? then 1 else 0
    decreases |pcs|
  {
    var front, after := pcs[..|pcs| - 1], pcs[t := pc];
    if t == |pcs| - 1 {
      assert after[..|pcs| - 1] == front;
    } else {
      assert after[..|pcs| - 1] == front[t := pc];
      CountChange(front, t, pc);
    }
  }

  lemma {:induction false} CountAll(pcs: seq<Pc>)
    requires forall i :: 0 <= i < |pcs| ==> pcs[i].Admitted?
    ensures Count(pcs) == |pcs|
    decreases |pcs|
  {
    if pcs == [] {
    } else {
      CountAll(pcs[..|pcs| - 1]);
    }
  }

  lemma {:induction false} CountNone(pcs: seq<Pc>)
    requires forall i :: 0 <= i < |pcs| ==> !pcs[i].Admitted?
    ensures Count(pcs) == 0
    decreases |pcs|
  {
    if pcs == [] {
    } else {
      CountNone(pcs[..|pcs| - 1]);
    }
  }

  lemma {:induction false} CountAtMost(pcs: seq<Pc>)
    ensures Count(pcs) <= |pcs|
    decreases |pcs|
  {
    if pcs == [] {
    } else {
      CountAtMost(pcs[..|pcs| - 1]);
    }
  }

  /** `n` times `a`, counted up. */
  ghost function Times(n: nat, a: nat): nat {
    if n == 0 then 0 else Times(n - 1, a) + a
  }

  lemma {:induction false} TimesIsProduct(n: nat, a: nat)
    ensures Times(n, a) == n * a
  {
    if n == 0 {
    } else {
      TimesIsProduct(n - 1, a);
    }
  }

  /** Every caller's clock is before `t`. */
  ghost predicate AllBefore(race: Race, t: nat) {
    forall i :: 0 <= i < |race.nows| ==> race.nows[i] < t
  }

  /** `holds` are `n` holds of the common amount, none of which expires during the race. */
  ghost predicate Uniform(race: Race, holds: seq<Hold>) {
    forall i :: 0 <= i < |holds| ==> holds[i].amount == race.amount && AllBefore(race, holds[i].expiresAt)
  }

  lemma {:induction false} UniformTotal(race: Race, holds: seq<Hold>, t: nat)
    requires Uniform(race, holds) && t < |race.nows|
    ensures Live(holds, race.nows[t]) == holds && Total(holds) == Times(|holds|, race.amount)
    decreases |holds|
  {
    if holds == [] {
    } else {
      var front, last := holds[..|holds| - 1], holds[|holds| - 1];
      UniformTotal(race, front, t);
      assert holds == front + [last] && AllBefore(race, last.expiresAt);
    }
  }

  /** The counter is fresh, or reads 0 in a window that outlasts the race. */
  ghost predicate Untouched(race: Race, s: State) {
    race.c.key in s.cells ==> s.cells[race.c.key].value == 0 && AllBefore(race, s.cells[race.c.key].expiry)
  }

  ghost predicate ViewsFresh(race: Race, s: State)
    requires |s.pcs| == |race.nows|
  {
    forall t :: 0 <= t < |s.pcs| && s.pcs[t].Touched? ==>
      s.pcs[t].view.value == 0 && AllBefore(race, race.nows[t] + s.pcs[t].view.windowTtl)
  }

  ghost predicate Books(race: Race, s: State, n: nat) {
    if race.c.key in s.reg then
      |s.reg[race.c.key].holds| == n && Uniform(race, s.reg[race.c.key].holds) && AllBefore(race, s.reg[race.c.key].expiresAt)
    else n == 0
  }

  /** Someone was turned away only once nothing more fits. */
  ghost predicate FullIfDenied(race: Race, s: State, n: nat) {
    (exists t :: 0 <= t < |s.pcs| && s.pcs[t].Denied?) ==> Times(n + 1, race.amount) > race.c.maxValue
  }

  ghost predicate Inv(race: Race, s: State) {
    && |s.pcs| == |race.nows| && Untouched(race, s) && ViewsFresh(race, s)
    && Books(race, s, Count(s.pcs)) && FullIfDenied(race, s, Count(s.pcs))
    && Times(Count(s.pcs), race.amount) <= race.c.maxValue
  }

  lemma {:induction false} TouchStep(race: Race, s: State, t: nat)
    requires Inv(race, s) && OneWindow(race) && t < |race.nows| && s.pcs[t].Start?
    ensures Inv(race, Step(race, s, t))
  {
    var r := Step(race, s, t);
    CountChange(s.pcs, t, r.pcs[t]);
    forall i | 0 <= i < |race.nows|
      ensures race.nows[i] < r.cells[race.c.key].expiry
    {
      assert race.nows[i] < race.nows[t] + Min(race.c.window, race.ttl);
    }
    var cell := r.cells[race.c.key];
    assert cell.value == 0 && race.nows[t] + cell.Ttl(race.nows[t]) == cell.expiry;
    assert forall u :: 0 <= u < |r.pcs| && r.pcs[u].Denied? ==> s.pcs[u].Denied?;
  }

  lemma {:induction false} OutstandingIs(race: Race, s: State, t: nat)
    requires Inv(race, s) && t < |race.nows|
    ensures Outstanding(s.reg, race.c.key, race.nows[t]) == Times(Count(s.pcs), race.amount)
    ensures race.c.key in s.reg ==> LiveHolds(s.reg, race.c.key, race.nows[t]) == s.reg[race.c.key].holds
  {
    if race.c.key in s.reg {
      UniformTotal(race, s.reg[race.c.key].holds, t);
    }
  }

  lemma {:induction false} AdmittedBooks(race: Race, s: State, t: nat)
    requires Inv(race, s) && OneWindow(race) && t < |race.nows| && s.pcs[t].Touched?
    ensures Books(race, s.(reg := Placed(s.reg, race.c, s.pcs[t].view, RequestOf(race, t))), Count(s.pcs) + 1)
  {
    var view, k := s.pcs[t].view, race.c.key;
    OutstandingIs(race, s, t);
    var before, h := LiveHolds(s.reg, k, race.nows[t]), NewHold(view, RequestOf(race, t));
    assert Placed(s.reg, race.c, view, RequestOf(race, t))[k].holds == before + [h];
    forall i | 0 <= i < |race.nows|
      ensures race.nows[i] < h.expiresAt
    {
      assert race.nows[i] < race.nows[t] + Min(race.c.window, race.ttl);
    }
    assert AllBefore(race, h.expiresAt);
  }

  lemma {:induction false} DecidedKeepsViews(race: Race, s: State, t: nat, r: State)
    requires |s.pcs| == |race.nows| && t < |s.pcs| && ViewsFresh(race, s)
    requires (r.pcs == s.pcs[t := Admitted] || r.pcs == s.pcs[t := Denied]) && r.cells == s.cells
    ensures ViewsFresh(race, r)
  {
    forall u | 0 <= u < |r.pcs| && r.pcs[u].Touched?
      ensures r.pcs[u].view.value == 0 && AllBefore(race, race.nows[u] + r.pcs[u].view.windowTtl)
    {
      assert u != t && r.pcs[u] == s.pcs[u];
    }
  }

  ghost predicate Decides(race: Race, s: State, t: nat, fits: bool)
    requires |s.pcs| == |race.nows|
  {
    t < |race.nows| && s.pcs[t].Touched? && Fits(s.reg, race.c, s.pcs[t].view, RequestOf(race, t)) == fits
  }

  /** Room is decided by the holds alone: the counter itself reads zero. */
  lemma {:induction false} FitsIs(race: Race, s: State, t: nat, fits: bool)
    requires Inv(race, s) && Decides(race, s, t, fits)
    ensures fits <==> Times(Count(s.pcs) + 1, race.amount) <= race.c.maxValue
  {
    OutstandingIs(race, s, t);
  }

  lemma {:induction false} AdmitStep(race: Race, s: State, t: nat)
    requires Inv(race, s) && OneWindow(race) && Decides(race, s, t, true)
    ensures Inv(race, Step(race, s, t))
  {
    var r, n := Step(race, s, t), Count(s.pcs);
    FitsIs(race, s, t, true);
    CountChange(s.pcs, t, Admitted);
    DecidedKeepsViews(race, s, t, r);
    AdmittedBooks(race, s, t);
    assert forall u :: 0 <= u < |s.pcs| ==> !s.pcs[u].Denied?;
    assert forall u :: 0 <= u < |r.pcs| ==> r.pcs[u] == if u == t then Admitted else s.pcs[u];
  }

  lemma {:induction false} DenyStep(race: Race, s: State, t: nat)
    requires Inv(race, s) && OneWindow(race) && Decides(race, s, t, false)
    ensures Inv(race, Step(race, s, t))
  {
    FitsIs(race, s, t, false);
    CountChange(s.pcs, t, Denied);
    DecidedKeepsViews(race, s, t, Step(race, s, t));
  }

  lemma {:induction false} InvRun(race: Race, s: State, schedule: seq<nat>)
    requires Inv(race, s) && OneWindow(race)
    requires forall i :: 0 <= i < |schedule| ==> schedule[i] < |race.nows|
    ensures Inv(race, Run(race, s, schedule))
    decreases |schedule|
  {
    if schedule == [] {
    } else {
      var t := schedule[0];
      if s.pcs[t].Start? {
        TouchStep(race, s, t);
      } else if Decides(race, s, t, true) {
        AdmitStep(race, s, t);
      } else if Decides(race, s, t, false) {
        DenyStep(race, s, t);
      }
      InvRun(race, Step(race, s, t), schedule[1..]);
    }
  }

  lemma {:induction false} MulMonotone(x: nat, y: nat, a: nat)
    ensures x <= y ==> x * a <= y * a
  {
  }

  lemma {:induction false} QuotientAtLeast(n: nat, a: nat, max: nat)
    requires a > 0 && n * a <= max
    ensures n <= max / a
    ensures max < (n + 1) * a ==> n == max / a
  {
    var q := max / a;
    assert q * a <= max < (q + 1) * a;
    MulMonotone(q + 1, n, a);
    MulMonotone(n + 1, q, a);
  }

  /**
   However the touches and admissions of `N` equal reserves interleave, exactly
   `min(N, max / amount)` of them are admitted: never more, never fewer.
   */
  lemma {:induction false} EqualReservesAdmitExactlyWhatFits(race: Race, schedule: seq<nat>)
    requires OneWindow(race) && race.amount > 0
    requires forall i :: 0 <= i < |schedule| ==> schedule[i] < |race.nows|
    requires var s := Run(race, Initial(race), schedule);
             forall t :: 0 <= t < |s.pcs| ==> s.pcs[t].Admitted? || s.pcs[t].Denied?
    ensures Count(Run(race, Initial(race), schedule).pcs) == Min(|race.nows|, race.c.maxValue / race.amount)
  {
    var s := Run(race, Initial(race), schedule);
    CountNone(Initial(race).pcs);
    InvRun(race, Initial(race), schedule);
    CountAtMost(s.pcs);
    var n := Count(s.pcs);
    TimesIsProduct(n, race.amount);
    TimesIsProduct(n + 1, race.amount);
    QuotientAtLeast(n, race.amount, race.c.maxValue);
    if forall t :: 0 <= t < |s.pcs| ==> s.pcs[t].Admitted? {
      CountAll(s.pcs);
    }
  }

  /** A caller whose two steps nobody interrupts does what a whole reserve of the storage does. */
  lemma {:induction false} UninterruptedIsReserve(race: Race, s: State, t: nat)
    requires t < |race.nows| == |s.pcs| && s.pcs[t].Start? && race.amount > 0
    ensures var r, cs, req := Step(race, Step(race, s, t), t), [race.c], RequestOf(race, t);
            var views := ReservingStorage.ViewsOf(r.cells, cs, req.now);
            && r.cells == UpdatedAll(s.cells, cs, 0, req.now) && r.reg == Reserved(s.reg, cs, views, req)
            && r.pcs[t] == if FitsAll(s.reg, cs, views, req) then Admitted else Denied
  {
    var cs, req, cells := [race.c], RequestOf(race, t), Updated(s.cells, race.c, 0, race.nows[t]);
    var views := ReservingStorage.ViewsOf(cells, cs, req.now);
    assert cs[1..] == [] && views[1..] == [] && cs[0] == race.c;
    assert UpdatedAll(s.cells, cs, 0, req.now) == UpdatedAll(cells, [], 0, req.now) == cells;
    assert FitsAll(s.reg, cs, views, req) <==> Fits(s.reg, cs[0], views[0], req);
    var placed := Placed(s.reg, race.c, views[0], req);
    assert PlacedAll(s.reg, cs, views, req) == PlacedAll(placed, [], [], req) == placed;
  }
}
