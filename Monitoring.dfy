/** The continuous-monitoring policy: how many iterations poll, what each
    iteration keeps, and what is handed to the save routine and when. */
module Monitoring {
  import opened Wrappers
  import opened Codec
  import opened RuntimeInfo
  import opened CellVoltages
  import opened Protocol

  /** A save happens after every iteration whose number is a multiple of
      this. */
  const SAVE_EVERY: nat := 10

  /** One iteration as the environment lets it happen: the seconds elapsed
      since monitoring started when the iteration begins, and the transport
      behaviour for its runtime query and its (up to two) cell requests.
      Running out of cycles models cancellation during the sleep between
      iterations. */
  datatype Cycle = Cycle(elapsed: nat, runtime: Link, cellFirst: Link, cellSecond: Link)

  /** What one iteration reads: the runtime slot right after the runtime
      query, the cell slot right after the cell query. */
  datatype Poll = Poll(runtime: Option<RuntimeSnapshot>, cells: Option<CellPack>)

  /** The two lists handed to one save. */
  datatype Saved = Saved(runtime: seq<RuntimeSnapshot>, cells: seq<CellPack>)

  /** The number of iterations that poll before the loop breaks on the
      duration limit (a zero duration means no limit) or the cycles run out. */
  function Rounds(cycles: seq<Cycle>, duration: nat): (n: nat)
    ensures n <= |cycles|
    ensures forall k :: 0 <= k < n ==> duration == 0 || cycles[k].elapsed < duration
    ensures n < |cycles| ==> duration > 0 && cycles[n].elapsed >= duration
    ensures duration == 0 ==> n == |cycles|
  {
    RoundsFrom(cycles, duration, 0)
  }

  function RoundsFrom(cycles: seq<Cycle>, duration: nat, i: nat): (n: nat)
    requires i <= |cycles|
    ensures i <= n <= |cycles|
    ensures forall k :: i <= k < n ==> duration == 0 || cycles[k].elapsed < duration
    ensures n < |cycles| ==> duration > 0 && cycles[n].elapsed >= duration
    ensures duration == 0 ==> n == |cycles|
    decreases |cycles| - i
  {
    if i == |cycles| || (duration > 0 && cycles[i].elapsed >= duration) then i
    else RoundsFrom(cycles, duration, i + 1)
  }

  /** One iteration's effect on the client: the runtime query, then the
      cell-voltage query; returns the state between them and after. */
  function Iterate(st: State, c: Cycle): (State, State)
  {
    var mid := Query(st, CMD_RUNTIME_INFO, c.runtime);
    (mid, CellQuery(mid, c.cellFirst, c.cellSecond))
  }

  /** The client state and the polls after the first `n` iterations. */
  function Run(st: State, cycles: seq<Cycle>, n: nat): (r: (State, seq<Poll>))
    requires n <= |cycles|
    ensures |r.1| == n
  {
    if n == 0 then (st, [])
    else
      var prev := Run(st, cycles, n - 1);
      var it := Iterate(prev.0, cycles[n - 1]);
      (it.1, prev.1 + [Poll(it.0.runtimeData, it.1.cellData)])
  }

  /** The lists accumulated over the polls: a reading is kept when saving is
      on and the slot held something. */
  function Kept(ps: seq<Poll>, saveData: bool): Saved
  {
    if ps == [] then Saved([], [])
    else
      var k := Kept(ps[..|ps| - 1], saveData);
      var p := ps[|ps| - 1];
      Saved(k.runtime + (if saveData && p.runtime.Some? then [p.runtime.value] else []),
            k.cells + (if saveData && p.cells.Some? then [p.cells.value] else []))
  }

  /** The periodic saves made during the polls. */
  function Periodic(ps: seq<Poll>, saveData: bool): seq<Saved>
  {
    if ps == [] then []
    else Periodic(ps[..|ps| - 1], saveData) + (if saveData && |ps| % SAVE_EVERY == 0 then [Kept(ps, saveData)] else [])
  }

  /** Every save of a monitoring run: the periodic ones, then the final one
      made on the way out whenever saving is on. */
  function Saves(ps: seq<Poll>, saveData: bool): seq<Saved>
  {
    Periodic(ps, saveData) + (if saveData then [Kept(ps, saveData)] else [])
  }

  /** One more poll extends the kept lists by its readings. */
  lemma KeptSnoc(ps: seq<Poll>, p: Poll, saveData: bool)
    ensures Kept(ps + [p], saveData)
      == Saved(Kept(ps, saveData).runtime + (if saveData && p.runtime.Some? then [p.runtime.value] else []),
               Kept(ps, saveData).cells + (if saveData && p.cells.Some? then [p.cells.value] else []))
  {
    assert (ps + [p])[..|ps|] == ps;
  }

  /** One more poll adds a periodic save exactly when its iteration number
      is a multiple of ten. */
  lemma PeriodicSnoc(ps: seq<Poll>, p: Poll, saveData: bool)
    ensures Periodic(ps + [p], saveData)
      == Periodic(ps, saveData) + (if saveData && (|ps| + 1) % SAVE_EVERY == 0 then [Kept(ps + [p], saveData)] else [])
  {
    assert (ps + [p])[..|ps|] == ps;
  }

  /** With saving off nothing is kept. */
  lemma {:induction false} KeptNothing(ps: seq<Poll>)
    ensures Kept(ps, false) == Saved([], [])
  {
    if ps != [] {
      KeptNothing(ps[..|ps| - 1]);
    }
  }

  /** With saving off nothing is ever saved. */
  lemma {:induction false} NoSavesWhenOff(ps: seq<Poll>)
    ensures Saves(ps, false) == []
  {
    if ps != [] {
      NoSavesWhenOff(ps[..|ps| - 1]);
    }
  }

  /** What is kept, with saving on, over the first 10(i+1) iterations. */
  function KeptAfter(ps: seq<Poll>, i: nat): Saved
    requires SAVE_EVERY * (i + 1) <= |ps|
  {
    Kept(ps[..SAVE_EVERY * (i + 1)], true)
  }

  /** With saving on there is one periodic save per ten iterations, the i-th
      holding what was kept over the first 10(i+1) iterations. */
  lemma {:induction false} PeriodicSchedule(ps: seq<Poll>)
    ensures |Periodic(ps, true)| == |ps| / SAVE_EVERY
    ensures forall i :: 0 <= i < |ps| / SAVE_EVERY ==> Periodic(ps, true)[i] == KeptAfter(ps, i)
  {
    if ps != [] {
      var init := ps[..|ps| - 1];
      PeriodicSchedule(init);
      forall i | 0 <= i < |init| / SAVE_EVERY
        ensures KeptAfter(init, i) == KeptAfter(ps, i)
      {
        assert init[..SAVE_EVERY * (i + 1)] == ps[..SAVE_EVERY * (i + 1)];
      }
      if |ps| % SAVE_EVERY == 0 {
        assert ps[..SAVE_EVERY * (|ps| / SAVE_EVERY)] == ps;
      }
    }
  }

  /** With saving on, whatever way the loop ends, the last save holds every
      reading that was kept. */
  lemma FinalSaveHoldsAll(ps: seq<Poll>)
    ensures |Saves(ps, true)| == |ps| / SAVE_EVERY + 1
    ensures Saves(ps, true)[|ps| / SAVE_EVERY] == Kept(ps, true)
  {
    PeriodicSchedule(ps);
  }

  /** The lists only grow: what is kept after the first `k` iterations is a
      prefix of what is kept at the end. */
  lemma {:induction false} KeptGrows(ps: seq<Poll>, k: nat, saveData: bool)
    requires k <= |ps|
    ensures Kept(ps[..k], saveData).runtime <= Kept(ps, saveData).runtime
    ensures Kept(ps[..k], saveData).cells <= Kept(ps, saveData).cells
    decreases |ps|
  {
    if k < |ps| {
      var init := ps[..|ps| - 1];
      assert init[..k] == ps[..k];
      KeptGrows(init, k, saveData);
    } else {
      assert ps[..k] == ps;
    }
  }

  /** With saving on, a runtime reading is kept exactly when some iteration
      read it. */
  lemma {:induction false} KeptRuntimeReadings(ps: seq<Poll>, x: RuntimeSnapshot)
    ensures x in Kept(ps, true).runtime <==> exists k :: 0 <= k < |ps| && ps[k].runtime == Some(x)
  {
    if ps != [] {
      var init := ps[..|ps| - 1];
      KeptRuntimeReadings(init, x);
      if exists k :: 0 <= k < |ps| && ps[k].runtime == Some(x) {
        var k :| 0 <= k < |ps| && ps[k].runtime == Some(x);
        if k < |init| {
          assert init[k] == ps[k];
        }
      }
      if exists k :: 0 <= k < |init| && init[k].runtime == Some(x) {
        var k :| 0 <= k < |init| && init[k].runtime == Some(x);
        assert ps[k] == init[k];
      }
    }
  }

  /** With saving on, a cell reading is kept exactly when some iteration
      read it. */
  lemma {:induction false} KeptCellReadings(ps: seq<Poll>, x: CellPack)
    ensures x in Kept(ps, true).cells <==> exists k :: 0 <= k < |ps| && ps[k].cells == Some(x)
  {
    if ps != [] {
      var init := ps[..|ps| - 1];
      KeptCellReadings(init, x);
      if exists k :: 0 <= k < |ps| && ps[k].cells == Some(x) {
        var k :| 0 <= k < |ps| && ps[k].cells == Some(x);
        if k < |init| {
          assert init[k] == ps[k];
        }
      }
      if exists k :: 0 <= k < |init| && init[k].cells == Some(x) {
        var k :| 0 <= k < |init| && init[k].cells == Some(x);
        assert ps[k] == init[k];
      }
    }
  }
}
