/** The assignment history of samples to sampling points, and the bulk action that reorganises it. */
module PointAssignments {
  import opened Basics

  /** One row of the history. */
  datatype Assignment = Assignment(
    muestra: int, punto: int, porLote: bool, asignadoPor: int, asignadoEn: int,
    activa: bool, finalizadoEn: Option<int>)

  datatype Sample = Sample(id: int, lote: int, maquina: Option<int>, empresa: int)
  datatype Point = Point(id: int, maquina: int, empresa: int, activo: bool)

  /** Who asks, when, and whether the request names a batch. */
  datatype Request = Request(user: int, now: int, porLote: bool)

  datatype Response =
    | InactivePoint
    | NothingRequested
    | Denied
    | Organized(requested: nat, moved: seq<int>, kept: seq<int>, omitted: seq<int>)

  // ---------- The history table ----------

  predicate ActiveFor(row: Assignment, s: int) {
    row.activa && row.muestra == s
  }

  /** The constraint `one_active_sampling_point_per_sample`. */
  predicate OneActive(rows: seq<Assignment>) {
    forall i, j :: 0 <= i < j < |rows| && rows[i].activa && rows[j].activa ==> rows[i].muestra != rows[j].muestra
  }

  /** A row is open exactly while it is active. */
  predicate OpenIffActive(rows: seq<Assignment>) {
    forall i :: 0 <= i < |rows| ==> (rows[i].activa <==> rows[i].finalizadoEn.None?)
  }

  predicate ValidRows(rows: seq<Assignment>) {
    OneActive(rows) && OpenIffActive(rows)
  }

  /** The index of the active row of a sample, or -1. */
  function Current(rows: seq<Assignment>, s: int): (i: int)
    ensures -1 <= i < |rows|
    ensures i >= 0 ==> ActiveFor(rows[i], s)
    ensures forall j :: i < j < |rows| ==> !ActiveFor(rows[j], s)
  {
    if rows == [] then -1
    else if ActiveFor(rows[|rows| - 1], s) then |rows| - 1
    else Current(rows[..|rows| - 1], s)
  }

  predicate AlreadyAt(rows: seq<Assignment>, s: int, p: Point) {
    Current(rows, s) >= 0 && rows[Current(rows, s)].punto == p.id
  }

  function Close(row: Assignment, now: int): Assignment {
    row.(activa := false, finalizadoEn := Some(now))
  }

  function NewRow(s: int, p: Point, q: Request): Assignment {
    Assignment(s, p.id, q.porLote, q.user, q.now, true, None)
  }

  /** One sample: nothing if it is already at the point, else close its active row and add a new one. */
  function Assign(rows: seq<Assignment>, s: int, p: Point, q: Request): seq<Assignment> {
    var i := Current(rows, s);
    if AlreadyAt(rows, s, p) then rows
    else (if i >= 0 then rows[i := Close(rows[i], q.now)] else rows) + [NewRow(s, p, q)]
  }

  function AssignAll(rows: seq<Assignment>, ss: seq<int>, p: Point, q: Request): seq<Assignment> {
    if ss == [] then rows else Assign(AssignAll(rows, ss[..|ss| - 1], p, q), ss[|ss| - 1], p, q)
  }

  /** The samples that get a new row, and those already at the point when their turn comes. */
  function Moved(rows: seq<Assignment>, ss: seq<int>, p: Point, q: Request): seq<int> {
    if ss == [] then []
    else
      var s := ss[|ss| - 1];
      Moved(rows, ss[..|ss| - 1], p, q)
      + (if AlreadyAt(AssignAll(rows, ss[..|ss| - 1], p, q), s, p) then [] else [s])
  }

  function Stayed(rows: seq<Assignment>, ss: seq<int>, p: Point, q: Request): seq<int> {
    if ss == [] then []
    else
      var s := ss[|ss| - 1];
      Stayed(rows, ss[..|ss| - 1], p, q)
      + (if AlreadyAt(AssignAll(rows, ss[..|ss| - 1], p, q), s, p) then [s] else [])
  }

  // ---------- The request ----------

  /** The samples named by id or by batch. */
  predicate Requested(s: Sample, ids: set<int>, lote: Option<int>) {
    s.id in ids || (lote.Some? && s.lote == lote.value)
  }

  predicate Reachable(s: Sample, canAccess: int -> bool) {
    s.maquina.Some? && canAccess(s.empresa)
  }

  function Candidates(samples: seq<Sample>, ids: set<int>, lote: Option<int>, canAccess: int -> bool): seq<Sample> {
    if samples == [] then []
    else
      var last := samples[|samples| - 1];
      Candidates(samples[..|samples| - 1], ids, lote, canAccess)
      + (if Requested(last, ids, lote) && Reachable(last, canAccess) then [last] else [])
  }

  function Eligible(candidates: seq<Sample>, p: Point): seq<int> {
    if candidates == [] then []
    else
      var last := candidates[|candidates| - 1];
      Eligible(candidates[..|candidates| - 1], p) + (if last.maquina == Some(p.maquina) then [last.id] else [])
  }

  function Incompatible(candidates: seq<Sample>, p: Point): seq<int> {
    if candidates == [] then []
    else
      var last := candidates[|candidates| - 1];
      Incompatible(candidates[..|candidates| - 1], p) + (if last.maquina != Some(p.maquina) then [last.id] else [])
  }

  class AssignmentTable {
    var rows: seq<Assignment>

    /** The loop body: skip a sample already at the point, otherwise close its current row and add one. */
    method AssignOne(s: int, p: Point, q: Request) returns (already: bool)
      modifies this
      ensures already == AlreadyAt(old(rows), s, p)
      ensures rows == Assign(old(rows), s, p, q)
    {
      var i := Current(rows, s);
      already := i >= 0 && rows[i].punto == p.id;
      if !already {
        if i >= 0 {
          rows := rows[i := rows[i].(activa := false, finalizadoEn := Some(q.now))];
        }
        rows := rows + [NewRow(s, p, q)];
      }
    }

    /** The loop over the eligible samples and its two response lists. */
    method AssignEligible(eligible: seq<int>, p: Point, q: Request) returns (moved: seq<int>, kept: seq<int>)
      modifies this
      ensures rows == AssignAll(old(rows), eligible, p, q)
      ensures moved == Moved(old(rows), eligible, p, q)
      ensures kept == Stayed(old(rows), eligible, p, q)
    {
      hide Assign, AlreadyAt, Current;
      moved, kept := [], [];
      for n := 0 to |eligible|
        invariant rows == AssignAll(old(rows), eligible[..n], p, q)
        invariant moved == Moved(old(rows), eligible[..n], p, q)
        invariant kept == Stayed(old(rows), eligible[..n], p, q)
      {
        assert eligible[..n + 1][..n] == eligible[..n];
        var already := AssignOne(eligible[n], p, q);
        if already {
          kept := kept + [eligible[n]];
        } else {
          moved := moved + [eligible[n]];
        }
      }
      assert eligible[..|eligible|] == eligible;
    }

    /** `organize`. */
    method Organize(p: Point, samples: seq<Sample>, ids: set<int>, lote: Option<int>, user: int, now: int,
                    canAccess: int -> bool)
      returns (r: Response)
      modifies this
      ensures r.InactivePoint? <==> !p.activo
      ensures r.NothingRequested? <==> p.activo && ids == {} && lote.None?
      ensures r.Denied? <==> p.activo && !(ids == {} && lote.None?) && !canAccess(p.empresa)
      ensures !r.Organized? ==> rows == old(rows)
      ensures r.Organized? ==>
                var candidates := Candidates(samples, ids, lote, canAccess);
                var eligible := Eligible(candidates, p);
                && rows == AssignAll(old(rows), eligible, p, Request(user, now, lote.Some?))
                && r.moved == Moved(old(rows), eligible, p, Request(user, now, lote.Some?))
                && r.kept == Stayed(old(rows), eligible, p, Request(user, now, lote.Some?))
                && r.requested == |candidates| && r.omitted == Incompatible(candidates, p)
    {
      if !p.activo {
        return InactivePoint;
      }
      if ids == {} && lote.None? {
        return NothingRequested;
      }
      if !canAccess(p.empresa) {
        return Denied;
      }
      var candidates := Candidates(samples, ids, lote, canAccess);
      var eligible := Eligible(candidates, p);
      hide *;
      var moved, kept := AssignEligible(eligible, p, Request(user, now, lote.Some?));
      r := Organized(|candidates|, moved, kept, Incompatible(candidates, p));
    }
  }

  lemma {:induction false} SplitCandidates(candidates: seq<Sample>, p: Point)
    ensures |Eligible(candidates, p)| + |Incompatible(candidates, p)| == |candidates|
  {
    if candidates != [] {
      SplitCandidates(candidates[..|candidates| - 1], p);
    }
  }

  lemma {:induction false} SplitEligible(rows: seq<Assignment>, ss: seq<int>, p: Point, q: Request)
    ensures |Moved(rows, ss, p, q)| + |Stayed(rows, ss, p, q)| == |ss|
    ensures |AssignAll(rows, ss, p, q)| == |rows| + |Moved(rows, ss, p, q)|
  {
    if ss != [] {
      SplitEligible(rows, ss[..|ss| - 1], p, q);
    }
  }

  /** Assigned, unchanged and omitted samples add up to those requested, and each one assigned adds a row. */
  lemma ResponseAddsUp(rows: seq<Assignment>, candidates: seq<Sample>, p: Point, q: Request)
    ensures var eligible := Eligible(candidates, p);
            && |Moved(rows, eligible, p, q)| + |Stayed(rows, eligible, p, q)| + |Incompatible(candidates, p)| == |candidates|
            && |AssignAll(rows, eligible, p, q)| == |rows| + |Moved(rows, eligible, p, q)|
  {
    SplitCandidates(candidates, p);
    SplitEligible(rows, Eligible(candidates, p), p, q);
  }

  // ---------- What the action keeps and achieves ----------

  lemma AssignKeepsValid(rows: seq<Assignment>, s: int, p: Point, q: Request)
    requires ValidRows(rows)
    ensures ValidRows(Assign(rows, s, p, q)) && AlreadyAt(Assign(rows, s, p, q), s, p)
  {
    var i, out := Current(rows, s), Assign(rows, s, p, q);
    forall j | 0 <= j < |rows| && ActiveFor(rows[j], s)
      ensures j == i
    {
    }
    if !AlreadyAt(rows, s, p) {
      assert Current(out, s) == |out| - 1;
    }
  }

  /** Every row stays; at most it is closed, and only if its sample is the one assigned. */
  predicate KeepsHistory(before: seq<Assignment>, after: seq<Assignment>, ss: seq<int>, now: int) {
    && |before| <= |after|
    && forall i :: 0 <= i < |before| ==>
                     after[i] == before[i] || (before[i].activa && before[i].muestra in ss && after[i] == Close(before[i], now))
  }

  lemma OtherSamples(rows: seq<Assignment>, s: int, o: int, p: Point, q: Request)
    requires ValidRows(rows) && o != s
    ensures Current(Assign(rows, s, p, q), o) == Current(rows, o)
    ensures AlreadyAt(Assign(rows, s, p, q), o, p) == AlreadyAt(rows, o, p)
  {
    var out := Assign(rows, s, p, q);
    var i, j := Current(rows, o), Current(out, o);
    assert forall k :: 0 <= k < |rows| ==> (ActiveFor(out[k], o) <==> ActiveFor(rows[k], o));
    assert forall k :: |rows| <= k < |out| ==> !ActiveFor(out[k], o);
  }

  /** The history stays valid, no row is lost, and every sample listed ends with its only active row at
      the point; the active rows of other samples are untouched. */
  lemma {:induction false} AssignAllResult(rows: seq<Assignment>, ss: seq<int>, p: Point, q: Request)
    requires ValidRows(rows)
    ensures var out := AssignAll(rows, ss, p, q);
            && ValidRows(out) && KeepsHistory(rows, out, ss, q.now)
            && (forall s :: s in ss ==> AlreadyAt(out, s, p))
            && (forall s :: s !in ss ==> Current(out, s) == Current(rows, s))
            && (forall s :: s !in ss && Current(rows, s) >= 0 ==> out[Current(rows, s)] == rows[Current(rows, s)])
  {
    if ss != [] {
      var n := |ss| - 1;
      assert ss == ss[..n] + [ss[n]];
      var before := AssignAll(rows, ss[..n], p, q);
      AssignAllResult(rows, ss[..n], p, q);
      AssignKeepsValid(before, ss[n], p, q);
      forall o | o != ss[n]
        ensures Current(Assign(before, ss[n], p, q), o) == Current(before, o)
        ensures AlreadyAt(Assign(before, ss[n], p, q), o, p) == AlreadyAt(before, o, p)
      {
        OtherSamples(before, ss[n], o, p, q);
      }
    }
  }

  /** Exactly one active row for a sample that is at the point. */
  lemma OneActiveRow(rows: seq<Assignment>, s: int, p: Point)
    requires ValidRows(rows) && AlreadyAt(rows, s, p)
    ensures exists i :: 0 <= i < |rows| && ActiveFor(rows[i], s) && rows[i].punto == p.id
                        && forall j :: 0 <= j < |rows| && ActiveFor(rows[j], s) ==> j == i
  {
    var i := Current(rows, s);
    assert ActiveFor(rows[i], s);
    forall j | 0 <= j < |rows| && ActiveFor(rows[j], s)
      ensures j == i
    {
    }
  }

  /** Samples already at the point are left alone. */
  lemma {:induction false} NothingToAssign(rows: seq<Assignment>, ss: seq<int>, p: Point, q: Request)
    requires forall s :: s in ss ==> AlreadyAt(rows, s, p)
    ensures AssignAll(rows, ss, p, q) == rows
  {
    if ss != [] {
      var n := |ss| - 1;
      assert ss == ss[..n] + [ss[n]];
      NothingToAssign(rows, ss[..n], p, q);
    }
  }

  /** Repeating the action, at any later time and by anyone, adds and changes nothing. */
  lemma AssignAllTwice(rows: seq<Assignment>, ss: seq<int>, p: Point, q: Request, q': Request)
    requires ValidRows(rows)
    ensures AssignAll(AssignAll(rows, ss, p, q), ss, p, q') == AssignAll(rows, ss, p, q)
  {
    AssignAllResult(rows, ss, p, q);
    NothingToAssign(AssignAll(rows, ss, p, q), ss, p, q');
  }

  /** For a sample listed once, being moved means not having been at the point before. */
  lemma {:induction false} MovedIff(rows: seq<Assignment>, ss: seq<int>, p: Point, q: Request, s: int)
    requires ValidRows(rows) && Distinct(ss)
    ensures s in Moved(rows, ss, p, q) <==> s in ss && !AlreadyAt(rows, s, p)
    ensures s in Stayed(rows, ss, p, q) <==> s in ss && AlreadyAt(rows, s, p)
  {
    if ss != [] {
      var n := |ss| - 1;
      assert ss == ss[..n] + [ss[n]];
      MovedIff(rows, ss[..n], p, q, s);
      AssignAllResult(rows, ss[..n], p, q);
    }
  }

  // ---------- What the response says about each sample ----------

  predicate DistinctSamples(samples: seq<Sample>) {
    forall i, j :: 0 <= i < j < |samples| ==> samples[i].id != samples[j].id
  }

  predicate Chosen(s: Sample, ids: set<int>, lote: Option<int>, canAccess: int -> bool) {
    Requested(s, ids, lote) && Reachable(s, canAccess)
  }

  lemma {:induction false} OnlySamples(samples: seq<Sample>, ids: set<int>, lote: Option<int>, canAccess: int -> bool,
                                       p: Point, s: int)
    requires var candidates := Candidates(samples, ids, lote, canAccess);
             s in Eligible(candidates, p) || s in Incompatible(candidates, p)
    ensures exists i :: 0 <= i < |samples| && samples[i].id == s
  {
    var n := |samples| - 1;
    if samples[n].id != s {
      CandidatesStep(samples, ids, lote, canAccess, p);
      OnlySamples(samples[..n], ids, lote, canAccess, p, s);
    }
  }

  lemma CandidatesStep(samples: seq<Sample>, ids: set<int>, lote: Option<int>, canAccess: int -> bool, p: Point)
    requires samples != []
    ensures var n := |samples| - 1;
            var before, after := Candidates(samples[..n], ids, lote, canAccess), Candidates(samples, ids, lote, canAccess);
            var x := samples[n];
            && Eligible(after, p)
               == Eligible(before, p) + (if Chosen(x, ids, lote, canAccess) && x.maquina == Some(p.maquina) then [x.id] else [])
            && Incompatible(after, p)
               == Incompatible(before, p) + (if Chosen(x, ids, lote, canAccess) && x.maquina != Some(p.maquina) then [x.id] else [])
  {
    var n := |samples| - 1;
    var before := Candidates(samples[..n], ids, lote, canAccess);
    assert (before + [samples[n]])[..|before|] == before;
    assert before + [] == before;
  }

  /** The eligible samples are the chosen ones of the point's machine, each once; the omitted ones those of
      other machines. */
  lemma {:induction false} EligibleIff(samples: seq<Sample>, ids: set<int>, lote: Option<int>, canAccess: int -> bool,
                                       p: Point, x: Sample)
    requires DistinctSamples(samples) && x in samples
    ensures var candidates := Candidates(samples, ids, lote, canAccess);
            && (x.id in Eligible(candidates, p) <==> Chosen(x, ids, lote, canAccess) && x.maquina == Some(p.maquina))
            && (x.id in Incompatible(candidates, p) <==> Chosen(x, ids, lote, canAccess) && x.maquina != Some(p.maquina))
  {
    var n := |samples| - 1;
    var before := Candidates(samples[..n], ids, lote, canAccess);
    CandidatesStep(samples, ids, lote, canAccess, p);
    hide Candidates, Eligible, Incompatible, Chosen;
    if samples[n] == x {
      if x.id in Eligible(before, p) || x.id in Incompatible(before, p) {
        OnlySamples(samples[..n], ids, lote, canAccess, p, x.id);
      }
    } else {
      var i :| 0 <= i < |samples| && samples[i] == x;
      assert samples[..n][i] == x;
      EligibleIff(samples[..n], ids, lote, canAccess, p, x);
    }
  }

  lemma {:induction false} EligibleDistinct(samples: seq<Sample>, ids: set<int>, lote: Option<int>, canAccess: int -> bool, p: Point)
    requires DistinctSamples(samples)
    ensures Distinct(Eligible(Candidates(samples, ids, lote, canAccess), p))
  {
    if samples != [] {
      var n := |samples| - 1;
      EligibleDistinct(samples[..n], ids, lote, canAccess, p);
      CandidatesStep(samples, ids, lote, canAccess, p);
      var before := Candidates(samples[..n], ids, lote, canAccess);
      if samples[n].id in Eligible(before, p) {
        OnlySamples(samples[..n], ids, lote, canAccess, p, samples[n].id);
      }
      hide Candidates, Eligible, Chosen;
    }
  }

  /** For each sample of the database: assigned if it was chosen, belongs to the machine and was elsewhere;
      unchanged if it was there already; omitted if it was chosen and belongs to another machine. Assigned and
      unchanged samples end at the point. */
  lemma ResponseIff(rows: seq<Assignment>, samples: seq<Sample>, ids: set<int>, lote: Option<int>, canAccess: int -> bool,
                    p: Point, q: Request, x: Sample)
    requires ValidRows(rows) && DistinctSamples(samples) && x in samples
    ensures var candidates := Candidates(samples, ids, lote, canAccess);
            var eligible := Eligible(candidates, p);
            var mine := Chosen(x, ids, lote, canAccess) && x.maquina == Some(p.maquina);
            && (x.id in Moved(rows, eligible, p, q) <==> mine && !AlreadyAt(rows, x.id, p))
            && (x.id in Stayed(rows, eligible, p, q) <==> mine && AlreadyAt(rows, x.id, p))
            && (x.id in Incompatible(candidates, p) <==> Chosen(x, ids, lote, canAccess) && x.maquina != Some(p.maquina))
            && (mine ==> AlreadyAt(AssignAll(rows, eligible, p, q), x.id, p))
            && (!mine ==> Current(AssignAll(rows, eligible, p, q), x.id) == Current(rows, x.id))
  {
    var eligible := Eligible(Candidates(samples, ids, lote, canAccess), p);
    EligibleDistinct(samples, ids, lote, canAccess, p);
    EligibleIff(samples, ids, lote, canAccess, p, x);
    hide Candidates, Eligible, Incompatible, Chosen, AssignAll, Moved, Stayed, Current, AlreadyAt, ValidRows;
    MovedIff(rows, eligible, p, q, x.id);
    AssignAllResult(rows, eligible, p, q);
  }
}
