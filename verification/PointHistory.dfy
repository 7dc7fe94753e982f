/** The bulk action on sampling points, read off the rows and the samples. */
module PointHistory {
  import opened Basics
  import opened PointAssignments

  /** The sample has an active row for the point. */
  predicate IsAt(rows: seq<Assignment>, s: int, p: Point) {
    exists i :: 0 <= i < |rows| && rows[i].activa && rows[i].muestra == s && rows[i].punto == p.id
  }

  lemma IsAtIff(rows: seq<Assignment>, s: int, p: Point)
    requires ValidRows(rows)
    ensures AlreadyAt(rows, s, p) <==> IsAt(rows, s, p)
  {
    var c := Current(rows, s);
    if i :| 0 <= i < |rows| && rows[i].activa && rows[i].muestra == s && rows[i].punto == p.id {
      assert ActiveFor(rows[i], s);
      assert i == c;
    }
  }

  /** The row added for a sample: to the point, by whom, when and how it was asked for, and open. */
  predicate IsNewRow(row: Assignment, s: int, p: Point, q: Request) {
    && row.muestra == s && row.punto == p.id && row.porLote == q.porLote && row.asignadoPor == q.user && row.asignadoEn == q.now
    && row.activa && row.finalizadoEn == None
  }

  /** A row that was there: ended now if it is an active row of one of the samples for another point. */
  predicate Continues(before: Assignment, after: Assignment, ss: seq<int>, p: Point, now: int) {
    after == if before.activa && before.muestra in ss && before.punto != p.id
             then before.(activa := false, finalizadoEn := Some(now)) else before
  }

  /** What assigning the samples makes of the rows: every row is as it was, or ended now because its sample moved
      away; a new row is for a sample of the list that was not at the point, one for each. */
  predicate Assigned(rows: seq<Assignment>, out: seq<Assignment>, ss: seq<int>, p: Point, q: Request) {
    && |out| >= |rows|
    && (forall i :: 0 <= i < |rows| ==> Continues(rows[i], out[i], ss, p, q.now))
    && (forall j :: |rows| <= j < |out| ==> IsNewRow(out[j], out[j].muestra, p, q) && out[j].muestra in ss
                                            && !IsAt(rows, out[j].muestra, p))
    && (forall j, k :: |rows| <= j < k < |out| ==> out[j].muestra != out[k].muestra)
    && (forall s :: s in ss && !IsAt(rows, s, p) ==> exists j :: |rows| <= j < |out| && out[j].muestra == s)
  }

  lemma AssignByFields(rows: seq<Assignment>, s: int, p: Point, q: Request)
    requires ValidRows(rows)
    ensures Assigned(rows, Assign(rows, s, p, q), [s], p, q)
    ensures |Assign(rows, s, p, q)| == |rows| + (if IsAt(rows, s, p) then 0 else 1)
  {
    IsAtIff(rows, s, p);
    var c, out := Current(rows, s), Assign(rows, s, p, q);
    forall i | 0 <= i < |rows| && ActiveFor(rows[i], s)
      ensures i == c
    {
    }
    if AlreadyAt(rows, s, p) {
      assert out == rows;
    } else {
      assert out[|rows|].muestra == s;
    }
    hide IsAt;
  }

  lemma StaysAt(rows: seq<Assignment>, out: seq<Assignment>, ss: seq<int>, p: Point, q: Request, s: int)
    requires Assigned(rows, out, ss, p, q)
    ensures IsAt(rows, s, p) || s in ss ==> IsAt(out, s, p)
    ensures IsAt(out, s, p) ==> IsAt(rows, s, p) || s in ss
  {
    if i :| 0 <= i < |rows| && rows[i].activa && rows[i].muestra == s && rows[i].punto == p.id {
      assert Continues(rows[i], out[i], ss, p, q.now);
    } else if s in ss {
      var j :| |rows| <= j < |out| && out[j].muestra == s;
      assert IsNewRow(out[j], s, p, q);
    }
    if i :| 0 <= i < |out| && out[i].activa && out[i].muestra == s && out[i].punto == p.id {
      assert i < |rows| ==> Continues(rows[i], out[i], ss, p, q.now);
    }
  }

  lemma AssignedThen(rows: seq<Assignment>, mid: seq<Assignment>, out: seq<Assignment>, ss: seq<int>, s: int, p: Point, q: Request)
    requires Assigned(rows, mid, ss, p, q) && Assigned(mid, out, [s], p, q)
    ensures Assigned(rows, out, ss + [s], p, q)
  {
    forall o {
      StaysAt(rows, mid, ss, p, q, o);
    }
    hide IsAt;
    forall j | |rows| <= j < |mid|
      ensures out[j] == mid[j]
    {
      assert Continues(mid[j], out[j], [s], p, q.now) && IsNewRow(mid[j], mid[j].muestra, p, q);
    }
    forall i | 0 <= i < |rows|
      ensures Continues(rows[i], out[i], ss + [s], p, q.now)
    {
      assert Continues(rows[i], mid[i], ss, p, q.now) && Continues(mid[i], out[i], [s], p, q.now);
    }
    forall o | o in ss + [s] && !IsAt(rows, o, p)
      ensures exists j :: |rows| <= j < |out| && out[j].muestra == o
    {
      if o in ss {
        var j :| |rows| <= j < |mid| && mid[j].muestra == o;
        assert out[j].muestra == o;
      } else {
        var j :| |mid| <= j < |out| && out[j].muestra == o;
      }
    }
  }

  lemma {:induction false} AssignAllByFields(rows: seq<Assignment>, ss: seq<int>, p: Point, q: Request)
    requires ValidRows(rows)
    ensures Assigned(rows, AssignAll(rows, ss, p, q), ss, p, q)
  {
    if ss == [] {
      assert forall i :: 0 <= i < |rows| ==> Continues(rows[i], rows[i], ss, p, q.now);
    } else {
      var n := |ss| - 1;
      var mid := AssignAll(rows, ss[..n], p, q);
      assert ss == ss[..n] + [ss[n]];
      AssignAllByFields(rows, ss[..n], p, q);
      AssignAllResult(rows, ss[..n], p, q);
      AssignByFields(mid, ss[n], p, q);
      hide Assigned, Assign, ValidRows;
      AssignedThen(rows, mid, AssignAll(rows, ss, p, q), ss[..n], ss[n], p, q);
    }
  }

  // ---------- The response ----------

  function IdsOf(samples: seq<Sample>): seq<int> {
    seq(|samples|, i requires 0 <= i < |samples| => samples[i].id)
  }

  /** A sample asked for, by id or batch, that has a machine which the caller may see. */
  predicate Asked(x: Sample, ids: set<int>, lote: Option<int>, canAccess: int -> bool) {
    (x.id in ids || lote == Some(x.lote)) && x.maquina != None && canAccess(x.empresa)
  }

  lemma {:induction false} CandidatesAre(samples: seq<Sample>, ids: set<int>, lote: Option<int>, canAccess: int -> bool)
    ensures Candidates(samples, ids, lote, canAccess) == Filter(samples, x => Asked(x, ids, lote, canAccess))
  {
    if samples != [] {
      CandidatesAre(samples[..|samples| - 1], ids, lote, canAccess);
      FilterLast(samples, x => Asked(x, ids, lote, canAccess));
    }
  }

  lemma {:induction false} MachinesAre(candidates: seq<Sample>, p: Point)
    ensures Eligible(candidates, p) == IdsOf(Filter(candidates, (x: Sample) => x.maquina == Some(p.maquina)))
    ensures Incompatible(candidates, p) == IdsOf(Filter(candidates, (x: Sample) => x.maquina != Some(p.maquina)))
  {
    if candidates != [] {
      MachinesAre(candidates[..|candidates| - 1], p);
      FilterLast(candidates, (x: Sample) => x.maquina == Some(p.maquina));
      FilterLast(candidates, (x: Sample) => x.maquina != Some(p.maquina));
    }
  }

  lemma {:induction false} MovedAre(rows: seq<Assignment>, ss: seq<int>, p: Point, q: Request)
    requires ValidRows(rows) && Distinct(ss)
    ensures Moved(rows, ss, p, q) == Filter(ss, s => !IsAt(rows, s, p))
    ensures Stayed(rows, ss, p, q) == Filter(ss, s => IsAt(rows, s, p))
  {
    if ss != [] {
      var n := |ss| - 1;
      var mid := AssignAll(rows, ss[..n], p, q);
      MovedAre(rows, ss[..n], p, q);
      AssignAllResult(rows, ss[..n], p, q);
      IsAtIff(mid, ss[n], p);
      AssignAllByFields(rows, ss[..n], p, q);
      StaysAt(rows, mid, ss[..n], p, q, ss[n]);
      FilterLast(ss, s => !IsAt(rows, s, p));
      FilterLast(ss, s => IsAt(rows, s, p));
      hide Assigned, IsAt, AssignAll, ValidRows, AlreadyAt, Filter, KeepsHistory;
    }
  }

  /** The response: of the samples asked for, those of other machines are omitted; of the rest, those not at the point
      are assigned and the others stay; each list in the order of the samples. */
  lemma ResponseByFields(rows: seq<Assignment>, samples: seq<Sample>, ids: set<int>, lote: Option<int>, canAccess: int -> bool,
                         p: Point, q: Request)
    requires ValidRows(rows) && DistinctSamples(samples)
    ensures var asked := Filter(samples, x => Asked(x, ids, lote, canAccess));
            var mine := IdsOf(Filter(asked, (x: Sample) => x.maquina == Some(p.maquina)));
            var candidates := Candidates(samples, ids, lote, canAccess);
            && |candidates| == |asked| && Eligible(candidates, p) == mine
            && Incompatible(candidates, p) == IdsOf(Filter(asked, (x: Sample) => x.maquina != Some(p.maquina)))
            && Moved(rows, mine, p, q) == Filter(mine, s => !IsAt(rows, s, p))
            && Stayed(rows, mine, p, q) == Filter(mine, s => IsAt(rows, s, p))
  {
    CandidatesAre(samples, ids, lote, canAccess);
    MachinesAre(Candidates(samples, ids, lote, canAccess), p);
    EligibleDistinct(samples, ids, lote, canAccess, p);
    hide Candidates, Eligible, Incompatible, ValidRows, DistinctSamples, Filter, IdsOf;
    MovedAre(rows, Eligible(Candidates(samples, ids, lote, canAccess), p), p, q);
  }
}
