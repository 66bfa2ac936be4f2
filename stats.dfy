/** `GET /api/admin/stats` (backend/server.js): the two aggregate queries over
    `inscriptions`. `SUM(statut = 'x')` skips rows whose status is NULL and is
    itself NULL when no row has a status, which is why the per-status counts are
    optional. `total_etablissements` is `COUNT(*)` over `inscriptions`, so it
    counts registrations, not schools. */
module Stats {
  import opened Common
  import opened Records

  /** The number of rows whose status is exactly `s`. */
  function CountStatus(regs: seq<Registration>, s: string): (n: nat)
    ensures n <= |regs|
    decreases |regs|
  {
    if regs == [] then 0
    else CountStatus(regs[..|regs| - 1], s) + (if regs[|regs| - 1].statut == Some(s) then 1 else 0)
  }

  predicate AnyStatus(regs: seq<Registration>)
  {
    exists r :: r in regs && r.statut.Some?
  }

  /** SQL `SUM(statut = s)`. */
  function SumStatus(regs: seq<Registration>, s: string): Option<nat>
  {
    if AnyStatus(regs) then Some(CountStatus(regs, s)) else None
  }

  /** The schools that have at least one registration. */
  function ActiveSchools(regs: seq<Registration>): set<int>
  {
    set r | r in regs :: r.etablissementId
  }

  datatype StatsReport = StatsReport(
    total: nat, enAttente: Option<nat>, accepte: Option<nat>, refuse: Option<nat>,
    totalEtablissements: nat, etablissementsActifs: nat)

  /** Distinct school ids are never more than the rows, and at least one when there is a row. */
  lemma {:induction false} ActiveSchoolsBounds(regs: seq<Registration>)
    ensures |ActiveSchools(regs)| <= |regs|
    ensures regs != [] ==> |ActiveSchools(regs)| >= 1
    decreases |regs|
  {
    if regs != [] {
      var init := regs[..|regs| - 1];
      var last := regs[|regs| - 1];
      assert regs == init + [last];
      assert ActiveSchools(regs) == ActiveSchools(init) + {last.etablissementId};
      ActiveSchoolsBounds(init);
    }
  }

  /** The report: `total` and `total_etablissements` count every row, each status
      field counts its own status, `etablissements_actifs` counts distinct schools. */
  function Stats(regs: seq<Registration>): (r: StatsReport)
    ensures r.total == |regs| && r.totalEtablissements == |regs|
    ensures r.etablissementsActifs <= r.total
    ensures r.total > 0 ==> r.etablissementsActifs > 0
    ensures regs == [] ==> r.enAttente.None? && r.accepte.None? && r.refuse.None?
    ensures r.enAttente == SumStatus(regs, "en_attente") && r.accepte == SumStatus(regs, "accepte")
            && r.refuse == SumStatus(regs, "refuse")
    ensures r.enAttente.Some? <==> exists x :: x in regs && x.statut.Some?
    ensures r.etablissementsActifs == |ActiveSchools(regs)|
  {
    ActiveSchoolsBounds(regs);
    StatsReport(|regs|, SumStatus(regs, "en_attente"), SumStatus(regs, "accepte"),
                SumStatus(regs, "refuse"), |regs|, |ActiveSchools(regs)|)
  }

  predicate KnownStatus(st: Option<string>)
  {
    st == Some("en_attente") || st == Some("accepte") || st == Some("refuse")
  }

  /** The rows whose status is NULL or outside the three known values. */
  function CountUnknown(regs: seq<Registration>): nat
    decreases |regs|
  {
    if regs == [] then 0
    else CountUnknown(regs[..|regs| - 1]) + (if KnownStatus(regs[|regs| - 1].statut) then 0 else 1)
  }

  /** Every row is counted once: under one of the three statuses or as unknown. */
  lemma {:induction false} CountsPartitionRows(regs: seq<Registration>)
    ensures CountStatus(regs, "en_attente") + CountStatus(regs, "accepte") + CountStatus(regs, "refuse")
            + CountUnknown(regs) == |regs|
    ensures CountUnknown(regs) == 0 <==> forall r :: r in regs ==> KnownStatus(r.statut)
    decreases |regs|
  {
    if regs != [] {
      var init := regs[..|regs| - 1];
      assert regs == init + [regs[|regs| - 1]];
      CountsPartitionRows(init);
    }
  }

  /** `total` equals the sum of the three status counts exactly when every row has
      one of the three statuses; an empty table reports NULL for all three. */
  lemma StatsTotalIsSumIffKnown(regs: seq<Registration>)
    requires regs != []
    ensures var r := Stats(regs);
      (forall x :: x in regs ==> KnownStatus(x.statut)) <==>
      (r.enAttente.Some? && r.accepte.Some? && r.refuse.Some?
       && r.total == r.enAttente.value + r.accepte.value + r.refuse.value)
  {
    CountsPartitionRows(regs);
    if forall x :: x in regs ==> KnownStatus(x.statut) {
      assert regs[0] in regs;
    }
  }
}
