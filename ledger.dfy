/** What the registration handlers of backend/server.js do to and read from the
    tables, stated as functions over the rows: the rows an intake call inserts,
    the rows each listing selects and how they are ordered, and the rows an
    admin update rewrites. The handlers in module Server are proved against these. */
module Ledger {
  import opened Common
  import opened Text
  import opened Records

  // ---------------------------------------------------------------- intake

  /** `!eleve.nom || !eleve.prenom || !eleve.date_naissance` is false: the three
      required fields are present and non-empty. The test is on untrimmed values. */
  predicate Complete(e: StudentInput)
  {
    Truthy(e.nom) && Truthy(e.prenom) && Truthy(e.dateNaissance)
  }

  function Eligible(e: StudentInput): Option<StudentInput>
  {
    if Complete(e) then Some(e) else None
  }

  /** The students the intake loop does not skip, in input order. */
  function Accepted(eleves: seq<StudentInput>): seq<StudentInput>
  {
    Collect(eleves, Eligible)
  }

  /** `v?.trim() || ''`. */
  function TrimOrEmpty(v: Option<string>): string
  {
    match v
    case None => ""
    case Some(x) => Trim(x)
  }

  function OrEmpty(v: Option<string>): string
  {
    match v
    case None => ""
    case Some(x) => x
  }

  /** What one intake call fixes for every row it inserts: the caller, the exam,
      the number generator (indexed by insertion), and the two column defaults the
      database supplies (`statut`, `date_inscription`). */
  datatype IntakeContext = IntakeContext(
    etablissementId: int, examenId: int, numero: nat -> string,
    statut: Option<string>, now: int)

  /** The row inserted for student `e` as the `k`-th insertion, with row id `id`. */
  function MakeRow(ctx: IntakeContext, e: StudentInput, id: nat, k: nat): Registration
  {
    Registration(id, ctx.etablissementId, ctx.examenId,
                 TrimOrEmpty(e.nom), TrimOrEmpty(e.prenom), OrEmpty(e.dateNaissance),
                 TrimOrEmpty(e.lieuNaissance), TrimOrEmpty(e.classe),
                 ctx.numero(k), ctx.statut, None, None, ctx.now)
  }

  /** The rows one intake call appends, numbered from `firstId`. */
  function NewRows(ctx: IntakeContext, eleves: seq<StudentInput>, firstId: nat): seq<Registration>
  {
    var acc := Accepted(eleves);
    seq(|acc|, k requires 0 <= k < |acc| => MakeRow(ctx, acc[k], firstId + k, k))
  }

  /** One more candidate adds one row exactly when it is complete. */
  lemma NewRowsSnoc(ctx: IntakeContext, eleves: seq<StudentInput>, e: StudentInput, firstId: nat)
    ensures |Accepted(eleves + [e])| == |Accepted(eleves)| + (if Complete(e) then 1 else 0)
    ensures NewRows(ctx, eleves + [e], firstId)
         == NewRows(ctx, eleves, firstId)
            + (if Complete(e)
               then [MakeRow(ctx, e, firstId + |Accepted(eleves)|, |Accepted(eleves)|)]
               else [])
  {
    CollectSnoc(eleves, e, Eligible);
    var acc, acc2 := Accepted(eleves), Accepted(eleves + [e]);
    assert acc2 == acc + (if Complete(e) then [e] else []);
    var rows, rows2 := NewRows(ctx, eleves, firstId), NewRows(ctx, eleves + [e], firstId);
    var extra := if Complete(e) then [MakeRow(ctx, e, firstId + |acc|, |acc|)] else [];
    assert |rows2| == |rows + extra|;
    forall k | 0 <= k < |rows2| ensures rows2[k] == (rows + extra)[k] {
      if k < |acc| {
        assert acc2[k] == acc[k];
      }
    }
  }

  /** Intake inserts exactly one row per complete student, in input order: the
      `k`-th new row is built from the `k`-th complete student, whose position in
      the input is `Hits(eleves, Eligible)[k]`; every complete student has such a
      row and no incomplete one does. */
  lemma {:induction false} IntakeOnePerComplete(ctx: IntakeContext, eleves: seq<StudentInput>, firstId: nat)
    ensures var rows, src := NewRows(ctx, eleves, firstId), Hits(eleves, Eligible);
      && |rows| == |src|
      && (forall k :: 0 <= k < |rows| ==>
            src[k] < |eleves| && Complete(eleves[src[k]])
            && rows[k] == MakeRow(ctx, eleves[src[k]], firstId + k, k))
      && (forall k, l :: 0 <= k < l < |src| ==> src[k] < src[l])
      && (forall i :: 0 <= i < |eleves| ==> (i in src <==> Complete(eleves[i])))
  {
    CollectHits(eleves, Eligible);
    var rows, src, acc := NewRows(ctx, eleves, firstId), Hits(eleves, Eligible), Accepted(eleves);
    forall k | 0 <= k < |rows|
      ensures src[k] < |eleves| && Complete(eleves[src[k]])
      ensures rows[k] == MakeRow(ctx, eleves[src[k]], firstId + k, k)
    {
      assert Eligible(eleves[src[k]]) == Some(acc[k]);
    }
  }

  /** Every new row carries the caller, the exam, trimmed names, the date of birth
      as sent, and the optional fields trimmed or empty; ids run from `firstId` and
      numbers are drawn in insertion order. */
  lemma {:induction false} NewRowFields(ctx: IntakeContext, eleves: seq<StudentInput>, firstId: nat, k: nat)
    requires k < |NewRows(ctx, eleves, firstId)|
    ensures var r, e := NewRows(ctx, eleves, firstId)[k], Accepted(eleves)[k];
      && Complete(e)
      && r.id == firstId + k && r.numeroInscription == ctx.numero(k)
      && r.etablissementId == ctx.etablissementId && r.examenId == ctx.examenId
      && r.eleveNom == Trim(e.nom.value) && r.elevePrenom == Trim(e.prenom.value)
      && r.dateNaissance == e.dateNaissance.value
      && r.lieuNaissance == (if e.lieuNaissance.Some? then Trim(e.lieuNaissance.value) else "")
      && r.classe == (if e.classe.Some? then Trim(e.classe.value) else "")
      && r.salleExamen.None? && r.centreExamen.None?
  {
    CollectHits(eleves, Eligible);
  }

  /** The eligibility test runs before trimming: a name made only of spaces passes
      it, and the row stores that name as the empty string. */
  lemma WhitespaceNameStoredEmpty(ctx: IntakeContext, e: StudentInput, id: nat, k: nat)
    requires e.nom.Some? && e.nom.value != "" && AllWhitespace(e.nom.value)
    requires Truthy(e.prenom) && Truthy(e.dateNaissance)
    ensures Complete(e)
    ensures MakeRow(ctx, e, id, k).eleveNom == ""
  {
  }

  /** New rows get the ids `firstId`, `firstId + 1`, ...: distinct and at least `firstId`. */
  lemma NewRowIds(ctx: IntakeContext, eleves: seq<StudentInput>, firstId: nat)
    ensures forall k :: 0 <= k < |NewRows(ctx, eleves, firstId)| ==>
      NewRows(ctx, eleves, firstId)[k].id == firstId + k
    ensures RegistrationIdsUnique(NewRows(ctx, eleves, firstId))
  {
  }

  // ---------------------------------------------------------------- joins

  /** The school a registration joins with (`JOIN etablissements e ON i.etablissement_id = e.id`). */
  function SchoolOf(schools: seq<School>, id: int): (r: Option<School>)
    ensures r.None? <==> forall s :: s in schools ==> s.id != id
    ensures r.Some? ==> r.value in schools && r.value.id == id
    ensures SchoolIdsUnique(schools) ==> forall s :: s in schools && s.id == id ==> r == Some(s)
  {
    match FirstIndex(schools, (s: School) => s.id == id)
    case None => None
    case Some(i) => Some(schools[i])
  }

  /** The exam a registration joins with (`JOIN examens ex ON i.examen_id = ex.id`). */
  function ExamOf(exams: seq<Exam>, id: int): (r: Option<Exam>)
    ensures r.None? <==> forall x :: x in exams ==> x.id != id
    ensures r.Some? ==> r.value in exams && r.value.id == id
    ensures ExamIdsUnique(exams) ==> forall x :: x in exams && x.id == id ==> r == Some(x)
  {
    match FirstIndex(exams, (x: Exam) => x.id == id)
    case None => None
    case Some(i) => Some(exams[i])
  }

  // ---------------------------------------------------------------- admin listing

  /** The `WHERE` the admin listing builds: a truthy `statut` must equal the row's,
      a given `etablissement_id` must equal the row's. */
  predicate MatchesFilters(r: Registration, statut: Option<string>, etablissementId: Option<int>)
  {
    && (Truthy(statut) ==> r.statut == statut)
    && (etablissementId.Some? ==> r.etablissementId == etablissementId.value)
  }

  function AdminJoin(schools: seq<School>, exams: seq<Exam>, statut: Option<string>,
                     etablissementId: Option<int>, r: Registration): Option<AdminRow>
  {
    if !MatchesFilters(r, statut, etablissementId) then None
    else
      match (SchoolOf(schools, r.etablissementId), ExamOf(exams, r.examenId))
      case (Some(s), Some(x)) => Some(AdminRow(r, s.nom, s.code, x.nom))
      case _ => None
  }

  function AdminJoiner(schools: seq<School>, exams: seq<Exam>, statut: Option<string>,
                       etablissementId: Option<int>): Registration -> Option<AdminRow>
  {
    r => AdminJoin(schools, exams, statut, etablissementId, r)
  }

  /** The rows `GET /api/admin/inscriptions` selects, in table order. */
  function AdminView(regs: seq<Registration>, schools: seq<School>, exams: seq<Exam>,
                     statut: Option<string>, etablissementId: Option<int>): seq<AdminRow>
  {
    Collect(regs, AdminJoiner(schools, exams, statut, etablissementId))
  }

  lemma AdminViewSnoc(regs: seq<Registration>, r: Registration, schools: seq<School>, exams: seq<Exam>,
                      statut: Option<string>, etablissementId: Option<int>)
    ensures var j := AdminJoin(schools, exams, statut, etablissementId, r);
      AdminView(regs + [r], schools, exams, statut, etablissementId)
      == AdminView(regs, schools, exams, statut, etablissementId) + (if j.Some? then [j.value] else [])
  {
    CollectSnoc(regs, r, AdminJoiner(schools, exams, statut, etablissementId));
  }

  /** The admin listing holds exactly the registrations that match both filters,
      each joined with its school's name and code and its exam's name. */
  lemma AdminViewExact(regs: seq<Registration>, schools: seq<School>, exams: seq<Exam>,
                       statut: Option<string>, etablissementId: Option<int>, row: AdminRow)
    requires SchoolIdsUnique(schools) && ExamIdsUnique(exams)
    ensures row in AdminView(regs, schools, exams, statut, etablissementId) <==>
      && row.inscription in regs
      && MatchesFilters(row.inscription, statut, etablissementId)
      && (exists s :: s in schools && s.id == row.inscription.etablissementId
                      && s.nom == row.etablissementNom && s.code == row.etablissementCode)
      && (exists x :: x in exams && x.id == row.inscription.examenId && x.nom == row.examenNom)
  {
    var f := AdminJoiner(schools, exams, statut, etablissementId);
    CollectMember(regs, f, row);
    if row.inscription in regs && MatchesFilters(row.inscription, statut, etablissementId)
       && (exists s :: s in schools && s.id == row.inscription.etablissementId
                       && s.nom == row.etablissementNom && s.code == row.etablissementCode)
       && (exists x :: x in exams && x.id == row.inscription.examenId && x.nom == row.examenNom)
    {
      var s :| s in schools && s.id == row.inscription.etablissementId
               && s.nom == row.etablissementNom && s.code == row.etablissementCode;
      var x :| x in exams && x.id == row.inscription.examenId && x.nom == row.examenNom;
      assert f(row.inscription) == Some(row);
    }
  }

  /** `ORDER BY i.date_inscription DESC`, as a comparison for sorting. */
  function AdminNewerFirst(): (AdminRow, AdminRow) -> bool
  {
    (a: AdminRow, b: AdminRow) => a.inscription.dateInscription >= b.inscription.dateInscription
  }

  predicate AdminNewestFirst(rows: seq<AdminRow>)
  {
    forall i, j :: 0 <= i < j < |rows| ==> rows[i].inscription.dateInscription >= rows[j].inscription.dateInscription
  }

  /** Sorting by `AdminNewerFirst` leaves every row after the ones newer than it. */
  lemma AdminSortNewestFirst(rows: seq<AdminRow>)
    ensures Total(AdminNewerFirst())
    ensures AdminNewestFirst(SortBy(rows, AdminNewerFirst()))
  {
    SortedEverywhere(SortBy(rows, AdminNewerFirst()), AdminNewerFirst());
  }

  // ---------------------------------------------------------------- school listing

  function SchoolJoin(exams: seq<Exam>, etablissementId: int, r: Registration): Option<SchoolRow>
  {
    if r.etablissementId != etablissementId then None
    else
      match ExamOf(exams, r.examenId)
      case Some(x) => Some(SchoolRow(r, x.nom))
      case None => None
  }

  function SchoolJoiner(exams: seq<Exam>, etablissementId: int): Registration -> Option<SchoolRow>
  {
    r => SchoolJoin(exams, etablissementId, r)
  }

  /** The rows `GET /api/etablissement/inscriptions` selects for one school, in table order. */
  function SchoolView(regs: seq<Registration>, exams: seq<Exam>, etablissementId: int): seq<SchoolRow>
  {
    Collect(regs, SchoolJoiner(exams, etablissementId))
  }

  lemma SchoolViewSnoc(regs: seq<Registration>, r: Registration, exams: seq<Exam>, etablissementId: int)
    ensures var j := SchoolJoin(exams, etablissementId, r);
      SchoolView(regs + [r], exams, etablissementId)
      == SchoolView(regs, exams, etablissementId) + (if j.Some? then [j.value] else [])
  {
    CollectSnoc(regs, r, SchoolJoiner(exams, etablissementId));
  }

  /** A school sees exactly its own registrations, each with its exam's name. */
  lemma SchoolViewExact(regs: seq<Registration>, exams: seq<Exam>, etablissementId: int, row: SchoolRow)
    requires ExamIdsUnique(exams)
    ensures row in SchoolView(regs, exams, etablissementId) <==>
      && row.inscription in regs
      && row.inscription.etablissementId == etablissementId
      && (exists x :: x in exams && x.id == row.inscription.examenId && x.nom == row.examenNom)
  {
    var f := SchoolJoiner(exams, etablissementId);
    CollectMember(regs, f, row);
    if row.inscription in regs && row.inscription.etablissementId == etablissementId
       && (exists x :: x in exams && x.id == row.inscription.examenId && x.nom == row.examenNom)
    {
      var x :| x in exams && x.id == row.inscription.examenId && x.nom == row.examenNom;
      assert f(row.inscription) == Some(row);
    }
  }

  function SchoolNewerFirst(): (SchoolRow, SchoolRow) -> bool
  {
    (a: SchoolRow, b: SchoolRow) => a.inscription.dateInscription >= b.inscription.dateInscription
  }

  predicate SchoolNewestFirst(rows: seq<SchoolRow>)
  {
    forall i, j :: 0 <= i < j < |rows| ==> rows[i].inscription.dateInscription >= rows[j].inscription.dateInscription
  }

  lemma SchoolSortNewestFirst(rows: seq<SchoolRow>)
    ensures Total(SchoolNewerFirst())
    ensures SchoolNewestFirst(SortBy(rows, SchoolNewerFirst()))
  {
    SortedEverywhere(SortBy(rows, SchoolNewerFirst()), SchoolNewerFirst());
  }

  // ---------------------------------------------------------------- directory search

  predicate OptContains(v: Option<string>, sub: string)
  {
    v.Some? && Contains(v.value, sub)
  }

  /** The `WHERE` the directory search builds from its truthy parameters. */
  predicate SearchMatch(s: School, q: Option<string>, secteur: Option<string>, niveau: Option<string>)
  {
    && (Truthy(q) ==> Contains(s.nom, q.value) || Contains(s.code, q.value)
                      || OptContains(s.commune, q.value) || OptContains(s.fokontany, q.value))
    && (Truthy(secteur) ==> s.secteur == secteur)
    && (Truthy(niveau) ==> s.niveau == niveau)
  }

  function SearchPicker(q: Option<string>, secteur: Option<string>, niveau: Option<string>)
    : School -> Option<PublicSchool>
  {
    s => if SearchMatch(s, q, secteur, niveau) then Some(Public(s)) else None
  }

  /** The rows `GET /api/etablissements/search` selects, in table order. */
  function SearchView(schools: seq<School>, q: Option<string>, secteur: Option<string>,
                      niveau: Option<string>): seq<PublicSchool>
  {
    Collect(schools, SearchPicker(q, secteur, niveau))
  }

  lemma SearchViewSnoc(schools: seq<School>, s: School, q: Option<string>, secteur: Option<string>,
                       niveau: Option<string>)
    ensures SearchView(schools + [s], q, secteur, niveau)
      == SearchView(schools, q, secteur, niveau)
         + (if SearchMatch(s, q, secteur, niveau) then [Public(s)] else [])
  {
    CollectSnoc(schools, s, SearchPicker(q, secteur, niveau));
  }

  /** The search returns exactly the public columns of the schools matching every given criterion. */
  lemma SearchViewExact(schools: seq<School>, q: Option<string>, secteur: Option<string>,
                        niveau: Option<string>, p: PublicSchool)
    ensures p in SearchView(schools, q, secteur, niveau) <==>
      exists s :: s in schools && SearchMatch(s, q, secteur, niveau) && Public(s) == p
  {
    CollectMember(schools, SearchPicker(q, secteur, niveau), p);
  }

  /** `ORDER BY nom`, as a comparison for sorting. */
  function ByName(): (PublicSchool, PublicSchool) -> bool
  {
    (a: PublicSchool, b: PublicSchool) => LexLe(a.nom, b.nom)
  }

  predicate NameOrdered(rows: seq<PublicSchool>)
  {
    forall i, j :: 0 <= i < j < |rows| ==> LexLe(rows[i].nom, rows[j].nom)
  }

  lemma {:induction false} SortByNameOrdered(rows: seq<PublicSchool>)
    ensures Total(ByName())
    ensures NameOrdered(SortBy(rows, ByName()))
  {
    forall a: PublicSchool, b: PublicSchool ensures ByName()(a, b) || ByName()(b, a) {
      LexLeTotal(a.nom, b.nom);
    }
    forall a: PublicSchool, b: PublicSchool, c: PublicSchool
      ensures ByName()(a, b) && ByName()(b, c) ==> ByName()(a, c)
    {
      if LexLe(a.nom, b.nom) && LexLe(b.nom, c.nom) {
        LexLeTransitive(a.nom, b.nom, c.nom);
      }
    }
    SortedEverywhere(SortBy(rows, ByName()), ByName());
  }

  // ---------------------------------------------------------------- admin update

  /** `UPDATE inscriptions SET statut = ?, salle_examen = ?, centre_examen = ? WHERE id = ?`. */
  function ApplyUpdate(regs: seq<Registration>, id: int, statut: Option<string>,
                       salle: Option<string>, centre: Option<string>): (r: seq<Registration>)
    ensures |r| == |regs|
    ensures forall k :: 0 <= k < |regs| && regs[k].id == id ==>
      r[k] == regs[k].(statut := statut, salleExamen := salle, centreExamen := centre)
    ensures forall k :: 0 <= k < |regs| && regs[k].id != id ==> r[k] == regs[k]
  {
    seq(|regs|, k requires 0 <= k < |regs| =>
      if regs[k].id == id then regs[k].(statut := statut, salleExamen := salle, centreExamen := centre)
      else regs[k])
  }

  /** The update keeps every row and every id in place and touches no column but
      the three it sets; it accepts any status value. */
  lemma UpdateKeepsOtherColumns(regs: seq<Registration>, id: int, statut: Option<string>,
                                salle: Option<string>, centre: Option<string>)
    ensures var r := ApplyUpdate(regs, id, statut, salle, centre);
      forall k :: 0 <= k < |regs| ==>
        r[k].(statut := regs[k].statut, salleExamen := regs[k].salleExamen,
              centreExamen := regs[k].centreExamen) == regs[k]
    ensures RegistrationIdsUnique(regs) ==> RegistrationIdsUnique(ApplyUpdate(regs, id, statut, salle, centre))
  {
  }

  /** With no row of that id the table is unchanged (and the handler still reports success). */
  lemma UpdateMissingIdIsNoOp(regs: seq<Registration>, id: int, statut: Option<string>,
                              salle: Option<string>, centre: Option<string>)
    requires forall r :: r in regs ==> r.id != id
    ensures ApplyUpdate(regs, id, statut, salle, centre) == regs
  {
  }

  /** Applying the same update twice is the same as applying it once. */
  lemma UpdateIdempotent(regs: seq<Registration>, id: int, statut: Option<string>,
                         salle: Option<string>, centre: Option<string>)
    ensures var once := ApplyUpdate(regs, id, statut, salle, centre);
      ApplyUpdate(once, id, statut, salle, centre) == once
  {
  }

  /** With unique ids the update changes at most one row. */
  lemma UpdateTouchesAtMostOne(regs: seq<Registration>, id: int, statut: Option<string>,
                               salle: Option<string>, centre: Option<string>, k: nat, l: nat)
    requires RegistrationIdsUnique(regs)
    requires k < l < |regs|
    ensures var r := ApplyUpdate(regs, id, statut, salle, centre);
      r[k] == regs[k] || r[l] == regs[l]
  {
  }
}
