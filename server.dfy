/** The state-changing and table-scanning handlers of backend/server.js, as methods
    of one in-memory store that holds the four tables. Each handler receives the
    caller `user` that the authentication middleware (`Auth.Authenticate`) let
    through; the store never fails, so the handlers' 500 replies do not arise. */
module Server {
  import opened Common
  import opened Text
  import opened Records
  import opened Ledger
  import opened Stats

  /** The intake reply: `"<n> inscription(s) enregistrée(s) avec succès"` and the created entries. */
  datatype IntakeReply = IntakeReply(message: string, inscriptions: seq<Created>)

  function IntakeMessage(count: nat): string
  {
    Decimal(count) + " inscription(s) enregistrée(s) avec succès"
  }

  const UpdateMessage := "Inscription mise à jour avec succès"

  /** Appending rows whose ids run upward from `first` to rows whose ids are all
      below `first` keeps the ids unique. */
  lemma AppendFreshIds(regs: seq<Registration>, added: seq<Registration>, first: nat)
    requires RegistrationIdsUnique(regs) && RegistrationIdsUnique(added)
    requires forall r :: r in regs ==> r.id < first
    requires forall k :: 0 <= k < |added| ==> added[k].id == first + k
    ensures RegistrationIdsUnique(regs + added)
    ensures forall r :: r in regs + added ==> r.id < first + |added|
  {
    var all := regs + added;
    forall i, j | 0 <= i < j < |all| ensures all[i].id != all[j].id {
      if i < |regs| && j >= |regs| {
        assert all[i] in regs;
        assert all[j] == added[j - |regs|];
      }
    }
    forall r | r in all ensures r.id < first + |added| {
      if r !in regs {
        var k :| 0 <= k < |added| && added[k] == r;
      }
    }
  }

  /** The reply entries the intake loop has built after walking the students `done`:
      one per complete student, with the id and number its row got. */
  ghost predicate Reported(ctx: IntakeContext, done: seq<StudentInput>, first: nat, results: seq<Created>)
  {
    && |results| == |Accepted(done)|
    && forall k :: 0 <= k < |results| ==>
         results[k] == Created(first + k, ctx.numero(k), Accepted(done)[k])
  }

  /** One loop step on the reply entries. */
  lemma ReportedSnoc(ctx: IntakeContext, done: seq<StudentInput>, e: StudentInput, first: nat,
                     results: seq<Created>)
    requires Reported(ctx, done, first, results)
    ensures Complete(e) ==>
      Reported(ctx, done + [e], first, results + [Created(first + |results|, ctx.numero(|results|), e)])
    ensures !Complete(e) ==> Reported(ctx, done + [e], first, results)
  {
    CollectSnoc(done, e, Eligible);
    var acc, acc2 := Accepted(done), Accepted(done + [e]);
    if Complete(e) {
      assert acc2 == acc + [e];
      AppendReported(ctx, acc, e, first, results);
    } else {
      assert acc2 == acc;
    }
  }

  /** The entries for `acc + [e]` extend those for `acc` by one entry for `e`. */
  lemma AppendReported(ctx: IntakeContext, acc: seq<StudentInput>, e: StudentInput, first: nat,
                       results: seq<Created>)
    requires |results| == |acc|
    requires forall k :: 0 <= k < |results| ==> results[k] == Created(first + k, ctx.numero(k), acc[k])
    ensures var results2, acc2 := results + [Created(first + |results|, ctx.numero(|results|), e)], acc + [e];
      && |results2| == |acc2|
      && forall k :: 0 <= k < |results2| ==> results2[k] == Created(first + k, ctx.numero(k), acc2[k])
  {
    var k := |results|;
    var results2, acc2 := results + [Created(first + k, ctx.numero(k), e)], acc + [e];
    forall j | 0 <= j < |results2|
      ensures results2[j] == Created(first + j, ctx.numero(j), acc2[j])
    {
      if j < k {
        assert results2[j] == results[j] && acc2[j] == acc[j];
      }
    }
  }

  /** The intake loop: walks the students in order, skips the incomplete ones and
      builds a row and a reply entry for each of the others. */
  method BuildRows(ctx: IntakeContext, list: seq<StudentInput>, first: nat)
    returns (added: seq<Registration>, results: seq<Created>)
    ensures added == NewRows(ctx, list, first)
    ensures |results| == |added|
    ensures forall k :: 0 <= k < |results| ==>
      results[k] == Created(first + k, ctx.numero(k), Accepted(list)[k])
  {
    added, results := [], [];
    var i := 0;
    while i < |list|
      invariant 0 <= i <= |list|
      invariant added == NewRows(ctx, list[..i], first)
      invariant Reported(ctx, list[..i], first, results)
    {
      var eleve := list[i];
      ghost var done := list[..i];
      assert list[..i + 1] == done + [eleve];
      NewRowsSnoc(ctx, done, eleve, first);
      ReportedSnoc(ctx, done, eleve, first, results);
      ghost var next := NewRows(ctx, done + [eleve], first);
      if Truthy(eleve.nom) && Truthy(eleve.prenom) && Truthy(eleve.dateNaissance) {
        var k := |results|;
        assert k == |Accepted(done)|;
        added := added + [MakeRow(ctx, eleve, first + k, k)];
        results := results + [Created(first + k, ctx.numero(k), eleve)];
      }
      assert added == next;
      i := i + 1;
    }
    assert list[..|list|] == list;
  }

  class Store {
    var schools: seq<School>
    var admins: seq<Admin>
    var exams: seq<Exam>
    var registrations: seq<Registration>
    /** The auto-increment counters of `etablissements` and `inscriptions`. */
    var nextSchoolId: nat
    var nextRegistrationId: nat

    /** Primary keys are unique and below their counters. */
    ghost predicate Valid()
      reads this
    {
      && SchoolIdsUnique(schools) && ExamIdsUnique(exams) && RegistrationIdsUnique(registrations)
      && (forall s :: s in schools ==> s.id < nextSchoolId)
      && (forall r :: r in registrations ==> r.id < nextRegistrationId)
    }

    /** A store with the given administrators and exams and no schools or registrations yet. */
    constructor (admins: seq<Admin>, exams: seq<Exam>)
      requires ExamIdsUnique(exams)
      ensures Valid()
      ensures this.admins == admins && this.exams == exams
      ensures schools == [] && registrations == []
    {
      this.admins := admins;
      this.exams := exams;
      schools := [];
      registrations := [];
      nextSchoolId := 0;
      nextRegistrationId := 0;
    }

    /** `GET /api/etablissements/search`: the public columns of the schools matching
        every truthy criterion, ordered by name. */
    method Search(q: Option<string>, secteur: Option<string>, niveau: Option<string>)
      returns (rows: seq<PublicSchool>)
      ensures multiset(rows) == multiset(SearchView(schools, q, secteur, niveau))
      ensures NameOrdered(rows)
    {
      var matched: seq<PublicSchool> := [];
      var i := 0;
      while i < |schools|
        invariant 0 <= i <= |schools|
        invariant matched == SearchView(schools[..i], q, secteur, niveau)
      {
        var s := schools[i];
        SearchViewSnoc(schools[..i], s, q, secteur, niveau);
        assert schools[..i + 1] == schools[..i] + [s];
        var hit := true;
        if Truthy(q) {
          hit := Contains(s.nom, q.value) || Contains(s.code, q.value)
                 || OptContains(s.commune, q.value) || OptContains(s.fokontany, q.value);
        }
        if Truthy(secteur) {
          hit := hit && s.secteur == secteur;
        }
        if Truthy(niveau) {
          hit := hit && s.niveau == niveau;
        }
        if hit {
          matched := matched + [Public(s)];
        }
        i := i + 1;
      }
      assert schools[..|schools|] == schools;
      SortByNameOrdered(matched);
      rows := SortBy(matched, ByName());
    }

    /** `POST /api/inscriptions`: 403 for a caller that is not a school, 400 when
        `eleves` is not an array or `examen_id` is falsy; otherwise one new row per
        complete student, in input order, and the count of rows created. `numero`
        stands for the generated registration numbers, `statut` and `now` for the
        column defaults the database fills in. */
    method CreateInscriptions(user: User, eleves: ElevesField, examenId: Option<int>,
                              numero: nat -> string, statut: Option<string>, now: int)
      returns (reply: Reply<IntakeReply>)
      requires Valid()
      modifies this`registrations, this`nextRegistrationId
      ensures Valid()
      ensures user.kind != SchoolKind ==>
        reply == Fail(403, Forbidden) && registrations == old(registrations)
        && nextRegistrationId == old(nextRegistrationId)
      ensures user.kind == SchoolKind && (!eleves.Students? || !TruthyId(examenId)) ==>
        reply == Fail(400, "Données invalides") && registrations == old(registrations)
        && nextRegistrationId == old(nextRegistrationId)
      ensures user.kind == SchoolKind && eleves.Students? && TruthyId(examenId) ==>
        var added := NewRows(IntakeContext(user.id, examenId.value, numero, statut, now),
                             eleves.list, old(nextRegistrationId));
        && registrations == old(registrations) + added
        && nextRegistrationId == old(nextRegistrationId) + |added|
        && reply.Ok? && reply.value.message == IntakeMessage(|added|)
        && |reply.value.inscriptions| == |added|
        && forall k :: 0 <= k < |added| ==>
             reply.value.inscriptions[k]
             == Created(added[k].id, added[k].numeroInscription, Accepted(eleves.list)[k])
    {
      if user.kind != SchoolKind {
        return Fail(403, Forbidden);
      }
      if !eleves.Students? || !TruthyId(examenId) {
        return Fail(400, "Données invalides");
      }
      var ctx := IntakeContext(user.id, examenId.value, numero, statut, now);
      var first := nextRegistrationId;
      var added, results := BuildRows(ctx, eleves.list, first);
      NewRowIds(ctx, eleves.list, first);
      AppendFreshIds(registrations, added, first);
      registrations := registrations + added;
      nextRegistrationId := first + |added|;
      reply := Ok(IntakeReply(IntakeMessage(|results|), results));
    }

    /** `GET /api/etablissement/inscriptions`: 403 for a caller that is not a school;
        otherwise the caller's own registrations with their exam names, newest first. */
    method SchoolInscriptions(user: User) returns (reply: Reply<seq<SchoolRow>>)
      ensures user.kind != SchoolKind ==> reply == Fail(403, Forbidden)
      ensures user.kind == SchoolKind ==>
        && reply.Ok?
        && multiset(reply.value) == multiset(SchoolView(registrations, exams, user.id))
        && SchoolNewestFirst(reply.value)
    {
      if user.kind != SchoolKind {
        return Fail(403, Forbidden);
      }
      var matched: seq<SchoolRow> := [];
      var i := 0;
      while i < |registrations|
        invariant 0 <= i <= |registrations|
        invariant matched == SchoolView(registrations[..i], exams, user.id)
      {
        var r := registrations[i];
        SchoolViewSnoc(registrations[..i], r, exams, user.id);
        assert registrations[..i + 1] == registrations[..i] + [r];
        if r.etablissementId == user.id {
          var exam := ExamOf(exams, r.examenId);
          if exam.Some? {
            matched := matched + [SchoolRow(r, exam.value.nom)];
          }
        }
        i := i + 1;
      }
      assert registrations[..|registrations|] == registrations;
      SchoolSortNewestFirst(matched);
      reply := Ok(SortBy(matched, SchoolNewerFirst()));
    }

    /** `GET /api/admin/inscriptions`: 403 for a caller that is not an administrator;
        otherwise the registrations matching the given filters, joined with their
        school and exam, newest first. */
    method AdminInscriptions(user: User, statut: Option<string>, etablissementId: Option<int>)
      returns (reply: Reply<seq<AdminRow>>)
      ensures user.kind != AdminKind ==> reply == Fail(403, Forbidden)
      ensures user.kind == AdminKind ==>
        && reply.Ok?
        && multiset(reply.value)
           == multiset(AdminView(registrations, schools, exams, statut, etablissementId))
        && AdminNewestFirst(reply.value)
    {
      if user.kind != AdminKind {
        return Fail(403, Forbidden);
      }
      var matched: seq<AdminRow> := [];
      var i := 0;
      while i < |registrations|
        invariant 0 <= i <= |registrations|
        invariant matched == AdminView(registrations[..i], schools, exams, statut, etablissementId)
      {
        var r := registrations[i];
        AdminViewSnoc(registrations[..i], r, schools, exams, statut, etablissementId);
        assert registrations[..i + 1] == registrations[..i] + [r];
        var keep := true;
        if Truthy(statut) {
          keep := r.statut == statut;
        }
        if etablissementId.Some? {
          keep := keep && r.etablissementId == etablissementId.value;
        }
        if keep {
          var school, exam := SchoolOf(schools, r.etablissementId), ExamOf(exams, r.examenId);
          if school.Some? && exam.Some? {
            matched := matched + [AdminRow(r, school.value.nom, school.value.code, exam.value.nom)];
          }
        }
        i := i + 1;
      }
      assert registrations[..|registrations|] == registrations;
      AdminSortNewestFirst(matched);
      reply := Ok(SortBy(matched, AdminNewerFirst()));
    }

    /** `PUT /api/admin/inscriptions/:id`: 403 for a caller that is not an
        administrator; otherwise the three columns are overwritten on every row with
        that id, nothing else changes, and the reply is a success even when no row
        has that id. */
    method UpdateInscription(user: User, id: int, statut: Option<string>,
                             salle: Option<string>, centre: Option<string>)
      returns (reply: Reply<string>)
      requires Valid()
      modifies this`registrations
      ensures Valid()
      ensures user.kind != AdminKind ==>
        reply == Fail(403, Forbidden) && registrations == old(registrations)
      ensures user.kind == AdminKind ==>
        reply == Ok(UpdateMessage)
        && registrations == ApplyUpdate(old(registrations), id, statut, salle, centre)
    {
      if user.kind != AdminKind {
        return Fail(403, Forbidden);
      }
      ghost var target := ApplyUpdate(registrations, id, statut, salle, centre);
      UpdateKeepsOtherColumns(registrations, id, statut, salle, centre);
      var i := 0;
      while i < |registrations|
        invariant 0 <= i <= |registrations| == |old(registrations)|
        invariant forall k :: 0 <= k < i ==> registrations[k] == target[k]
        invariant forall k :: i <= k < |registrations| ==> registrations[k] == old(registrations)[k]
      {
        if registrations[i].id == id {
          registrations := registrations[i := registrations[i].(statut := statut, salleExamen := salle,
                                                                centreExamen := centre)];
        }
        i := i + 1;
      }
      assert registrations == target;
      reply := Ok(UpdateMessage);
    }

    /** `GET /api/admin/stats`: 403 for a caller that is not an administrator;
        otherwise the aggregate report over the registrations. */
    method AdminStats(user: User) returns (reply: Reply<StatsReport>)
      ensures user.kind != AdminKind ==> reply == Fail(403, Forbidden)
      ensures user.kind == AdminKind ==> reply.Ok? && reply.value == Stats.Stats(registrations)
                                         && reply.value.total == |registrations|
    {
      if user.kind != AdminKind {
        return Fail(403, Forbidden);
      }
      reply := Ok(Stats.Stats(registrations));
    }
  }
}
