/** Properties of the workflow across its parts: what the school form sends is
    what the intake stores, what an administrator's decision leaves in the table
    and on the buttons, and what the import leaves for the school login. */
module Workflow {
  import opened Common
  import opened Text
  import opened Records
  import opened Ledger
  import opened Stats
  import opened Auth
  import opened Import
  import opened SchoolForm
  import opened AdminPanel

  // ---------------------------------------------------------------- form to intake

  /** A form line as the intake reads it: every field is a string in the JSON body. */
  function ToInput(s: Student): StudentInput
  {
    StudentInput(Some(s.nom), Some(s.prenom), Some(s.dateNaissance), Some(s.lieuNaissance), Some(s.classe))
  }

  function SentInputs(valid: seq<Student>): seq<StudentInput>
  {
    seq(|valid|, k requires 0 <= k < |valid| => ToInput(valid[k]))
  }

  /** A line the form lets through passes the intake's own test. */
  lemma FormValidIsComplete(s: Student)
    requires FormValid(s)
    ensures Complete(ToInput(s))
  {
  }

  /** The form is stricter than the intake: a name made only of spaces passes the
      intake's test but not the form's. */
  lemma WhitespaceNameBlockedByForm(s: Student)
    requires s.nom != "" && AllWhitespace(s.nom) && s.prenom != "" && s.dateNaissance != ""
    ensures Complete(ToInput(s))
    ensures !FormValid(s)
  {
  }

  /** When every student is complete, the intake keeps them all. */
  lemma {:induction false} AcceptedAllComplete(eleves: seq<StudentInput>)
    requires forall k :: 0 <= k < |eleves| ==> Complete(eleves[k])
    ensures Accepted(eleves) == eleves
    decreases |eleves|
  {
    if eleves != [] {
      var init := eleves[..|eleves| - 1];
      var last := eleves[|eleves| - 1];
      assert eleves == init + [last];
      AcceptedAllComplete(init);
      CollectSnoc(init, last, Eligible);
    }
  }

  /** The row the intake builds from a line the form lets through. */
  lemma FormLineStored(ctx: IntakeContext, s: Student, id: nat, k: nat)
    requires FormValid(s)
    ensures var r := MakeRow(ctx, ToInput(s), id, k);
      && r.id == id
      && r.eleveNom == Trim(s.nom) != ""
      && r.elevePrenom == Trim(s.prenom) != ""
      && r.dateNaissance == s.dateNaissance
      && r.lieuNaissance == Trim(s.lieuNaissance)
      && r.classe == Trim(s.classe)
  {
  }

  /** Every line the form sends is valid. */
  lemma SentLinesValid(eleves: seq<Student>)
    ensures forall k :: 0 <= k < |ValidStudents(eleves)| ==> FormValid(ValidStudents(eleves)[k])
  {
    ValidStudentsInOrder(eleves);
  }

  /** A submitted form becomes one row per line sent, in the same order, with
      non-empty trimmed names and the other fields trimmed as typed. */
  lemma SubmittedLinesAllStored(ctx: IntakeContext, eleves: seq<Student>, firstId: nat)
    ensures var valid := ValidStudents(eleves);
      var rows := NewRows(ctx, SentInputs(valid), firstId);
      && |rows| == |valid|
      && forall k :: 0 <= k < |rows| ==>
           && rows[k].id == firstId + k
           && rows[k].eleveNom == Trim(valid[k].nom) != ""
           && rows[k].elevePrenom == Trim(valid[k].prenom) != ""
           && rows[k].dateNaissance == valid[k].dateNaissance
           && rows[k].lieuNaissance == Trim(valid[k].lieuNaissance)
           && rows[k].classe == Trim(valid[k].classe)
  {
    var valid := ValidStudents(eleves);
    var sent := SentInputs(valid);
    SentLinesValid(eleves);
    forall k | 0 <= k < |sent| ensures Complete(sent[k]) {
      FormValidIsComplete(valid[k]);
    }
    AcceptedAllComplete(sent);
    var rows := NewRows(ctx, sent, firstId);
    forall k | 0 <= k < |rows|
      ensures && rows[k].id == firstId + k
              && rows[k].eleveNom == Trim(valid[k].nom) != ""
              && rows[k].elevePrenom == Trim(valid[k].prenom) != ""
              && rows[k].dateNaissance == valid[k].dateNaissance
              && rows[k].lieuNaissance == Trim(valid[k].lieuNaissance)
              && rows[k].classe == Trim(valid[k].classe)
    {
      assert Accepted(sent)[k] == ToInput(valid[k]);
      assert rows[k] == MakeRow(ctx, ToInput(valid[k]), firstId + k, k);
      FormLineStored(ctx, valid[k], firstId + k, k);
    }
  }

  // ---------------------------------------------------------------- moderation

  /** The update a confirmed modal sends leaves the selected registration with the
      chosen status and the non-empty room and centre typed in the modal; its accept button is then
      disabled exactly when the chosen status was `accepte`. */
  lemma ModalDecisionStored(regs: seq<Registration>, current: Option<Pending>, salle: string, centre: string)
    requires ModalRequest(current, salle, centre).Some?
    ensures var req := ModalRequest(current, salle, centre).value;
      var after := ApplyUpdate(regs, req.id, req.statut, req.salle, req.centre);
      forall k :: 0 <= k < |regs| && regs[k].id == current.value.row.inscription.id ==>
        && after[k].statut == Some(current.value.nouveauStatut)
        && after[k].salleExamen == Some(salle) && after[k].centreExamen == Some(centre)
        && Truthy(after[k].salleExamen) && Truthy(after[k].centreExamen)
        && (AcceptDisabled(after[k].statut) <==> current.value.nouveauStatut == "accepte")
  {
  }

  /** A refusal deletes nothing: every registration is still there, the refused one
      now shows a disabled refuse button and an enabled accept button, and the
      report's total is unchanged. */
  lemma RefusalKeepsRows(regs: seq<Registration>, row: AdminRow)
    ensures var req := RefusalRequest(Some(row)).value;
      var after := ApplyUpdate(regs, req.id, req.statut, req.salle, req.centre);
      && |after| == |regs|
      && Stats.Stats(after).total == Stats.Stats(regs).total
      && forall k :: 0 <= k < |regs| ==>
           && after[k].id == regs[k].id
           && (regs[k].id == row.inscription.id ==>
                 RefuseDisabled(after[k].statut) && !AcceptDisabled(after[k].statut))
  {
  }

  /** One more row adds one to a status count after the update exactly when the
      updated row has that status. */
  lemma RefusalCountStep(regs: seq<Registration>, id: int, salle: Option<string>, centre: Option<string>)
    requires regs != []
    ensures var n := |regs| - 1;
      var after := ApplyUpdate(regs, id, Some(Refused), salle, centre);
      && after[..n] == ApplyUpdate(regs[..n], id, Some(Refused), salle, centre)
      && CountStatus(after, Refused)
         == CountStatus(after[..n], Refused) + (if after[n].statut == Some(Refused) then 1 else 0)
      && CountStatus(regs, Refused)
         == CountStatus(regs[..n], Refused) + (if regs[n].statut == Some(Refused) then 1 else 0)
  {
    var n := |regs| - 1;
    var after, afterInit := ApplyUpdate(regs, id, Some(Refused), salle, centre),
                            ApplyUpdate(regs[..n], id, Some(Refused), salle, centre);
    forall j | 0 <= j < n ensures after[j] == afterInit[j] {
      assert regs[..n][j] == regs[j];
    }
    assert after[..n] == afterInit;
  }

  /** Refusing never lowers the refused count. */
  lemma {:induction false} RefusalNeverLowersCount(regs: seq<Registration>, id: int,
                                                   salle: Option<string>, centre: Option<string>)
    ensures CountStatus(ApplyUpdate(regs, id, Some(Refused), salle, centre), Refused) >= CountStatus(regs, Refused)
    decreases |regs|
  {
    if regs != [] {
      RefusalCountStep(regs, id, salle, centre);
      RefusalNeverLowersCount(regs[..|regs| - 1], id, salle, centre);
    }
  }

  /** Refusing a registration that was not refused yet raises the refused count. */
  lemma {:induction false} RefusalRaisesCount(regs: seq<Registration>, id: int, salle: Option<string>,
                                              centre: Option<string>, k: nat)
    requires k < |regs| && regs[k].id == id && regs[k].statut != Some(Refused)
    ensures CountStatus(ApplyUpdate(regs, id, Some(Refused), salle, centre), Refused) > CountStatus(regs, Refused)
    decreases |regs|
  {
    var n := |regs| - 1;
    var after := ApplyUpdate(regs, id, Some(Refused), salle, centre);
    RefusalCountStep(regs, id, salle, centre);
    if k < n {
      assert regs[..n][k] == regs[k];
      RefusalRaisesCount(regs[..n], id, salle, centre, k);
      assert after[n].statut == Some(Refused) || after[n] == regs[n];
    } else {
      RefusalNeverLowersCount(regs[..n], id, salle, centre);
      assert after[n].statut == Some(Refused) != regs[n].statut;
    }
  }

  // ---------------------------------------------------------------- import to login

  /** Every imported school can log in with its `etab_<code>` login and the default
      password, and the session opened is that of a school with the same login. */
  lemma ImportedSchoolLogsIn(entries: seq<Entry>, rejected: nat -> bool, firstId: nat, s: School)
    requires s in Imported(entries, rejected, firstId)
    ensures var r := SchoolLogin(Imported(entries, rejected, firstId), Some(s.login), Some(DefaultPassword));
      && r.Ok? && r.value.token.kind == SchoolKind
      && exists t :: t in Imported(entries, rejected, firstId) && t.login == s.login
                     && t.id == r.value.token.id
  {
    var schools := Imported(entries, rejected, firstId);
    ImportedCredentials(entries, rejected, firstId);
    assert s.login == LoginPrefix + s.code;
    assert Truthy(Some(s.login)) by { assert |s.login| >= |LoginPrefix|; }
    var i :| 0 <= i < |schools| && schools[i] == s;
    assert SchoolWithLogin(schools, s.login).Some?;
    var t := schools[SchoolWithLogin(schools, s.login).value];
    assert t in schools;
  }
}
