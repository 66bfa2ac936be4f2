/** The moderation side of the administrators' page (frontend/src/pages/EspaceAdmin.js):
    the modal that assigns a room and a centre while changing a registration's
    status, the confirmation that refuses a registration, the status badge and the
    rules that disable the accept and refuse buttons. */
module AdminPanel {
  import opened Common
  import opened Text
  import opened Records
  import opened Ledger
  import opened Stats

  /** `currentInscription`: the listing row with the status the modal is about to set. */
  datatype Pending = Pending(row: AdminRow, nouveauStatut: string)

  /** The `PUT /api/admin/inscriptions/:id` call: the row id and the body. */
  datatype UpdateRequest = UpdateRequest(id: int, statut: Option<string>,
                                         salle: Option<string>, centre: Option<string>)

  /** The request `validerModal` sends from the modal's state, if any: none while a
      field is empty or nothing is selected, otherwise the pending status with both
      fields for the selected row. */
  function ModalRequest(current: Option<Pending>, salle: string, centre: string): (r: Option<UpdateRequest>)
    ensures r.Some? <==> salle != "" && centre != "" && current.Some?
    ensures r.Some? ==>
      && r.value.id == current.value.row.inscription.id
      && r.value.statut == Some(current.value.nouveauStatut)
      && r.value.salle == Some(salle) && r.value.centre == Some(centre)
      && Truthy(r.value.salle) && Truthy(r.value.centre)
  {
    if salle == "" || centre == "" then None
    else
      match current
      case None => None
      case Some(p) => Some(UpdateRequest(p.row.inscription.id, Some(p.nouveauStatut), Some(salle), Some(centre)))
  }

  const Refused := "refuse"

  /** The request `supprimerInscription` sends: a status change to `refuse` with
      both fields emptied, never a deletion; none when nothing is selected. */
  function RefusalRequest(toDelete: Option<AdminRow>): (r: Option<UpdateRequest>)
    ensures r.Some? <==> toDelete.Some?
    ensures r.Some? ==> r.value == UpdateRequest(toDelete.value.inscription.id, Some(Refused), Some(""), Some(""))
  {
    match toDelete
    case None => None
    case Some(row) => Some(UpdateRequest(row.inscription.id, Some(Refused), Some(""), Some("")))
  }

  /** A status badge: its CSS classes and its label. */
  datatype Badge = Badge(className: string, caption: string)

  /** `getStatutBadge`: the three known statuses have their own class and any other
      falls back to the waiting one; the label is the status with its first `_`
      turned into a space. */
  function StatutBadge(statut: string): (b: Badge)
    ensures KnownStatus(Some(statut)) ==> b.className == "badge badge-" + statut
    ensures !KnownStatus(Some(statut)) ==> b.className == "badge badge-en_attente"
    ensures b.caption == ReplaceFirst(statut, '_', ' ')
  {
    var cls := if KnownStatus(Some(statut)) then "badge-" + statut else "badge-en_attente";
    assert "badge " + ("badge-" + statut) == ("badge " + "badge-") + statut;
    assert "badge " + "badge-" == "badge badge-";
    Badge("badge " + cls, ReplaceFirst(statut, '_', ' '))
  }

  /** Only the first `_` becomes a space: `a_b` is shown as `a b` whatever `b`
      holds (so `en_attente` reads `en attente`). */
  lemma BadgeCaption(a: string, b: string)
    requires '_' !in a
    ensures StatutBadge(a + ['_'] + b).caption == a + [' '] + b
  {
    var s := a + ['_'] + b;
    assert s[|a|] == '_' && s[..|a|] == a;
    IndexOfAt(s, '_', |a|);
    assert s[|a| + 1..] == b;
  }

  /** A status without `_` is shown as it is. */
  lemma PlainBadge(statut: string)
    requires '_' !in statut
    ensures KnownStatus(Some(statut)) ==> StatutBadge(statut) == Badge("badge badge-" + statut, statut)
    ensures !KnownStatus(Some(statut)) ==> StatutBadge(statut) == Badge("badge badge-en_attente", statut)
  {
    assert ReplaceFirst(statut, '_', ' ') == statut;
  }

  /** The accept button is disabled exactly on accepted rows, the refuse button exactly on refused ones. */
  predicate AcceptDisabled(statut: Option<string>)
  {
    statut == Some("accepte")
  }

  predicate RefuseDisabled(statut: Option<string>)
  {
    statut == Some(Refused)
  }

  /** No row has both buttons disabled, and a waiting or unknown row has neither. */
  lemma ButtonsNeverBothDisabled(statut: Option<string>)
    ensures !(AcceptDisabled(statut) && RefuseDisabled(statut))
    ensures statut != Some("accepte") && statut != Some(Refused) ==>
      !AcceptDisabled(statut) && !RefuseDisabled(statut)
  {
  }

  /** The page's moderation state: `showModal`, `currentInscription`, `modalData`,
      `showDeleteModal` and `inscriptionToDelete`. */
  class Panel {
    var showModal: bool
    var current: Option<Pending>
    var salleExamen: string
    var centreExamen: string
    var showDeleteModal: bool
    var toDelete: Option<AdminRow>

    /** Nothing open, nothing selected, both fields empty. */
    predicate Closed()
      reads this
    {
      !showModal && current.None? && salleExamen == "" && centreExamen == ""
    }

    constructor ()
      ensures Closed() && !showDeleteModal && toDelete.None?
    {
      showModal := false;
      current := None;
      salleExamen := "";
      centreExamen := "";
      showDeleteModal := false;
      toDelete := None;
    }

    /** `ouvrirModal`: selects the row with the status to set and prefills the two
        fields with the row's current room and centre, or empty. */
    method OuvrirModal(row: AdminRow, statut: string)
      modifies this`showModal, this`current, this`salleExamen, this`centreExamen
      ensures showModal && current == Some(Pending(row, statut))
      ensures salleExamen == OrEmpty(row.inscription.salleExamen)
      ensures centreExamen == OrEmpty(row.inscription.centreExamen)
    {
      current := Some(Pending(row, statut));
      salleExamen := OrEmpty(row.inscription.salleExamen);
      centreExamen := OrEmpty(row.inscription.centreExamen);
      showModal := true;
    }

    /** Typing into the room field. */
    method EditSalle(value: string)
      modifies this`salleExamen
      ensures salleExamen == value
    {
      salleExamen := value;
    }

    /** Typing into the centre field. */
    method EditCentre(value: string)
      modifies this`centreExamen
      ensures centreExamen == value
    {
      centreExamen := value;
    }

    /** `fermerModal`: hides the modal, forgets the row and empties both fields. */
    method FermerModal()
      modifies this`showModal, this`current, this`salleExamen, this`centreExamen
      ensures Closed()
    {
      showModal := false;
      current := None;
      salleExamen := "";
      centreExamen := "";
    }

    /** `validerModal`: sends `ModalRequest` of the state, if there is one; once the
        update has succeeded the modal closes, otherwise the state stays as it was. */
    method ValiderModal(succeeded: bool) returns (sent: Option<UpdateRequest>)
      modifies this`showModal, this`current, this`salleExamen, this`centreExamen
      ensures sent == ModalRequest(old(current), old(salleExamen), old(centreExamen))
      ensures sent.Some? && succeeded ==> Closed()
      ensures sent.None? || !succeeded ==>
        && showModal == old(showModal) && current == old(current)
        && salleExamen == old(salleExamen) && centreExamen == old(centreExamen)
    {
      if salleExamen == "" || centreExamen == "" {
        return None;
      }
      if current.None? {
        return None;
      }
      sent := Some(UpdateRequest(current.value.row.inscription.id, Some(current.value.nouveauStatut),
                                 Some(salleExamen), Some(centreExamen)));
      if succeeded {
        FermerModal();
      }
    }

    /** `ouvrirDeleteModal`: selects the row to refuse. */
    method OuvrirDeleteModal(row: AdminRow)
      modifies this`showDeleteModal, this`toDelete
      ensures showDeleteModal && toDelete == Some(row)
    {
      toDelete := Some(row);
      showDeleteModal := true;
    }

    /** `fermerDeleteModal`. */
    method FermerDeleteModal()
      modifies this`showDeleteModal, this`toDelete
      ensures !showDeleteModal && toDelete.None?
    {
      showDeleteModal := false;
      toDelete := None;
    }

    /** `supprimerInscription`: nothing without a selected row; otherwise the
        refusal update is sent, and the confirmation closes once it has succeeded. */
    method SupprimerInscription(succeeded: bool) returns (sent: Option<UpdateRequest>)
      modifies this`showDeleteModal, this`toDelete
      ensures sent == RefusalRequest(old(toDelete))
      ensures sent.Some? && succeeded ==> !showDeleteModal && toDelete.None?
      ensures sent.None? || !succeeded ==>
        showDeleteModal == old(showDeleteModal) && toDelete == old(toDelete)
    {
      if toDelete.None? {
        return None;
      }
      sent := Some(UpdateRequest(toDelete.value.inscription.id, Some(Refused), Some(""), Some("")));
      if succeeded {
        FermerDeleteModal();
      }
    }
  }
}
