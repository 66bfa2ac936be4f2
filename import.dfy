/** The bulk school import of backend/import-etablissements.js: the table is
    emptied, then every entry of the embedded list is inserted in order with its
    code and name trimmed, the login `etab_<code>` and the shared default password.
    An insert the database refuses is counted as an error and the loop goes on;
    which inserts fail is a parameter, `rejected(k)` for the `k`-th entry. */
module Import {
  import opened Common
  import opened Text
  import opened Records
  import Server

  /** One element of the embedded list; `None` is a property the literal leaves out. */
  datatype Entry = Entry(
    code: string, nom: string,
    secteur: Option<string>, niveau: Option<string>, commune: Option<string>,
    zap: Option<string>, fokontany: Option<string>, village: Option<string>,
    remarques: Option<string>)

  const DefaultPassword := "sisco2024"
  const LoginPrefix := "etab_"

  /** The row inserted for entry `e` with id `id`. */
  function ImportRow(e: Entry, id: nat): School
  {
    var code := Trim(e.code);
    School(id, code, Trim(e.nom), e.secteur, e.niveau, e.commune, e.zap, e.fokontany,
           if Truthy(e.village) then e.village else None, e.remarques,
           LoginPrefix + code, DefaultPassword)
  }

  /** The derived row: trimmed code and name, login `etab_` followed by the trimmed
      code, the default password, a falsy village stored as NULL, and the other
      columns copied from the entry. */
  lemma ImportRowShape(e: Entry, id: nat)
    ensures var s := ImportRow(e, id);
      && s.id == id
      && s.code == Trim(e.code) && s.nom == Trim(e.nom)
      && s.login == LoginPrefix + Trim(e.code) && s.password == DefaultPassword
      && (s.village.Some? <==> Truthy(e.village))
      && (s.village.Some? ==> s.village == e.village)
      && s.secteur == e.secteur && s.niveau == e.niveau && s.commune == e.commune
      && s.zap == e.zap && s.fokontany == e.fokontany && s.remarques == e.remarques
  {
  }

  /** The rows an import of `entries` leaves in the emptied table, with ids from `firstId`. */
  function Imported(entries: seq<Entry>, rejected: nat -> bool, firstId: nat): seq<School>
    decreases |entries|
  {
    if entries == [] then []
    else
      var init := Imported(entries[..|entries| - 1], rejected, firstId);
      init + (if rejected(|entries| - 1) then []
              else [ImportRow(entries[|entries| - 1], firstId + |init|)])
  }

  /** The number of entries whose insert fails. */
  function RejectedCount(entries: seq<Entry>, rejected: nat -> bool): nat
    decreases |entries|
  {
    if entries == [] then 0
    else RejectedCount(entries[..|entries| - 1], rejected) + (if rejected(|entries| - 1) then 1 else 0)
  }

  /** Every entry is attempted once: the rows inserted and the errors counted add up to the entries. */
  lemma {:induction false} ImportCounts(entries: seq<Entry>, rejected: nat -> bool, firstId: nat)
    ensures |Imported(entries, rejected, firstId)| + RejectedCount(entries, rejected) == |entries|
    decreases |entries|
  {
    if entries != [] {
      ImportCounts(entries[..|entries| - 1], rejected, firstId);
    }
  }

  /** One more entry adds its row when its insert succeeds, and an error otherwise. */
  lemma ImportStep(entries: seq<Entry>, rejected: nat -> bool, firstId: nat, i: nat)
    requires i < |entries|
    ensures var prev := Imported(entries[..i], rejected, firstId);
      Imported(entries[..i + 1], rejected, firstId)
      == prev + (if rejected(i) then [] else [ImportRow(entries[i], firstId + |prev|)])
    ensures RejectedCount(entries[..i + 1], rejected)
      == RejectedCount(entries[..i], rejected) + (if rejected(i) then 1 else 0)
  {
    assert entries[..i + 1][..i] == entries[..i];
  }

  /** `row` is the row derived from some entry whose insert succeeds, with id `id`. */
  predicate FromAcceptedEntry(entries: seq<Entry>, rejected: nat -> bool, row: School, id: nat)
  {
    exists j :: 0 <= j < |entries| && !rejected(j) && row == ImportRow(entries[j], id)
  }

  /** The `k`-th imported row has id `firstId + k` and is the row derived from an
      entry whose insert succeeds. */
  lemma {:induction false} ImportedRows(entries: seq<Entry>, rejected: nat -> bool, firstId: nat)
    ensures forall k :: 0 <= k < |Imported(entries, rejected, firstId)| ==>
      Imported(entries, rejected, firstId)[k].id == firstId + k
    ensures forall k :: 0 <= k < |Imported(entries, rejected, firstId)| ==>
      FromAcceptedEntry(entries, rejected, Imported(entries, rejected, firstId)[k], firstId + k)
    decreases |entries|
  {
    if entries != [] {
      var init := entries[..|entries| - 1];
      ImportedRows(init, rejected, firstId);
      var prev := Imported(init, rejected, firstId);
      var rows := Imported(entries, rejected, firstId);
      var last := |entries| - 1;
      assert rows == prev + (if rejected(last) then [] else [ImportRow(entries[last], firstId + |prev|)]);
      forall k | 0 <= k < |rows|
        ensures rows[k].id == firstId + k
        ensures FromAcceptedEntry(entries, rejected, rows[k], firstId + k)
      {
        if k < |prev| {
          assert rows[k] == prev[k];
          assert FromAcceptedEntry(init, rejected, prev[k], firstId + k);
          var j :| 0 <= j < |init| && !rejected(j) && prev[k] == ImportRow(init[j], firstId + k);
          assert init[j] == entries[j];
        } else {
          assert rows[k] == ImportRow(entries[last], firstId + k);
        }
      }
    }
  }

  /** The imported rows have distinct ids, all below the counter after the import. */
  lemma ImportedKeys(entries: seq<Entry>, rejected: nat -> bool, firstId: nat)
    ensures var rows := Imported(entries, rejected, firstId);
      && SchoolIdsUnique(rows)
      && forall s :: s in rows ==> firstId <= s.id < firstId + |rows|
  {
    ImportedRows(entries, rejected, firstId);
    var rows := Imported(entries, rejected, firstId);
    forall s | s in rows ensures firstId <= s.id < firstId + |rows| {
      var k :| 0 <= k < |rows| && rows[k] == s;
    }
  }

  /** When no insert fails, the table holds one row per entry, in order. */
  lemma {:induction false} ImportAllAccepted(entries: seq<Entry>, rejected: nat -> bool, firstId: nat)
    requires forall k :: 0 <= k < |entries| ==> !rejected(k)
    ensures var rows := Imported(entries, rejected, firstId);
      |rows| == |entries| && forall k :: 0 <= k < |rows| ==> rows[k] == ImportRow(entries[k], firstId + k)
    decreases |entries|
  {
    if entries != [] {
      var init := entries[..|entries| - 1];
      ImportAllAccepted(init, rejected, firstId);
      var prev := Imported(init, rejected, firstId);
      var rows := Imported(entries, rejected, firstId);
      var last := |entries| - 1;
      assert rows == prev + [ImportRow(entries[last], firstId + last)];
      forall k | 0 <= k < |rows| ensures rows[k] == ImportRow(entries[k], firstId + k) {
        if k < |prev| {
          assert rows[k] == prev[k] && init[k] == entries[k];
        }
      }
    }
  }

  /** Every imported school can log in as `etab_<code>` with the default password,
      and its stored code is already trimmed. */
  lemma ImportedCredentials(entries: seq<Entry>, rejected: nat -> bool, firstId: nat)
    ensures forall s :: s in Imported(entries, rejected, firstId) ==>
      s.login == LoginPrefix + s.code && s.password == DefaultPassword && Trim(s.code) == s.code
  {
    ImportedRows(entries, rejected, firstId);
    var rows := Imported(entries, rejected, firstId);
    forall s | s in rows
      ensures s.login == LoginPrefix + s.code && s.password == DefaultPassword && Trim(s.code) == s.code
    {
      var k :| 0 <= k < |rows| && rows[k] == s;
      assert FromAcceptedEntry(entries, rejected, rows[k], firstId + k);
      var j :| 0 <= j < |entries| && !rejected(j) && rows[k] == ImportRow(entries[j], firstId + k);
      TrimUntouched(Trim(entries[j].code));
    }
  }

  /** The insert loop of `importerEtablissementsSansDoublons`: walks the entries in
      order, derives each row with the next id, and counts the inserts that succeed
      (`compteur`) and those that fail (`erreurs`). */
  method InsertEntries(entries: seq<Entry>, rejected: nat -> bool, first: nat)
    returns (added: seq<School>, compteur: nat, erreurs: nat)
    ensures added == Imported(entries, rejected, first)
    ensures compteur == |added| && erreurs == RejectedCount(entries, rejected)
    ensures compteur + erreurs == |entries|
  {
    added, compteur, erreurs := [], 0, 0;
    var i := 0;
    while i < |entries|
      invariant 0 <= i <= |entries|
      invariant added == Imported(entries[..i], rejected, first)
      invariant compteur == |added|
      invariant erreurs == RejectedCount(entries[..i], rejected)
    {
      ImportStep(entries, rejected, first, i);
      if rejected(i) {
        erreurs := erreurs + 1;
      } else {
        added := added + [ImportRow(entries[i], first + compteur)];
        compteur := compteur + 1;
      }
      i := i + 1;
    }
    assert entries[..|entries|] == entries;
    ImportCounts(entries, rejected, first);
  }

  /** `importerEtablissementsSansDoublons`: empties the school table, then inserts
      the rows of `InsertEntries` with ids from the table's counter. */
  method ImportSchools(store: Server.Store, entries: seq<Entry>, rejected: nat -> bool)
    returns (compteur: nat, erreurs: nat)
    requires store.Valid()
    modifies store`schools, store`nextSchoolId
    ensures store.Valid()
    ensures store.schools == Imported(entries, rejected, old(store.nextSchoolId))
    ensures compteur == |store.schools| && erreurs == RejectedCount(entries, rejected)
    ensures compteur + erreurs == |entries|
    ensures store.nextSchoolId == old(store.nextSchoolId) + compteur
  {
    store.schools := [];
    var added;
    added, compteur, erreurs := InsertEntries(entries, rejected, store.nextSchoolId);
    ImportedKeys(entries, rejected, store.nextSchoolId);
    store.schools := store.schools + added;
    store.nextSchoolId := store.nextSchoolId + compteur;
  }
}
