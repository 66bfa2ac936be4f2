/** The entities of the registration portal: the rows of the four tables the
    backend reads and writes, the shapes of request bodies and replies, and the
    verified token payload the handlers see as `req.user`. */
module Records {
  import opened Common

  /** A row of `etablissements`. The descriptive columns may be NULL. */
  datatype School = School(
    id: nat, code: string, nom: string,
    secteur: Option<string>, niveau: Option<string>, commune: Option<string>,
    zap: Option<string>, fokontany: Option<string>, village: Option<string>,
    remarques: Option<string>,
    login: string, password: string)

  /** The columns the public directory selects: the credentials are not among them. */
  datatype PublicSchool = PublicSchool(
    id: nat, code: string, nom: string,
    secteur: Option<string>, niveau: Option<string>, commune: Option<string>,
    zap: Option<string>, fokontany: Option<string>, village: Option<string>,
    remarques: Option<string>)

  function Public(s: School): PublicSchool
  {
    PublicSchool(s.id, s.code, s.nom, s.secteur, s.niveau, s.commune, s.zap,
                 s.fokontany, s.village, s.remarques)
  }

  /** A row of `administrateurs`. */
  datatype Admin = Admin(id: nat, username: string, password: string,
                         nom: string, prenom: string, role: string)

  /** A row of `examens`, reduced to the columns the listings join on. */
  datatype Exam = Exam(id: nat, nom: string)

  /** A row of `inscriptions`. `statut`, `salle_examen` and `centre_examen` may be NULL. */
  datatype Registration = Registration(
    id: nat, etablissementId: int, examenId: int,
    eleveNom: string, elevePrenom: string, dateNaissance: string,
    lieuNaissance: string, classe: string, numeroInscription: string,
    statut: Option<string>, salleExamen: Option<string>, centreExamen: Option<string>,
    dateInscription: int)

  /** The verified token payload: the caller's id and its `type` claim. */
  datatype User = User(id: int, kind: string)

  /** One element of the intake body's `eleves`; `None` is an absent or null field. */
  datatype StudentInput = StudentInput(
    nom: Option<string>, prenom: Option<string>, dateNaissance: Option<string>,
    lieuNaissance: Option<string>, classe: Option<string>)

  /** The intake body's `eleves` field: absent, some non-array value, or an array. */
  datatype ElevesField = Missing | NotAnArray | Students(list: seq<StudentInput>)

  /** One element of the intake reply's `inscriptions`: the new id and number, then the student as sent. */
  datatype Created = Created(id: nat, numeroInscription: string, eleve: StudentInput)

  /** A row of the admin listing: the registration joined with its school and exam names. */
  datatype AdminRow = AdminRow(inscription: Registration, etablissementNom: string,
                               etablissementCode: string, examenNom: string)

  /** A row of a school's own listing: the registration joined with its exam name. */
  datatype SchoolRow = SchoolRow(inscription: Registration, examenNom: string)

  /** An HTTP reply: 200 with a payload, or an error status with the body's `error` message. */
  datatype Reply<T> = Ok(value: T) | Fail(status: nat, error: string)

  /** JavaScript truthiness of an optional string: present and non-empty. */
  predicate Truthy(v: Option<string>)
  {
    v.Some? && v.value != ""
  }

  /** JavaScript truthiness of an optional number: present and non-zero. */
  predicate TruthyId(v: Option<int>)
  {
    v.Some? && v.value != 0
  }

  const SchoolKind := "etablissement"
  const AdminKind := "admin"
  const Forbidden := "Accès non autorisé"

  predicate SchoolIdsUnique(schools: seq<School>)
  {
    forall i, j :: 0 <= i < j < |schools| ==> schools[i].id != schools[j].id
  }

  predicate ExamIdsUnique(exams: seq<Exam>)
  {
    forall i, j :: 0 <= i < j < |exams| ==> exams[i].id != exams[j].id
  }

  predicate RegistrationIdsUnique(regs: seq<Registration>)
  {
    forall i, j :: 0 <= i < j < |regs| ==> regs[i].id != regs[j].id
  }
}
