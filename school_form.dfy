/** The registration form of a school's page (frontend/src/pages/EspaceEtablissement.js):
    a chosen exam and a list of student lines that the user edits, extends and
    shortens, then submits. Only the lines whose name, first name and date of birth
    are filled in are sent, and a successful submission resets the form. */
module SchoolForm {
  import opened Common
  import opened Text
  import opened Records

  /** One student line of the form; every field is a text input, so a string. */
  datatype Student = Student(nom: string, prenom: string, dateNaissance: string,
                             lieuNaissance: string, classe: string)

  datatype Field = Nom | Prenom | DateNaissance | LieuNaissance | Classe

  function BlankStudent(): Student
  {
    Student("", "", "", "", "")
  }

  function Get(s: Student, f: Field): string
  {
    match f
    case Nom => s.nom
    case Prenom => s.prenom
    case DateNaissance => s.dateNaissance
    case LieuNaissance => s.lieuNaissance
    case Classe => s.classe
  }

  /** `eleve[field] = value`: the field takes the value and no other field changes. */
  function WithField(s: Student, f: Field, v: string): (r: Student)
    ensures Get(r, f) == v
    ensures forall g :: g != f ==> Get(r, g) == Get(s, g)
  {
    match f
    case Nom => s.(nom := v)
    case Prenom => s.(prenom := v)
    case DateNaissance => s.(dateNaissance := v)
    case LieuNaissance => s.(lieuNaissance := v)
    case Classe => s.(classe := v)
  }

  /** The filter of `handleSubmit`: trimmed name and first name and the date of birth are non-empty. */
  predicate FormValid(s: Student)
  {
    Trim(s.nom) != "" && Trim(s.prenom) != "" && s.dateNaissance != ""
  }

  function Keep(s: Student): Option<Student>
  {
    if FormValid(s) then Some(s) else None
  }

  /** `elevesValides`. */
  function ValidStudents(eleves: seq<Student>): seq<Student>
  {
    Collect(eleves, Keep)
  }

  /** The students sent are exactly the valid lines, in their original order: the
      `k`-th one is line `src[k]`, the positions increase, and a line is among them
      exactly when it is valid. */
  lemma ValidStudentsInOrder(eleves: seq<Student>)
    ensures var sent, src := ValidStudents(eleves), Hits(eleves, Keep);
      && |sent| == |src|
      && (forall k :: 0 <= k < |sent| ==>
            src[k] < |eleves| && sent[k] == eleves[src[k]] && FormValid(sent[k]))
      && (forall k, l :: 0 <= k < l < |src| ==> src[k] < src[l])
      && (forall i :: 0 <= i < |eleves| ==> (i in src <==> FormValid(eleves[i])))
  {
    CollectHits(eleves, Keep);
    var sent, src := ValidStudents(eleves), Hits(eleves, Keep);
    forall k | 0 <= k < |sent| ensures sent[k] == eleves[src[k]] && FormValid(sent[k]) {
      assert Keep(eleves[src[k]]) == Some(sent[k]);
    }
  }

  /** `eleves.filter((_, i) => i !== index)`. */
  function Without(s: seq<Student>, index: int): (r: seq<Student>)
    ensures 0 <= index < |s| ==> r == s[..index] + s[index + 1..]
    ensures !(0 <= index < |s|) ==> r == s
    decreases |s|
  {
    if s == [] then []
    else
      var init := s[..|s| - 1];
      var last := s[|s| - 1];
      var r := Without(init, index) + (if index == |s| - 1 then [] else [last]);
      assert 0 <= index < |s| - 1 ==> r == s[..index] + s[index + 1..] by {
        if 0 <= index < |s| - 1 {
          assert init[..index] == s[..index];
          assert init[index + 1..] + [last] == s[index + 1..];
        }
      }
      assert !(0 <= index < |s|) ==> r == s by {
        if !(0 <= index < |s|) {
          assert init + [last] == s;
        }
      }
      r
  }

  /** The body `handleSubmit` posts. */
  datatype InscriptionRequest = InscriptionRequest(eleves: seq<Student>, examenId: string)

  /** What the request came back with: the server's `message`, or the `error` of
      the reply body if there is one. */
  datatype SubmitOutcome = Succeeded(message: string) | Failed(error: Option<string>)

  const NoExamMessage := "Veuillez sélectionner un examen"
  const NoStudentMessage := "Veuillez remplir au moins le nom, prénom et date de naissance pour un élève"
  const DefaultError := "Erreur lors de l'inscription"

  const SuccessMark := '\U{2705}'
  const FailureMark := '\U{274C}'

  /** The message shown once the request has come back. */
  function OutcomeMessage(outcome: SubmitOutcome): string
  {
    match outcome
    case Succeeded(msg) => [SuccessMark, ' '] + msg
    case Failed(err) => [FailureMark, ' '] + (if Truthy(err) then err.value else DefaultError)
  }

  /** The message starts with the success mark exactly when the request succeeded,
      and after the mark and a space it carries the server's message, the server's
      error, or the default error when the reply had none. */
  lemma OutcomeShown(outcome: SubmitOutcome)
    ensures var m := OutcomeMessage(outcome);
      && |m| >= 2 && m[1] == ' '
      && (m[0] == SuccessMark <==> outcome.Succeeded?)
      && (m[0] == FailureMark <==> outcome.Failed?)
      && (outcome.Succeeded? ==> m[2..] == outcome.message)
      && (outcome.Failed? ==> m[2..] == if Truthy(outcome.error) then outcome.error.value else DefaultError)
  {
    var m := OutcomeMessage(outcome);
    match outcome
    case Succeeded(msg) =>
      assert m == [SuccessMark, ' '] + msg;
    case Failed(err) =>
      assert m == [FailureMark, ' '] + (if Truthy(err) then err.value else DefaultError);
  }

  /** The form state of the page: `formData`, `message` and `loading`. */
  class InscriptionForm {
    var examenId: string
    var eleves: seq<Student>
    var message: string
    var loading: bool

    /** The list of student lines is never empty. */
    ghost predicate Valid()
      reads this
    {
      |eleves| >= 1
    }

    /** The initial state: no exam chosen and one blank student line. */
    constructor ()
      ensures Valid()
      ensures examenId == "" && eleves == [BlankStudent()]
      ensures message == "" && !loading
    {
      examenId := "";
      eleves := [BlankStudent()];
      message := "";
      loading := false;
    }

    /** `handleEleveChange`: only `field` of line `index` takes `value`. */
    method HandleEleveChange(index: nat, field: Field, value: string)
      requires Valid() && index < |eleves|
      modifies this`eleves
      ensures Valid()
      ensures |eleves| == |old(eleves)|
      ensures eleves == old(eleves)[index := WithField(old(eleves)[index], field, value)]
    {
      eleves := eleves[index := WithField(eleves[index], field, value)];
    }

    /** `ajouterEleve`: one blank line is appended and the others are untouched. */
    method AjouterEleve()
      requires Valid()
      modifies this`eleves
      ensures Valid()
      ensures eleves == old(eleves) + [BlankStudent()]
    {
      eleves := eleves + [BlankStudent()];
    }

    /** `supprimerEleve`: with more than one line, the line at `index` goes (an index
        outside the list removes nothing); the last remaining line is never removed. */
    method SupprimerEleve(index: int)
      requires Valid()
      modifies this`eleves
      ensures Valid()
      ensures |old(eleves)| > 1 && 0 <= index < |old(eleves)| ==>
        eleves == old(eleves)[..index] + old(eleves)[index + 1..]
      ensures |old(eleves)| == 1 || !(0 <= index < |old(eleves)|) ==> eleves == old(eleves)
    {
      if |eleves| > 1 {
        eleves := Without(eleves, index);
      }
    }

    /** `handleSubmit`: no exam, or no valid line, sets a message and sends nothing;
        otherwise the valid lines are sent with the exam, and the reply decides the
        message. A success resets the form; `loading` is off again at the end. */
    method HandleSubmit(outcome: SubmitOutcome) returns (sent: Option<InscriptionRequest>)
      requires Valid()
      modifies this
      ensures Valid()
      ensures old(examenId) == "" ==>
        && sent.None? && message == NoExamMessage
        && examenId == old(examenId) && eleves == old(eleves) && loading == old(loading)
      ensures old(examenId) != "" && ValidStudents(old(eleves)) == [] ==>
        && sent.None? && message == NoStudentMessage
        && examenId == old(examenId) && eleves == old(eleves) && loading == old(loading)
      ensures old(examenId) != "" && ValidStudents(old(eleves)) != [] ==>
        && sent == Some(InscriptionRequest(ValidStudents(old(eleves)), old(examenId)))
        && message == OutcomeMessage(outcome)
        && !loading
        && (outcome.Succeeded? ==> examenId == "" && eleves == [BlankStudent()])
        && (outcome.Failed? ==> examenId == old(examenId) && eleves == old(eleves))
    {
      if examenId == "" {
        message := NoExamMessage;
        return None;
      }
      var valides := ValidStudents(eleves);
      if |valides| == 0 {
        message := NoStudentMessage;
        return None;
      }
      loading := true;
      message := "";
      sent := Some(InscriptionRequest(valides, examenId));
      match outcome {
        case Succeeded(msg) =>
          message := [SuccessMark, ' '] + msg;
          examenId := "";
          eleves := [BlankStudent()];
        case Failed(err) =>
          message := [FailureMark, ' '] + (if Truthy(err) then err.value else DefaultError);
      }
      loading := false;
    }
  }
}
