/** The straight-line decisions of the backend (backend/server.js): extracting the
    bearer token, the authentication middleware, and the two login checks. Token
    signing and verification are cryptography outside this model: a login returns
    the claims it would sign, and verification is an oracle `verify` that either
    yields the payload or fails. */
module Auth {
  import opened Common
  import opened Text
  import opened Records

  /** `authHeader && authHeader.split(' ')[1]`: the second space-separated field of
      the `Authorization` header. `None` stands for every falsy result (no header, an
      empty header, or a header without a space). */
  function BearerToken(header: Option<string>): (t: Option<string>)
    ensures t.Some? <==> Truthy(header) && ' ' in header.value
    ensures t.Some? ==> ' ' !in t.value
    ensures t.Some? ==>
      var h, i := header.value, IndexOf(header.value, ' ').value;
      && i + 1 + |t.value| <= |h|
      && h[i + 1..i + 1 + |t.value|] == t.value
      && (i + 1 + |t.value| == |h| || h[i + 1 + |t.value|] == ' ')
  {
    if !Truthy(header) then None
    else
      var parts := Split(header.value, ' ');
      if |parts| < 2 then None
      else
        var i := IndexOf(header.value, ' ').value;
        var rest := header.value[i + 1..];
        assert parts == [header.value[..i]] + Split(rest, ' ');
        assert parts[1] == Split(rest, ' ')[0];
        assert rest[..|parts[1]|] == parts[1];
        Some(parts[1])
  }

  /** The header the frontend builds, `Bearer <token>`, yields back the token. */
  lemma BearerRoundTrip(token: string)
    requires token != "" && ' ' !in token
    ensures BearerToken(Some("Bearer " + token)) == Some(token)
  {
    var parts := ["Bearer", token];
    assert Join(parts, ' ') == "Bearer " + token;
    SplitJoin(parts, ' ');
  }

  datatype AuthOutcome = Rejected(status: nat, error: string) | Authenticated(user: User)

  /** `authenticateToken`: 401 without a usable token, 403 when verification fails,
      otherwise the verified payload is handed to the route. */
  function Authenticate(header: Option<string>, verify: string -> Option<User>): (r: AuthOutcome)
    ensures !Truthy(BearerToken(header)) ==> r == Rejected(401, "Token requis")
    ensures Truthy(BearerToken(header)) && verify(BearerToken(header).value).None?
            ==> r == Rejected(403, "Token invalide")
    ensures r.Authenticated? <==> Truthy(BearerToken(header)) && verify(BearerToken(header).value).Some?
    ensures r.Authenticated? ==> verify(BearerToken(header).value) == Some(r.user)
  {
    var token := BearerToken(header);
    if !Truthy(token) then Rejected(401, "Token requis")
    else
      match verify(token.value)
      case None => Rejected(403, "Token invalide")
      case Some(user) => Authenticated(user)
  }

  /** A request without a header, with a header holding no space (`Bearer`), or
      with one whose only space ends it (`Bearer `), carries no token and is
      refused with 401 whatever the verifier would have said. */
  lemma MissingTokenNeverVerified(header: Option<string>, verify: string -> Option<User>)
    requires header.None? || ' ' !in header.value
             || (header.value != [] && IndexOf(header.value, ' ') == Some(|header.value| - 1))
    ensures Authenticate(header, verify) == Rejected(401, "Token requis")
  {
    var t := BearerToken(header);
    if t.Some? {
      assert |t.value| == 0;
    }
  }

  /** The payload a school login signs. */
  datatype SchoolClaims = SchoolClaims(id: nat, code: string, nom: string, kind: string)

  /** The school profile a login returns: no credentials. */
  datatype SchoolProfile = SchoolProfile(id: nat, code: string, nom: string,
    secteur: Option<string>, niveau: Option<string>, commune: Option<string>)

  datatype SchoolSession = SchoolSession(token: SchoolClaims, etablissement: SchoolProfile)

  /** `SELECT * FROM etablissements WHERE login = ?`, first row. */
  function SchoolWithLogin(schools: seq<School>, login: string): (r: Option<nat>)
    ensures r.None? <==> forall i :: 0 <= i < |schools| ==> schools[i].login != login
    ensures r.Some? ==> r.value < |schools| && schools[r.value].login == login
    ensures r.Some? ==> forall j :: 0 <= j < r.value ==> schools[j].login != login
  {
    FirstIndex(schools, (s: School) => s.login == login)
  }

  /** `POST /api/etablissements/login`. */
  function SchoolLogin(schools: seq<School>, login: Option<string>, password: Option<string>)
    : (r: Reply<SchoolSession>)
    ensures !Truthy(login) || !Truthy(password) ==> r == Fail(400, "Login et mot de passe requis")
    ensures Truthy(login) && Truthy(password) && SchoolWithLogin(schools, login.value).None?
            ==> r == Fail(401, "Établissement non trouvé")
    ensures Truthy(login) && Truthy(password) && SchoolWithLogin(schools, login.value).Some?
            ==> var s := schools[SchoolWithLogin(schools, login.value).value];
                if s.password != password.value then r == Fail(401, "Mot de passe incorrect")
                else r == Ok(SchoolSession(SchoolClaims(s.id, s.code, s.nom, SchoolKind),
                                           SchoolProfile(s.id, s.code, s.nom, s.secteur, s.niveau, s.commune)))
  {
    if !Truthy(login) || !Truthy(password) then Fail(400, "Login et mot de passe requis")
    else
      match SchoolWithLogin(schools, login.value)
      case None => Fail(401, "Établissement non trouvé")
      case Some(i) =>
        var s := schools[i];
        if password.value != s.password then Fail(401, "Mot de passe incorrect")
        else Ok(SchoolSession(SchoolClaims(s.id, s.code, s.nom, SchoolKind),
                              SchoolProfile(s.id, s.code, s.nom, s.secteur, s.niveau, s.commune)))
  }

  /** A school login succeeds only for a stored row whose login and password both
      match, and the session it opens is a school session for that row. */
  lemma SchoolLoginSound(schools: seq<School>, login: Option<string>, password: Option<string>)
    requires SchoolLogin(schools, login, password).Ok?
    ensures var r := SchoolLogin(schools, login, password).value;
      && r.token.kind == SchoolKind
      && exists s :: s in schools && Some(s.login) == login && Some(s.password) == password
                     && s.id == r.token.id == r.etablissement.id && s.code == r.etablissement.code
  {
    var s := schools[SchoolWithLogin(schools, login.value).value];
    assert s in schools;
  }

  /** The partner of soundness: when logins are unique, a stored school whose login
      and password are both non-empty logs in with them and gets its own session. */
  lemma SchoolLoginComplete(schools: seq<School>, s: School)
    requires s in schools && s.login != "" && s.password != ""
    requires forall t :: t in schools && t.login == s.login ==> t == s
    ensures SchoolLogin(schools, Some(s.login), Some(s.password))
         == Ok(SchoolSession(SchoolClaims(s.id, s.code, s.nom, SchoolKind),
                             SchoolProfile(s.id, s.code, s.nom, s.secteur, s.niveau, s.commune)))
  {
    var i :| 0 <= i < |schools| && schools[i] == s;
    var j := SchoolWithLogin(schools, s.login).value;
    assert schools[j] in schools;
  }

  /** The payload an administrator login signs. */
  datatype AdminClaims = AdminClaims(id: nat, username: string, nom: string, prenom: string,
                                     role: string, kind: string)

  /** The administrator profile a login returns: no password. */
  datatype AdminProfile = AdminProfile(id: nat, username: string, nom: string, prenom: string, role: string)

  datatype AdminSession = AdminSession(token: AdminClaims, admin: AdminProfile)

  /** `SELECT * FROM administrateurs WHERE username = ?`, first row. */
  function AdminWithUsername(admins: seq<Admin>, username: string): (r: Option<nat>)
    ensures r.None? <==> forall i :: 0 <= i < |admins| ==> admins[i].username != username
    ensures r.Some? ==> r.value < |admins| && admins[r.value].username == username
    ensures r.Some? ==> forall j :: 0 <= j < r.value ==> admins[j].username != username
  {
    FirstIndex(admins, (a: Admin) => a.username == username)
  }

  /** `POST /api/admin/login`. */
  function AdminLogin(admins: seq<Admin>, username: Option<string>, password: Option<string>)
    : (r: Reply<AdminSession>)
    ensures !Truthy(username) || !Truthy(password) ==> r == Fail(400, "Username et mot de passe requis")
    ensures Truthy(username) && Truthy(password) && AdminWithUsername(admins, username.value).None?
            ==> r == Fail(401, "Administrateur non trouvé")
    ensures Truthy(username) && Truthy(password) && AdminWithUsername(admins, username.value).Some?
            ==> var a := admins[AdminWithUsername(admins, username.value).value];
                if a.password != password.value then r == Fail(401, "Mot de passe incorrect")
                else r == Ok(AdminSession(AdminClaims(a.id, a.username, a.nom, a.prenom, a.role, AdminKind),
                                          AdminProfile(a.id, a.username, a.nom, a.prenom, a.role)))
  {
    if !Truthy(username) || !Truthy(password) then Fail(400, "Username et mot de passe requis")
    else
      match AdminWithUsername(admins, username.value)
      case None => Fail(401, "Administrateur non trouvé")
      case Some(i) =>
        var a := admins[i];
        if password.value != a.password then Fail(401, "Mot de passe incorrect")
        else Ok(AdminSession(AdminClaims(a.id, a.username, a.nom, a.prenom, a.role, AdminKind),
                             AdminProfile(a.id, a.username, a.nom, a.prenom, a.role)))
  }

  /** An administrator login succeeds only for a stored row whose username and
      password both match, and the session it opens is an administrator session. */
  lemma AdminLoginSound(admins: seq<Admin>, username: Option<string>, password: Option<string>)
    requires AdminLogin(admins, username, password).Ok?
    ensures var r := AdminLogin(admins, username, password).value;
      && r.token.kind == AdminKind
      && exists a :: a in admins && Some(a.username) == username && Some(a.password) == password
                     && a.id == r.token.id == r.admin.id
  {
    var a := admins[AdminWithUsername(admins, username.value).value];
    assert a in admins;
  }

  /** The partner of soundness: when usernames are unique, a stored administrator
      whose username and password are both non-empty logs in with them. */
  lemma AdminLoginComplete(admins: seq<Admin>, a: Admin)
    requires a in admins && a.username != "" && a.password != ""
    requires forall b :: b in admins && b.username == a.username ==> b == a
    ensures AdminLogin(admins, Some(a.username), Some(a.password))
         == Ok(AdminSession(AdminClaims(a.id, a.username, a.nom, a.prenom, a.role, AdminKind),
                            AdminProfile(a.id, a.username, a.nom, a.prenom, a.role)))
  {
    var i :| 0 <= i < |admins| && admins[i] == a;
    var j := AdminWithUsername(admins, a.username).value;
    assert admins[j] in admins;
  }
}
