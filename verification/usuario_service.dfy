/**
 * The registration service, `UsuarioService.criarUsuario`.
 *
 * Four checks run in a fixed order and the first that fails ends the call
 * with its own message; only when all four pass is the user handed to the
 * repository, whose generated identifier is returned unchanged.  A thrown
 * error is modelled as an `Err` carrying the failed check.
 */
module UsuarioService {
  import opened Wrappers
  import opened JsText
  import opened EmailPattern
  import opened UsuarioRepository

  /**
   * The request payload.  Each field is a string or absent (`undefined` or
   * `null`), which `None` stands for.
   */
  datatype Usuario = Usuario(name: Option<JsString>, email: Option<JsString>, password: Option<JsString>)

  /** The four validation failures, one per check. */
  datatype Failure = MissingFields | NameTooShort | InvalidEmail | PasswordTooShort

  /** The minimum name length, in code units. */
  const MinNameLength: nat := 3
  /** The minimum password length, in code units. */
  const MinPasswordLength: nat := 6

  /** The message each failure is thrown with. */
  function Message(f: Failure): string {
    match f
    case MissingFields => "Nome, email e senha são obrigatórios."
    case NameTooShort => "O nome deve ter no mínimo 3 caracteres."
    case InvalidEmail => "Formato de email inválido."
    case PasswordTooShort => "A senha deve ter no mínimo 6 caracteres."
  }

  /** The position of each check in the order the service runs them. */
  function Rank(f: Failure): nat {
    match f
    case MissingFields => 0
    case NameTooShort => 1
    case InvalidEmail => 2
    case PasswordTooShort => 3
  }

  /**
   * The rule whose violation is reported as `f`, stated on its own, without
   * regard to the order of the checks.
   */
  ghost predicate Satisfies(u: Usuario, f: Failure) {
    match f
    case MissingFields => Truthy(u.name) && Truthy(u.email) && Truthy(u.password)
    case NameTooShort => |Text(u.name)| >= MinNameLength
    case InvalidEmail => EmailShape(Text(u.email))
    case PasswordTooShort => |Text(u.password)| >= MinPasswordLength
  }

  /** `u` breaks rule `f` and keeps every rule checked before it. */
  ghost predicate FirstFailure(u: Usuario, f: Failure) {
    !Satisfies(u, f) && forall g :: Rank(g) < Rank(f) ==> Satisfies(u, g)
  }

  /** `u` keeps all four rules. */
  ghost predicate Registrable(u: Usuario) {
    forall f :: Satisfies(u, f)
  }

  /**
   * The four checks of the service, in order; `None` when all pass.
   */
  function Validate(u: Usuario): (r: Option<Failure>)
    ensures r.None? <==> Registrable(u)
    ensures r.Some? ==> FirstFailure(u, r.value)
  {
    TestIffShape(Text(u.email));
    if !Truthy(u.name) || !Truthy(u.email) || !Truthy(u.password) then
      assert !Satisfies(u, MissingFields);
      Some(MissingFields)
    else if |u.name.value| < MinNameLength then
      assert !Satisfies(u, NameTooShort);
      Some(NameTooShort)
    else if !Test(u.email.value) then
      assert !Satisfies(u, InvalidEmail);
      Some(InvalidEmail)
    else if |u.password.value| < MinPasswordLength then
      assert !Satisfies(u, PasswordTooShort);
      Some(PasswordTooShort)
    else
      None
  }

  /**
   * Register `u` against the table `st`: validate, then on success insert
   * the user through the repository and return the generated identifier.
   * The second component is the table after the call.
   */
  function CriarUsuario(u: Usuario, st: Store): (r: (Result<nat, Failure>, Store))
    requires Valid(st)
    ensures Valid(r.1)
    ensures r.0.Ok? <==> Registrable(u)
    ensures r.0.Err? ==> FirstFailure(u, r.0.error) && r.1 == st
    ensures r.0.Ok? ==>
              && r.1.rows == st.rows + [Row(r.0.value, Text(u.name), Text(u.email), Text(u.password))]
              && 0 < r.0.value
              && !HasId(st, r.0.value)
  {
    match Validate(u)
    case Some(f) => (Err(f), st)
    case None =>
      var (st', id) := Salvar(st, u.name.value, u.email.value, u.password.value);
      (Ok(id), st')
  }

  // ---------------------------------------------------------------------------
  // Properties of the checks
  // ---------------------------------------------------------------------------

  /**
   * Validate's contract pins its result down: any verdict that is `None`
   * exactly for registrable users and otherwise names a first failing rule
   * is the verdict `Validate` returns.
   */
  lemma VerdictIsUnique(u: Usuario, v: Option<Failure>)
    requires v.None? <==> Registrable(u)
    requires v.Some? ==> FirstFailure(u, v.value)
    ensures v == Validate(u)
  {
  }

  /**
   * A missing or empty field is reported as such, whatever the other fields
   * hold, because presence is checked first.
   */
  lemma MissingFieldWins(u: Usuario)
    requires !Truthy(u.name) || !Truthy(u.email) || !Truthy(u.password)
    ensures Validate(u) == Some(MissingFields)
  {
  }

  /**
   * With all fields present, a name shorter than three units is reported as
   * too short whatever the e-mail and password are, and a name of exactly
   * three units passes the name check.
   */
  lemma NameLengthBoundary(u: Usuario)
    requires Truthy(u.name) && Truthy(u.email) && Truthy(u.password)
    ensures |u.name.value| < 3 <==> Validate(u) == Some(NameTooShort)
    ensures |u.name.value| == 3 ==> Validate(u) != Some(NameTooShort)
  {
  }

  /**
   * Once presence and name length pass, the e-mail check rejects exactly the
   * addresses that do not have the declared shape.
   */
  lemma EmailCheck(u: Usuario)
    requires Truthy(u.name) && Truthy(u.email) && Truthy(u.password)
    requires |u.name.value| >= 3
    ensures !EmailShape(u.email.value) <==> Validate(u) == Some(InvalidEmail)
  {
    TestIffShape(u.email.value);
  }

  /**
   * Once the first three checks pass, a password shorter than six units is
   * reported as too short, and one of exactly six units is accepted.
   */
  lemma PasswordLengthBoundary(u: Usuario)
    requires Truthy(u.name) && Truthy(u.email) && Truthy(u.password)
    requires |u.name.value| >= 3 && EmailShape(u.email.value)
    ensures |u.password.value| < 6 <==> Validate(u) == Some(PasswordTooShort)
    ensures |u.password.value| == 6 ==> Validate(u) == None
  {
    TestIffShape(u.email.value);
  }

  /** The messages of the four failures are pairwise different. */
  lemma MessagesDistinct(f: Failure, g: Failure)
    requires f != g
    ensures Message(f) != Message(g)
  {
  }

  // ---------------------------------------------------------------------------
  // Properties of registration
  // ---------------------------------------------------------------------------

  /**
   * Registering the same registrable user twice succeeds twice, with a
   * positive identifier that grows from the first call to the second, and
   * leaves exactly two new rows.
   */
  lemma {:induction false} RepeatedRegistration(u: Usuario, st: Store)
    requires Valid(st) && Registrable(u)
    ensures CriarUsuario(u, st).0.Ok?
    ensures CriarUsuario(u, CriarUsuario(u, st).1).0.Ok?
    ensures 0 < CriarUsuario(u, st).0.value < CriarUsuario(u, CriarUsuario(u, st).1).0.value
    ensures |CriarUsuario(u, CriarUsuario(u, st).1).1.rows| == |st.rows| + 2
  {
  }

  /** Example payloads: a valid registration and one whose name is too short. */
  const Alice: Usuario := Usuario(Some(Js("Alice")), Some(Js("alice@example.com")), Some(Js("secret1")))
  const Al: Usuario := Usuario(Some(Js("Al")), Some(Js("alice@example.com")), Some(Js("secret1")))

  /**
   * Alice registers; "Al" is refused for the name, with the name message,
   * and leaves the table as it was; a payload that breaks the name, e-mail
   * and password rules at once reports only the name.
   */
  lemma RegistrationExamples(st: Store)
    requires Valid(st)
    ensures CriarUsuario(Alice, st).0.Ok?
    ensures CriarUsuario(Al, st) == (Err(NameTooShort), st)
    ensures Message(CriarUsuario(Al, st).0.error) == "O nome deve ter no mínimo 3 caracteres."
    ensures Validate(Usuario(Some(Js("Al")), Some(Js("a@@b.c")), Some(Js("123")))) == Some(NameTooShort)
  {
    var e := Alice.email.value;
    assert DotAt(e[6..], 7);
    assert AtAt(e, 5);
  }
}
