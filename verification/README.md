# User registration validator — a Dafny model

This project models the registration service of a small Express/SQLite
application: `UsuarioService.criarUsuario`, which checks a user payload
(`name`, `email`, `password`) against four rules in a fixed order, throws the
message of the first rule that fails, and otherwise hands the user to the
repository's `salvar` and returns the identifier it produced.

Modules:

- `Wrappers` (`wrappers.dfy`): `Option` and `Result`.
- `JsText` (`js_text.dfy`): JavaScript strings as sequences of UTF-16 code
  units, so `|s|` is exactly `s.length`.  Also the regular-expression class `\s`
  (`IsWs`, the ECMAScript WhiteSpace and LineTerminator code points) and
  JavaScript truthiness of a field (`Truthy`).
- `EmailPattern` (`email_pattern.dfy`): the pattern
  `/^[^\s@]+@[^\s@]+\.[^\s@]+$/`.  `Test` is a backtracking matcher with one
  predicate per pattern position.  `EmailShape` is a declarative reading of
  the pattern: L `@` R, where L is non-empty and free of whitespace and `@`,
  R is free of whitespace and `@`, and R has a `.` with non-empty text on both
  sides.  They are proved equal on every string.
- `UsuarioRepository` (`usuario_repository.dfy`): the `users` table as an
  append-only sequence of rows plus the next identifier (the AUTOINCREMENT
  counter).  `Salvar` appends one row holding the fields verbatim and returns
  a fresh, positive identifier larger than every existing one.
- `UsuarioService` (`usuario_service.dfy`): the payload `Usuario`, the four
  failures, their messages, the ordered checks `Validate` and the whole call
  `CriarUsuario`.  The thrown `Error` is modelled as `Err(failure)`.

Modelling choices:

- Fields are `Option<JsString>`.  `None` is `undefined` or `null`, and
  `Some([])` is `""`.  `!x` is true for all three; `Truthy` says the opposite.
- The validation rules are stated one by one (`Satisfies`), with no reference
  to their order.  `Validate` is specified to return the first failing rule in
  the order presence, name, e-mail, password (`FirstFailure`), or `None` when
  all hold (`Registrable`).  `VerdictIsUnique` shows that this contract fixes
  the verdict completely.
- `Validate` and `CriarUsuario` are pure functions.  So validation is total,
  never changes the payload, and gives the same verdict for the same user.
  The table before and after a call are explicit values, so "salvar is not
  called" means "the table is returned unchanged".  "Called exactly once"
  means "exactly one row is appended".
- `Js` turns a string literal of Basic Multilingual Plane characters into code
  units.  It is only used to write examples.

## Model

| member | source | states |
|---|---|---|
| `EmailPattern.TestIffShape` | src/services/UsuarioService.ts:21-24 | the pattern matcher accepts a string exactly when it is L `@` R, with L non-empty and free of whitespace and `@`, R free of whitespace and `@`, and R holding a `.` with text on both sides |
| `EmailPattern.InLocalSpec` | src/services/UsuarioService.ts:21 | inside `[^\s@]+` before the `@`, the rest matches exactly when a plain run ends at an `@` that is followed by a well-formed domain |
| `EmailPattern.AfterAtSpec` | src/services/UsuarioService.ts:21 | after the `@`, the rest matches exactly when it is a well-formed domain: plain, with a `.` that has text on both sides |
| `EmailPattern.InDomainSpec` | src/services/UsuarioService.ts:21 | once one or more domain units are consumed, the backtracking over `[^\s@]+\.` succeeds exactly when some `.` splits the rest into a plain run and a non-empty plain run |
| `EmailPattern.TldIsPlainRun` | src/services/UsuarioService.ts:21 | the final `[^\s@]+$` matches exactly the non-empty strings free of whitespace and `@` |
| `EmailPattern.ShapeHasOneAt` | src/services/UsuarioService.ts:21 | an accepted address contains exactly one `@`, the one that separates its parts |
| `EmailPattern.PatternExamples` | src/services/UsuarioService.ts:21-24 | "a@b.co" and "a@b.c.d" match; "a@@b.c", "a b@c.d", "a@b" and "a@.c" do not |
| `UsuarioRepository.Salvar` | src/repositories/UsuarioRepository.ts:14-24 | inserting appends exactly one row with the three fields unmodified and returns a positive id that no earlier row has and that exceeds every earlier id; the table invariant is kept |
| `UsuarioService.Validate` | src/services/UsuarioService.ts:13-28 | the verdict is `None` exactly when all four rules hold; otherwise it names a failing rule all of whose predecessors in the check order hold |
| `UsuarioService.VerdictIsUnique` | src/services/UsuarioService.ts:13-28 | any verdict meeting the first-failure description is the one `Validate` returns, so the check order fully determines the reported failure |
| `UsuarioService.MissingFieldWins` | src/services/UsuarioService.ts:13-15 | an absent or empty name, e-mail or password is reported as missing fields whatever the other fields hold |
| `UsuarioService.NameLengthBoundary` | src/services/UsuarioService.ts:17-19 | with all fields present, the name failure is reported exactly when the name has fewer than 3 units; a 3-unit name passes that check |
| `UsuarioService.EmailCheck` | src/services/UsuarioService.ts:21-24 | with fields present and a long enough name, the e-mail failure is reported exactly when the address does not have the declared shape |
| `UsuarioService.PasswordLengthBoundary` | src/services/UsuarioService.ts:26-28 | after the first three checks pass, the password failure is reported exactly when the password has fewer than 6 units; a 6-unit password is accepted |
| `UsuarioService.MessagesDistinct` | src/services/UsuarioService.ts:13-28 | the four thrown messages are pairwise different, so the message identifies the failed check |
| `UsuarioService.CriarUsuario` | src/services/UsuarioService.ts:11-32 | success happens exactly for registrable users; a failure reports the first failing check and leaves the table unchanged; a success appends exactly one row with the fields unmodified and returns that row's fresh positive id |
| `UsuarioService.RepeatedRegistration` | src/services/UsuarioService.ts:30-31 | registering the same valid user twice succeeds twice with a positive id that grows from the first call to the second, and adds exactly two rows |
| `UsuarioService.RegistrationExamples` | src/services/UsuarioService.ts:13-31 | "Alice" registers; "Al" is refused with the name message and leaves the table unchanged; a 2-unit name with a bad e-mail and a short password reports only the name |

## Left out

- Storage failures: `salvar` rejects when the SQLite write fails, and `criarUsuario` passes that rejection on. The table here is total, so that path is not modelled.
- SQL itself is not modelled: the parameterised `INSERT`, `this.lastID`, and AUTOINCREMENT beyond "next id, never reused". Only the store's contract is kept.
- `src/database/sqlite.ts`: it opens the database file and creates the table when imported. Its `saveUserToDatabase` is never called. This is I/O over a foreign library.
- `src/controllers/UsuarioController.ts`: the Express adapter. It answers 201 with `{id}` on success and 400 with the error message on any thrown error. This is framework glue.
- `src/index.ts` and `src/routes/usuario.routes.ts`: app setup, CORS, the port and routing only.
- `src/models/Usuario.ts` is not part of this model. The payload is taken to have the three optional string fields the service reads.
- Promise scheduling and concurrent requests are not modelled. Calls are treated as sequential.
- Non-string field values from the JSON body are not modelled. For example, a numeric `name` makes `.length` undefined. Each field is a string or absent.
- Message texts are Dafny `string` values, not code-unit sequences. They are only compared with each other.
