/**
 * The user repository, reduced to what the registration service relies on:
 * `salvar` inserts one row holding the user's three fields and returns the
 * identifier the table generated for it.
 *
 * The table is modelled as an append-only sequence of rows plus the next
 * identifier to hand out (the counter an AUTOINCREMENT key keeps).  SQL text,
 * the database file and write failures are not part of this model.
 */
module UsuarioRepository {
  import opened JsText

  /** One row of the `users` table. */
  datatype Row = Row(id: nat, name: JsString, email: JsString, password: JsString)

  /** The table: its rows in insertion order and the next identifier to assign. */
  datatype Store = Store(rows: seq<Row>, nextId: nat)

  /**
   * The table's invariant: identifiers are positive, strictly increasing in
   * insertion order (so unique), and all below the next one to be assigned.
   */
  ghost predicate Valid(st: Store) {
    && 0 < st.nextId
    && (forall k | 0 <= k < |st.rows| :: 0 < st.rows[k].id < st.nextId)
    && (forall j, k | 0 <= j < k < |st.rows| :: st.rows[j].id < st.rows[k].id)
  }

  /** `id` is the identifier of some row of the table. */
  ghost predicate HasId(st: Store, id: nat) {
    exists k | 0 <= k < |st.rows| :: st.rows[k].id == id
  }

  /**
   * Insert a row with the given fields, stored verbatim, and return the
   * identifier the table generated for it.
   */
  function Salvar(st: Store, name: JsString, email: JsString, password: JsString): (r: (Store, nat))
    requires Valid(st)
    ensures Valid(r.0)
    ensures r.0.rows == st.rows + [Row(r.1, name, email, password)]
    ensures 0 < r.1 && !HasId(st, r.1)
    ensures forall k | 0 <= k < |st.rows| :: st.rows[k].id < r.1
  {
    var id := st.nextId;
    (Store(st.rows + [Row(id, name, email, password)], id + 1), id)
  }
}
