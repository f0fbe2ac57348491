/**
 * The `companies` table the controllers query through `global.db` / `db`,
 * held in memory: a sequence of rows in insertion order and the next value
 * of the auto-increment `id` column. Each SQL statement the controllers issue
 * is a function over the rows (a `SELECT`) or a method of `CompanyTable`
 * (an `INSERT` or an `UPDATE`).
 */
module Store {
  import opened Wrappers

  /** What a nullable column holds: SQL NULL, the JavaScript `false` that
      `terms_agreed || false` stores, or a string. */
  datatype Val = Null | False | Str(s: string)

  /** One row of the `companies` table. `created_at` and `updated_at` are clock readings. */
  datatype Company = Company(
    id: nat,
    company_name: string,
    company_code: string,
    email: string,
    contact_number: string,
    address: string,
    role: Val,
    description: Val,
    terms_agreed: Val,
    photo_url: Val,
    password: string,
    created_at: nat,
    updated_at: nat)

  /** JavaScript truthiness of a request field: an absent field (undefined or
      null) and the empty string are both falsy. */
  predicate Given(f: Option<string>) {
    f.Some? && f.value != ""
  }

  /** The columns a request body can assign: every column except `id` and the timestamps. */
  predicate IsTextColumn(column: string) {
    column in {"company_name", "company_code", "email", "contact_number", "address",
               "role", "description", "terms_agreed", "photo_url", "password"}
  }

  /** The value of a text column of a row. */
  function Get(c: Company, column: string): Val
    requires IsTextColumn(column)
  {
    match column
    case "company_name" => Str(c.company_name)
    case "company_code" => Str(c.company_code)
    case "email" => Str(c.email)
    case "contact_number" => Str(c.contact_number)
    case "address" => Str(c.address)
    case "role" => c.role
    case "description" => c.description
    case "terms_agreed" => c.terms_agreed
    case "photo_url" => c.photo_url
    case _ => Str(c.password)
  }

  /** `SET column = v` on one row; a column the table does not have (or a
      timestamp) makes MySQL reject the statement, which is `None` here. */
  function Set(c: Company, column: string, v: string): (r: Option<Company>)
    ensures r.Some? <==> IsTextColumn(column)
    ensures r.Some? ==> Get(r.value, column) == Str(v)
    ensures r.Some? ==> forall k :: IsTextColumn(k) && k != column ==> Get(r.value, k) == Get(c, k)
    ensures r.Some? ==> r.value.id == c.id && r.value.created_at == c.created_at && r.value.updated_at == c.updated_at
  {
    match column
    case "company_name" => Some(c.(company_name := v))
    case "company_code" => Some(c.(company_code := v))
    case "email" => Some(c.(email := v))
    case "contact_number" => Some(c.(contact_number := v))
    case "address" => Some(c.(address := v))
    case "role" => Some(c.(role := Str(v)))
    case "description" => Some(c.(description := Str(v)))
    case "terms_agreed" => Some(c.(terms_agreed := Str(v)))
    case "photo_url" => Some(c.(photo_url := Str(v)))
    case "password" => Some(c.(password := v))
    case _ => None
  }

  /** The index of the first row, in table order, that satisfies `p`: what
      `rows[0]` of a `SELECT ... WHERE p` is. */
  function FirstIndex(rows: seq<Company>, p: Company -> bool): (r: Option<nat>)
    ensures r.Some? ==> r.value < |rows| && p(rows[r.value])
    ensures r.Some? ==> forall j :: 0 <= j < r.value ==> !p(rows[j])
    ensures r.None? ==> forall j :: 0 <= j < |rows| ==> !p(rows[j])
  {
    if rows == [] then None
    else if p(rows[0]) then Some(0)
    else match FirstIndex(rows[1..], p)
      case None => None
      case Some(k) => Some(k + 1)
  }

  /** The row with the given id, if any. */
  function IndexOfId(rows: seq<Company>, id: nat): Option<nat> {
    FirstIndex(rows, (c: Company) => c.id == id)
  }

  /** Auto-increment keys: ids are positive, below the next id to hand out,
      and strictly increase in table order. */
  ghost predicate WellKeyed(rows: seq<Company>, nextId: nat) {
    && 1 <= nextId
    && (forall i :: 0 <= i < |rows| ==> 1 <= rows[i].id < nextId)
    && (forall i, j :: 0 <= i < j < |rows| ==> rows[i].id < rows[j].id)
  }

  /** No two rows share a company code, and no two rows share an email. */
  ghost predicate UniqueKeys(rows: seq<Company>) {
    forall i, j :: 0 <= i < j < |rows| ==>
      rows[i].company_code != rows[j].company_code && rows[i].email != rows[j].email
  }

  /** In a well-keyed table the row found by id is the only row with that id. */
  lemma IdLookupUnique(rows: seq<Company>, nextId: nat, id: nat, j: nat)
    requires WellKeyed(rows, nextId)
    requires j < |rows| && rows[j].id == id
    ensures IndexOfId(rows, id) == Some(j)
  {
    assert forall k :: 0 <= k < |rows| && k != j ==> rows[k].id != id by {
      forall k | 0 <= k < |rows| && k != j
        ensures rows[k].id != id
      {
        if k < j { assert rows[k].id < rows[j].id; } else { assert rows[j].id < rows[k].id; }
      }
    }
  }

  /** `UPDATE companies SET password = h WHERE email = e`. */
  function PasswordSetWhere(rows: seq<Company>, e: string, h: string): (r: seq<Company>)
    ensures |r| == |rows|
    ensures forall i :: 0 <= i < |rows| ==>
      r[i] == if rows[i].email == e then rows[i].(password := h) else rows[i]
  {
    if rows == [] then []
    else
      var head := if rows[0].email == e then rows[0].(password := h) else rows[0];
      [head] + PasswordSetWhere(rows[1..], e, h)
  }

  /** The table itself, updated in place by the `INSERT` and `UPDATE` statements. */
  class CompanyTable {
    var rows: seq<Company>
    var nextId: nat

    ghost predicate Valid()
      reads this
    {
      WellKeyed(rows, nextId)
    }

    /** An empty table whose auto-increment counter starts at 1. */
    constructor ()
      ensures Valid() && rows == [] && nextId == 1
    {
      rows := [];
      nextId := 1;
    }

    /** `INSERT`: appends `c` under the next auto-increment id and returns that id (`insertId`). */
    method Insert(c: Company) returns (id: nat)
      requires Valid()
      modifies this
      ensures Valid()
      ensures id == old(nextId) && nextId == old(nextId) + 1
      ensures rows == old(rows) + [c.(id := id)]
    {
      id := nextId;
      rows := rows + [c.(id := id)];
      nextId := nextId + 1;
    }

    /** `UPDATE ... WHERE id = ?` of the row at index `i`, which keeps its id. */
    method Replace(i: nat, c: Company)
      requires Valid() && i < |rows| && c.id == rows[i].id
      modifies this
      ensures Valid()
      ensures nextId == old(nextId) && rows == old(rows)[i := c]
    {
      rows := rows[i := c];
    }

    /** `UPDATE companies SET password = ? WHERE email = ?`. */
    method SetPasswordByEmail(e: string, h: string)
      requires Valid()
      modifies this
      ensures Valid()
      ensures nextId == old(nextId) && rows == PasswordSetWhere(old(rows), e, h)
    {
      rows := PasswordSetWhere(rows, e, h);
    }
  }
}
