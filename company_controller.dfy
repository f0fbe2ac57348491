/**
 * The handlers of `controllers/companyController.js` as operations on the
 * in-memory `companies` table: registration, login, the three lookups, the
 * paginated search and the profile update. Each handler's response is a
 * `Result`: the data it sends with `success: true`, or the status code and
 * message of the error it sends.
 */
module CompanyController {
  import opened Wrappers
  import opened Strings
  import opened Store

  /** An error response: its HTTP status and its `message`. */
  datatype HttpError = HttpError(status: nat, message: string)

  const MissingFields := HttpError(400, "All required fields must be filled")
  const CodeExists := HttpError(400, "Company code already exists")
  const EmailExists := HttpError(400, "Email already registered")
  const MissingCredentials := HttpError(400, "Please provide email/company code and password")
  const InvalidCredentials := HttpError(401, "Invalid credentials")
  const InvalidPassword := HttpError(401, "Invalid password")
  const CompanyNotFound := HttpError(404, "Company not found")
  const MissingQuery := HttpError(400, "Search query is required")
  const SearchFailed := HttpError(500, "Failed to search companies")
  const NoFieldsToUpdate := HttpError(400, "No fields to update")
  const UpdateFailed := HttpError(500, "Failed to update company profile")

  // ----------------------------------------------------------------------
  // registerCompany
  // ----------------------------------------------------------------------

  /** The fields `registerCompany` takes from the request body. */
  datatype RegisterRequest = RegisterRequest(
    company_name: Option<string>,
    company_code: Option<string>,
    email: Option<string>,
    contact_number: Option<string>,
    address: Option<string>,
    role: Option<string>,
    description: Option<string>,
    terms_agreed: Option<string>,
    password: Option<string>)

  /** The columns `registerCompany` reads back and returns after the insert. */
  datatype Summary = Summary(
    id: nat,
    company_name: string,
    company_code: string,
    email: string,
    contact_number: string,
    address: string,
    role: Val,
    photo_url: Val,
    created_at: nat)

  function Summarize(c: Company): Summary {
    Summary(c.id, c.company_name, c.company_code, c.email, c.contact_number, c.address,
            c.role, c.photo_url, c.created_at)
  }

  /** Every field the registration insists on is present and non-empty. */
  predicate RequiredGiven(req: RegisterRequest) {
    && Given(req.company_name) && Given(req.company_code) && Given(req.email)
    && Given(req.contact_number) && Given(req.address) && Given(req.password)
  }

  ghost predicate CodeTaken(rows: seq<Company>, code: string) {
    exists i :: 0 <= i < |rows| && rows[i].company_code == code
  }

  ghost predicate EmailTaken(rows: seq<Company>, email: string) {
    exists i :: 0 <= i < |rows| && rows[i].email == email
  }

  /** The first check that turns a registration away, in the controller's order:
      missing fields, then a taken code, then a taken email. */
  function RegistrationError(rows: seq<Company>, req: RegisterRequest): (e: Option<HttpError>)
    ensures !RequiredGiven(req) ==> e == Some(MissingFields)
    ensures RequiredGiven(req) ==> (e == Some(CodeExists) <==> CodeTaken(rows, req.company_code.value))
    ensures RequiredGiven(req) && !CodeTaken(rows, req.company_code.value) ==>
              (e == Some(EmailExists) <==> EmailTaken(rows, req.email.value))
    ensures e.None? <==>
              RequiredGiven(req) && !CodeTaken(rows, req.company_code.value) && !EmailTaken(rows, req.email.value)
  {
    if !RequiredGiven(req) then Some(MissingFields)
    else if FirstIndex(rows, (c: Company) => c.company_code == req.company_code.value).Some? then Some(CodeExists)
    else if FirstIndex(rows, (c: Company) => c.email == req.email.value).Some? then Some(EmailExists)
    else None
  }

  /** `x || null` for an optional text field. */
  function OrNull(f: Option<string>): Val {
    if Given(f) then Str(f.value) else Null
  }

  /** The `photo_url` an uploaded file gets: `/uploads/` followed by its stored name. */
  function PhotoUrl(file: Option<string>): Val {
    if file.Some? then Str("/uploads/" + file.value) else Null
  }

  /** The row `registerCompany` inserts, under the id the table assigns. The
      password is stored exactly as it was sent. */
  function NewRow(id: nat, req: RegisterRequest, file: Option<string>, now: nat): Company
    requires RequiredGiven(req)
  {
    Company(id, req.company_name.value, req.company_code.value, req.email.value,
            req.contact_number.value, req.address.value,
            OrNull(req.role), OrNull(req.description),
            if Given(req.terms_agreed) then Str(req.terms_agreed.value) else False,
            PhotoUrl(file), req.password.value, now, now)
  }

  /** The table after a registration that was handed `id` as the next auto-increment value. */
  function Registered(rows: seq<Company>, id: nat, req: RegisterRequest, file: Option<string>, now: nat): seq<Company> {
    if RegistrationError(rows, req).None? then rows + [NewRow(id, req, file, now)] else rows
  }

  /** A registration never changes an existing row, and it keeps codes and
      emails pairwise distinct. */
  lemma RegisteredKeepsKeysUnique(rows: seq<Company>, id: nat, req: RegisterRequest, file: Option<string>, now: nat)
    requires UniqueKeys(rows)
    ensures UniqueKeys(Registered(rows, id, req, file, now))
    ensures Registered(rows, id, req, file, now)[..|rows|] == rows
  {
    var after := Registered(rows, id, req, file, now);
    if RegistrationError(rows, req).None? {
      var c := NewRow(id, req, file, now);
      forall i | 0 <= i < |rows|
        ensures rows[i].company_code != c.company_code && rows[i].email != c.email
      {
        assert !CodeTaken(rows, c.company_code) && !EmailTaken(rows, c.email);
      }
      assert after[..|rows|] == rows;
    }
  }

  /** One registration of a sequential history: its request, stored file name and clock reading. */
  datatype Registration = Registration(req: RegisterRequest, file: Option<string>, now: nat)

  /** The table after the registrations in `history`, one after the other, with
      auto-increment ids handed out from `nextId`. */
  function RegisterAll(rows: seq<Company>, nextId: nat, history: seq<Registration>): seq<Company>
    decreases |history|
  {
    if history == [] then rows
    else
      var h := history[0];
      var ok := RegistrationError(rows, h.req).None?;
      RegisterAll(Registered(rows, nextId, h.req, h.file, h.now),
                  if ok then nextId + 1 else nextId, history[1..])
  }

  /** However many registrations run one after the other, codes and emails stay
      pairwise distinct and the rows that were there stay as they were. */
  lemma {:induction false} RegisterAllKeepsKeysUnique(rows: seq<Company>, nextId: nat, history: seq<Registration>)
    requires UniqueKeys(rows)
    ensures UniqueKeys(RegisterAll(rows, nextId, history))
    ensures |RegisterAll(rows, nextId, history)| >= |rows|
    ensures RegisterAll(rows, nextId, history)[..|rows|] == rows
    decreases |history|
  {
    if history != [] {
      var h := history[0];
      var ok := RegistrationError(rows, h.req).None?;
      var next := Registered(rows, nextId, h.req, h.file, h.now);
      RegisteredKeepsKeysUnique(rows, nextId, h.req, h.file, h.now);
      RegisterAllKeepsKeysUnique(next, if ok then nextId + 1 else nextId, history[1..]);
      var final := RegisterAll(next, if ok then nextId + 1 else nextId, history[1..]);
      assert final[..|rows|] == final[..|next|][..|rows|];
    }
  }

  /** `registerCompany`: validates, rejects a taken code and then a taken email,
      and otherwise inserts the row and returns it without its password. */
  method RegisterCompany(db: CompanyTable, req: RegisterRequest, file: Option<string>, now: nat)
    returns (r: Result<Summary, HttpError>)
    requires db.Valid()
    modifies db
    ensures db.Valid()
    ensures db.rows == Registered(old(db.rows), old(db.nextId), req, file, now)
    ensures RegistrationError(old(db.rows), req).Some? ==>
              r == Failure(RegistrationError(old(db.rows), req).value) && db.nextId == old(db.nextId)
    ensures RegistrationError(old(db.rows), req).None? ==>
              && r == Success(Summarize(NewRow(old(db.nextId), req, file, now)))
              && db.nextId == old(db.nextId) + 1
  {
    var err := RegistrationError(db.rows, req);
    if err.Some? {
      return Failure(err.value);
    }
    var id := db.Insert(NewRow(0, req, file, now));
    IdLookupUnique(db.rows, db.nextId, id, |db.rows| - 1);
    var k := IndexOfId(db.rows, id).value;
    r := Success(Summarize(db.rows[k]));
  }

  // ----------------------------------------------------------------------
  // loginCompany
  // ----------------------------------------------------------------------

  /** A company as `loginCompany` returns it: every column but `password`. */
  datatype Profile = Profile(
    id: nat,
    company_name: string,
    company_code: string,
    email: string,
    contact_number: string,
    address: string,
    role: Val,
    description: Val,
    terms_agreed: Val,
    photo_url: Val,
    created_at: nat,
    updated_at: nat)

  function WithPassword(p: Profile, password: string): Company {
    Company(p.id, p.company_name, p.company_code, p.email, p.contact_number, p.address,
            p.role, p.description, p.terms_agreed, p.photo_url, password, p.created_at, p.updated_at)
  }

  /** `delete company.password`: the row loses its password and nothing else. */
  function WithoutPassword(c: Company): (p: Profile)
    ensures WithPassword(p, c.password) == c
  {
    Profile(c.id, c.company_name, c.company_code, c.email, c.contact_number, c.address,
            c.role, c.description, c.terms_agreed, c.photo_url, c.created_at, c.updated_at)
  }

  /** Which `WHERE` clause the login query uses. */
  datatype Identifier = EmailAndCode(email: string, code: string) | EmailOnly(email: string) | CodeOnly(code: string)

  predicate Identifies(ident: Identifier, c: Company) {
    match ident
    case EmailAndCode(e, k) => c.email == e && c.company_code == k
    case EmailOnly(e) => c.email == e
    case CodeOnly(k) => c.company_code == k
  }

  /** The three-way branch on the identifiers: a row must match every identifier that was given. */
  function IdentifierOf(email: Option<string>, code: Option<string>): (r: Option<Identifier>)
    ensures r.Some? <==> Given(email) || Given(code)
    ensures r.Some? ==> forall c :: Identifies(r.value, c) <==>
              (Given(email) ==> c.email == email.value) && (Given(code) ==> c.company_code == code.value)
  {
    if Given(email) && Given(code) then Some(EmailAndCode(email.value, code.value))
    else if Given(email) then Some(EmailOnly(email.value))
    else if Given(code) then Some(CodeOnly(code.value))
    else None
  }

  /** Row `i` is the first row, in table order, that the identifier matches. */
  ghost predicate FirstMatch(rows: seq<Company>, ident: Identifier, i: int) {
    0 <= i < |rows| && Identifies(ident, rows[i]) && forall j :: 0 <= j < i ==> !Identifies(ident, rows[j])
  }

  /** `loginCompany`: the first matching row must hold exactly the password sent. */
  function LoginCompany(rows: seq<Company>, email: Option<string>, code: Option<string>, password: Option<string>)
    : (r: Result<Profile, HttpError>)
    ensures !Given(password) || IdentifierOf(email, code).None? ==> r == Failure(MissingCredentials)
    ensures Given(password) && IdentifierOf(email, code).Some? ==>
              var ident := IdentifierOf(email, code).value;
              && (r == Failure(InvalidCredentials) <==> forall j :: 0 <= j < |rows| ==> !Identifies(ident, rows[j]))
              && (r == Failure(InvalidPassword) <==>
                    exists i :: FirstMatch(rows, ident, i) && rows[i].password != password.value)
              && (r.Success? <==> exists i :: FirstMatch(rows, ident, i) && rows[i].password == password.value)
              && (r.Success? ==> exists i :: FirstMatch(rows, ident, i) && r.value == WithoutPassword(rows[i]))
  {
    if !Given(password) || IdentifierOf(email, code).None? then Failure(MissingCredentials)
    else
      var ident := IdentifierOf(email, code).value;
      match FirstIndex(rows, (c: Company) => Identifies(ident, c))
      case None => Failure(InvalidCredentials)
      case Some(i) =>
        assert FirstMatch(rows, ident, i);
        if rows[i].password != password.value then Failure(InvalidPassword)
        else Success(WithoutPassword(rows[i]))
  }

  /** When the first matching row holds another password, login is refused with "Invalid password". */
  lemma WrongPasswordRefused(rows: seq<Company>, email: Option<string>, code: Option<string>, password: string, i: nat)
    requires password != "" && IdentifierOf(email, code).Some?
    requires FirstMatch(rows, IdentifierOf(email, code).value, i)
    requires rows[i].password != password
    ensures LoginCompany(rows, email, code, Some(password)) == Failure(InvalidPassword)
  {
  }

  /** A company that has just registered can log in by its email, or by its code,
      with the password it registered with. */
  lemma RegisteredCompanyCanLogIn(rows: seq<Company>, id: nat, req: RegisterRequest, file: Option<string>, now: nat)
    requires RegistrationError(rows, req).None?
    ensures LoginCompany(Registered(rows, id, req, file, now), req.email, None, req.password)
            == Success(WithoutPassword(NewRow(id, req, file, now)))
    ensures LoginCompany(Registered(rows, id, req, file, now), None, req.company_code, req.password)
            == Success(WithoutPassword(NewRow(id, req, file, now)))
  {
    var after := Registered(rows, id, req, file, now);
    var c := NewRow(id, req, file, now);
    assert after[|rows|] == c;
    var byEmail := EmailOnly(req.email.value);
    var byCode := CodeOnly(req.company_code.value);
    forall j | 0 <= j < |rows|
      ensures !Identifies(byEmail, after[j]) && !Identifies(byCode, after[j])
    {
      assert after[j] == rows[j];
      assert !EmailTaken(rows, req.email.value) && !CodeTaken(rows, req.company_code.value);
    }
    assert FirstMatch(after, byEmail, |rows|);
    assert FirstMatch(after, byCode, |rows|);
    forall i | FirstMatch(after, byEmail, i) ensures i == |rows| {}
    forall i | FirstMatch(after, byCode, i) ensures i == |rows| {}
  }

  // ----------------------------------------------------------------------
  // getAllCompanies, getCompanyById, getCompanyByCode
  // ----------------------------------------------------------------------

  /** `ORDER BY created_at DESC`, taken as the most recently inserted row first. */
  function NewestFirst(rows: seq<Company>): (r: seq<Company>)
    ensures |r| == |rows|
    ensures forall i :: 0 <= i < |rows| ==> r[i] == rows[|rows| - 1 - i]
    ensures multiset(r) == multiset(rows)
  {
    if rows == [] then []
    else
      assert rows == [rows[0]] + rows[1..];
      NewestFirst(rows[1..]) + [rows[0]]
  }

  /** The body of `getAllCompanies`: the row count and every row, password included. */
  datatype Listing = Listing(count: nat, data: seq<Company>)

  function GetAllCompanies(rows: seq<Company>): (r: Listing)
    ensures r.count == |rows| == |r.data|
    ensures forall i :: 0 <= i < |rows| ==> r.data[i] == rows[|rows| - 1 - i]
    ensures forall c :: c in r.data <==> c in rows
  {
    var data := NewestFirst(rows);
    assert forall c :: c in data <==> c in multiset(rows);
    Listing(|rows|, data)
  }

  /** `getCompanyById`: the row with that id, password included, or 404. */
  function GetCompanyById(rows: seq<Company>, id: nat): (r: Result<Company, HttpError>)
    ensures r.Success? <==> exists i :: 0 <= i < |rows| && rows[i].id == id
    ensures r.Success? ==> r.value in rows && r.value.id == id
    ensures r.Failure? ==> r.error == CompanyNotFound
  {
    match IndexOfId(rows, id)
    case None => Failure(CompanyNotFound)
    case Some(i) => Success(rows[i])
  }

  /** `getCompanyByCode`: the first row with that code, password included, or 404. */
  function GetCompanyByCode(rows: seq<Company>, code: string): (r: Result<Company, HttpError>)
    ensures r.Success? <==> CodeTaken(rows, code)
    ensures r.Success? ==> exists i :: 0 <= i < |rows| && rows[i] == r.value && r.value.company_code == code
                                      && forall j :: 0 <= j < i ==> rows[j].company_code != code
    ensures r.Failure? ==> r.error == CompanyNotFound
  {
    match FirstIndex(rows, (c: Company) => c.company_code == code)
    case None => Failure(CompanyNotFound)
    case Some(i) => Success(rows[i])
  }

  // ----------------------------------------------------------------------
  // searchCompanies
  // ----------------------------------------------------------------------

  /** The `WHERE` clause of the search: name, code, email or role contains `q`
      (a NULL role matches nothing). */
  predicate MatchesQuery(c: Company, q: string) {
    || Contains(c.company_name, q) || Contains(c.company_code, q) || Contains(c.email, q)
    || (c.role.Str? && Contains(c.role.s, q))
  }

  /** The rows that satisfy the search, in the order given. */
  function Matching(rows: seq<Company>, q: string): (r: seq<Company>)
    ensures |r| <= |rows|
    ensures forall c :: c in r <==> c in rows && MatchesQuery(c, q)
  {
    if rows == [] then []
    else if MatchesQuery(rows[0], q) then [rows[0]] + Matching(rows[1..], q)
    else Matching(rows[1..], q)
  }

  /** Ids strictly decrease along `rows`: the newest row comes first. */
  ghost predicate IdsDecreasing(rows: seq<Company>) {
    forall i, j :: 0 <= i < j < |rows| ==> rows[i].id > rows[j].id
  }

  /** Filtering keeps the order of the rows it keeps: newest first stays newest first. */
  lemma {:induction false} MatchingKeepsOrder(rows: seq<Company>, q: string)
    requires IdsDecreasing(rows)
    ensures IdsDecreasing(Matching(rows, q))
  {
    if rows != [] {
      var rest := rows[1..];
      assert IdsDecreasing(rest);
      MatchingKeepsOrder(rest, q);
      if MatchesQuery(rows[0], q) {
        var r := Matching(rows, q);
        assert r == [rows[0]] + Matching(rest, q);
        forall j | 1 <= j < |r|
          ensures rows[0].id > r[j].id
        {
          assert r[j] in Matching(rest, q);
        }
      }
    }
  }

  /** In a table with auto-increment ids, the search hits come newest first. */
  lemma SearchHitsNewestFirst(rows: seq<Company>, nextId: nat, q: string)
    requires WellKeyed(rows, nextId)
    ensures IdsDecreasing(Matching(NewestFirst(rows), q))
  {
    var n := NewestFirst(rows);
    assert IdsDecreasing(n) by {
      forall i, j | 0 <= i < j < |n|
        ensures n[i].id > n[j].id
      {
        assert n[i] == rows[|rows| - 1 - i] && n[j] == rows[|rows| - 1 - j];
      }
    }
    MatchingKeepsOrder(n, q);
  }

  function Min(a: nat, b: nat): nat {
    if a <= b then a else b
  }

  /** `LIMIT limit OFFSET offset`. */
  function LimitOffset(s: seq<Company>, offset: nat, limit: nat): (r: seq<Company>)
    ensures |r| == if offset >= |s| then 0 else Min(limit, |s| - offset)
    ensures forall k :: 0 <= k < |r| ==> r[k] == s[offset + k]
  {
    if offset >= |s| then [] else s[offset..offset + Min(limit, |s| - offset)]
  }

  /** `Math.ceil(total / limit)` for a positive limit. */
  function CeilDiv(total: nat, limit: nat): (r: nat)
    requires limit > 0
    ensures r * limit >= total
    ensures r > 0 ==> (r - 1) * limit < total
  {
    var r := (total + limit - 1) / limit;
    assert r * limit + (total + limit - 1) % limit == total + limit - 1;
    r
  }

  /** A page starting at `(page - 1) * limit` holds something exactly when
      `page` is at most `totalPages`. */
  lemma PageNonEmptyIff(total: nat, page: int, limit: nat)
    requires limit > 0 && page >= 1
    ensures (page - 1) * limit < total <==> page <= CeilDiv(total, limit)
  {
    var t := CeilDiv(total, limit);
    if page <= t {
      assert (page - 1) * limit <= (t - 1) * limit;
    } else {
      assert (page - 1) * limit >= t * limit;
    }
  }

  /** Item `j` of the matching rows is item `j % limit` of page `j / limit + 1`. */
  lemma ItemOnItsPage(s: seq<Company>, limit: nat, j: nat)
    requires limit > 0 && j < |s|
    ensures var page := j / limit + 1;
            var window := LimitOffset(s, (page - 1) * limit, limit);
            j % limit < |window| && window[j % limit] == s[j]
  {
    var page := j / limit + 1;
    assert (page - 1) * limit + j % limit == j;
  }

  /** The `pagination` object of the search response. */
  datatype Pagination = Pagination(currentPage: int, totalPages: Option<nat>, totalItems: nat, itemsPerPage: int)

  datatype SearchPage = SearchPage(data: seq<Company>, pagination: Pagination)

  /** The response of a search that reached the database: the page of the
      matching rows (newest first) from `offset` on, `limit` of them or as many
      as are left, and the pagination figures. */
  function SearchResults(rows: seq<Company>, q: string, page: int, limit: nat, offset: nat): (r: SearchPage)
    ensures var hits := Matching(NewestFirst(rows), q);
            && |r.data| == (if offset >= |hits| then 0 else Min(limit, |hits| - offset))
            && (forall k :: 0 <= k < |r.data| ==> offset + k < |hits| && r.data[k] == hits[offset + k])
            && r.pagination.totalItems == |hits|
            && r.pagination.totalPages == (if limit == 0 then None else Some(CeilDiv(|hits|, limit)))
            && r.pagination.currentPage == page && r.pagination.itemsPerPage == limit
    ensures forall c :: c in r.data ==> c in rows && MatchesQuery(c, q)
  {
    var hits := Matching(NewestFirst(rows), q);
    var data := LimitOffset(hits, offset, limit);
    HitsAreMatchingRows(rows, q, data, offset, limit);
    var totalPages := if limit == 0 then None else Some(CeilDiv(|hits|, limit));
    SearchPage(data, Pagination(page, totalPages, |hits|, limit))
  }

  /** Every row of a page is a row of the table that matches the query. */
  lemma HitsAreMatchingRows(rows: seq<Company>, q: string, data: seq<Company>, offset: nat, limit: nat)
    requires data == LimitOffset(Matching(NewestFirst(rows), q), offset, limit)
    ensures forall c :: c in data ==> c in rows && MatchesQuery(c, q)
  {
    var n := NewestFirst(rows);
    var hits := Matching(n, q);
    forall c | c in data
      ensures c in rows && MatchesQuery(c, q)
    {
      var k :| 0 <= k < |data| && data[k] == c;
      assert c == hits[offset + k] && c in hits;
      assert c in n;
      assert c in multiset(n);
    }
  }

  /** `!q || q.trim() === ''`. */
  predicate BlankQuery(q: Option<string>) {
    q.None? || Trim(q.value) == ""
  }

  /** A query is blank exactly when it is missing or made only of whitespace. */
  lemma BlankQueryIff(q: Option<string>)
    ensures BlankQuery(q) <==> q.None? || forall i :: 0 <= i < |q.value| ==> IsJsWhitespace(q.value[i])
  {
    if q.Some? {
      TrimEmptyIff(q.value);
    }
  }

  /** `searchCompanies`, with `page` and `limit` defaulting to 1 and 10. A
      blank query is refused; a negative `LIMIT` or `OFFSET` is a MySQL error,
      reported as a 500; a zero limit makes `totalPages` a non-finite number,
      which JSON sends as null. */
  function SearchCompanies(rows: seq<Company>, q: Option<string>, page: Option<int>, limit: Option<int>)
    : (r: Result<SearchPage, HttpError>)
    ensures r == Failure(MissingQuery) <==> BlankQuery(q)
    ensures r == Failure(SearchFailed) <==> !BlankQuery(q) && !ValidWindow(page.GetOr(1), limit.GetOr(10))
    ensures r.Success? <==> !BlankQuery(q) && ValidWindow(page.GetOr(1), limit.GetOr(10))
    ensures r.Success? ==>
              && q.Some?
              && r.value == SearchResults(rows, q.value, page.GetOr(1), limit.GetOr(10),
                                          Offset(page.GetOr(1), limit.GetOr(10)))
  {
    var p, l := page.GetOr(1), limit.GetOr(10);
    if BlankQuery(q) then Failure(MissingQuery)
    else if !ValidWindow(p, l) then Failure(SearchFailed)
    else Success(SearchResults(rows, q.value, p, l, Offset(p, l)))
  }

  /** The `OFFSET` of a page: `(page - 1) * limit`. */
  function Offset(page: int, limit: int): int {
    (page - 1) * limit
  }

  /** MySQL accepts the `LIMIT ? OFFSET ?` values: neither is negative. */
  predicate ValidWindow(page: int, limit: int) {
    limit >= 0 && Offset(page, limit) >= 0
  }

  // ----------------------------------------------------------------------
  // updateCompanyProfile
  // ----------------------------------------------------------------------

  /** The value stored under `k` in a request body, given as its key/value
      pairs in `Object.keys` order. */
  function Lookup(fields: seq<(string, string)>, k: string): (r: Option<string>)
    ensures r.Some? ==> (k, r.value) in fields
    ensures r.None? ==> forall i :: 0 <= i < |fields| ==> fields[i].0 != k
  {
    if fields == [] then None
    else if fields[0].0 == k then Some(fields[0].1)
    else Lookup(fields[1..], k)
  }

  /** An object's keys are distinct. */
  predicate DistinctKeys(fields: seq<(string, string)>) {
    fields == [] || (Lookup(fields[1..], fields[0].0).None? && DistinctKeys(fields[1..]))
  }

  /** `fields[k] = v` on an object: an existing key keeps its place, a new one goes last. */
  function SetKey(fields: seq<(string, string)>, k: string, v: string): (r: seq<(string, string)>)
    ensures Lookup(r, k) == Some(v)
    ensures forall k' :: k' != k ==> Lookup(r, k') == Lookup(fields, k')
    ensures DistinctKeys(fields) ==> DistinctKeys(r)
  {
    if fields == [] then [(k, v)]
    else if fields[0].0 == k then [(k, v)] + fields[1..]
    else
      var r := [fields[0]] + SetKey(fields[1..], k, v);
      assert r[1..] == SetKey(fields[1..], k, v);
      r
  }

  /** The body after `updateFields.photo_url = '/uploads/' + filename`, when a file came with it. */
  function WithUpload(fields: seq<(string, string)>, file: Option<string>): seq<(string, string)> {
    if file.Some? then SetKey(fields, "photo_url", "/uploads/" + file.value) else fields
  }

  /** A key survives the clean-up unless its value is `''` or it is `id`. */
  predicate Kept(f: (string, string)) {
    f.1 != "" && f.0 != "id"
  }

  /** The body after the clean-up loop has deleted every empty value and the `id` key. */
  function Stripped(fields: seq<(string, string)>): (r: seq<(string, string)>)
    ensures |r| <= |fields|
    ensures forall i :: 0 <= i < |r| ==> Kept(r[i])
  {
    if fields == [] then []
    else if Kept(fields[0]) then [fields[0]] + Stripped(fields[1..])
    else Stripped(fields[1..])
  }

  /** `Lookup` of what an object maps `k` to once an empty string counts as deleted. */
  function NonEmpty(v: Option<string>): Option<string> {
    if v.Some? && v.value != "" then v else None
  }

  /** After the clean-up, `id` is gone, empty values are gone, and every other
      key still maps to what the request sent; the keys stay distinct. */
  lemma {:induction false} StrippedLookup(fields: seq<(string, string)>, k: string)
    requires DistinctKeys(fields)
    ensures DistinctKeys(Stripped(fields))
    ensures Lookup(Stripped(fields), k) == if k == "id" then None else NonEmpty(Lookup(fields, k))
  {
    if fields != [] {
      var f, rest := fields[0], fields[1..];
      StrippedLookup(rest, k);
      StrippedLookup(rest, f.0);
      if Kept(f) {
        assert Stripped(fields) == [f] + Stripped(rest);
        assert Stripped(fields)[1..] == Stripped(rest);
      }
    }
  }

  /** The `forEach` that deletes empty values and the `id` key from the body. */
  method StripFields(fields: seq<(string, string)>) returns (kept: seq<(string, string)>)
    ensures kept == Stripped(fields)
  {
    kept := [];
    var i := 0;
    while i < |fields|
      invariant 0 <= i <= |fields|
      invariant kept + Stripped(fields[i..]) == Stripped(fields)
    {
      assert fields[i..][1..] == fields[i + 1..];
      if Kept(fields[i]) {
        kept := kept + [fields[i]];
      }
      i := i + 1;
    }
  }

  /** The `SET` clause: every remaining key assigned in turn; a key that names
      no assignable column makes the whole statement fail. */
  function ApplyFields(c: Company, fields: seq<(string, string)>): Option<Company>
    decreases |fields|
  {
    if fields == [] then Some(c)
    else match Set(c, fields[0].0, fields[0].1)
      case None => None
      case Some(d) => ApplyFields(d, fields[1..])
  }

  /** The `SET` clause succeeds exactly when every key names a text column, and
      then changes those columns to the values sent and nothing else. */
  lemma {:induction false} ApplyFieldsSpec(c: Company, fields: seq<(string, string)>)
    requires DistinctKeys(fields)
    ensures ApplyFields(c, fields).Some? <==> forall i :: 0 <= i < |fields| ==> IsTextColumn(fields[i].0)
    ensures ApplyFields(c, fields).Some? ==>
              var d := ApplyFields(c, fields).value;
              && d.id == c.id && d.created_at == c.created_at && d.updated_at == c.updated_at
              && forall k :: IsTextColumn(k) ==>
                   Get(d, k) == if Lookup(fields, k).Some? then Str(Lookup(fields, k).value) else Get(c, k)
    decreases |fields|
  {
    if fields != [] {
      var f, rest := fields[0], fields[1..];
      var s := Set(c, f.0, f.1);
      if s.Some? {
        ApplyFieldsSpec(s.value, rest);
        assert forall i :: 0 <= i < |rest| ==> rest[i] == fields[i + 1];
        assert (forall i :: 0 <= i < |fields| ==> IsTextColumn(fields[i].0)) <==>
               (forall i :: 0 <= i < |rest| ==> IsTextColumn(rest[i].0));
      }
    }
  }

  /** `updateCompanyProfile`: 404 for an unknown id; otherwise the uploaded
      file overrides `photo_url`, empty values and `id` are dropped, 400 if
      nothing is left, and else exactly that row changes, in the keys sent and
      in `updated_at`. */
  method UpdateCompanyProfile(db: CompanyTable, id: nat, body: seq<(string, string)>, file: Option<string>, now: nat)
    returns (r: Result<Company, HttpError>)
    requires db.Valid()
    requires DistinctKeys(body)
    modifies db
    ensures db.Valid() && db.nextId == old(db.nextId)
    ensures IndexOfId(old(db.rows), id).None? ==> r == Failure(CompanyNotFound) && db.rows == old(db.rows)
    ensures IndexOfId(old(db.rows), id).Some? ==>
              var i := IndexOfId(old(db.rows), id).value;
              var kept := Stripped(WithUpload(body, file));
              if kept == [] then r == Failure(NoFieldsToUpdate) && db.rows == old(db.rows)
              else if ApplyFields(old(db.rows)[i], kept).None? then
                r == Failure(UpdateFailed) && db.rows == old(db.rows)
              else
                var d := ApplyFields(old(db.rows)[i], kept).value.(updated_at := now);
                r == Success(d) && db.rows == old(db.rows)[i := d]
  {
    var found := IndexOfId(db.rows, id);
    if found.None? {
      return Failure(CompanyNotFound);
    }
    var i := found.value;
    var fields := WithUpload(body, file);
    var kept := StripFields(fields);
    if kept == [] {
      return Failure(NoFieldsToUpdate);
    }
    var applied := ApplyFields(db.rows[i], kept);
    if applied.None? {
      return Failure(UpdateFailed);
    }
    StrippedLookup(fields, "");
    ApplyFieldsSpec(db.rows[i], kept);
    var d := applied.value.(updated_at := now);
    db.Replace(i, d);
    r := Success(d);
  }

  /** An uploaded photo always reaches the `SET` clause: its URL is never empty. */
  lemma UploadedPhotoIsKept(body: seq<(string, string)>, f: string)
    requires DistinctKeys(body)
    ensures Lookup(Stripped(WithUpload(body, Some(f))), "photo_url") == Some("/uploads/" + f)
  {
    StrippedLookup(WithUpload(body, Some(f)), "photo_url");
  }

  /** Nothing stops an update from giving a company another company's code, so
      the update can break the uniqueness that registration keeps. */
  lemma UpdateCanDuplicateCode(rows: seq<Company>, i: nat, j: nat, now: nat)
    requires i < |rows| && j < |rows| && i != j
    requires rows[j].company_code != ""
    ensures var d := ApplyFields(rows[i], [("company_code", rows[j].company_code)]);
            && d.Some?
            && !UniqueKeys(rows[i := d.value.(updated_at := now)])
  {
    var code := rows[j].company_code;
    var body := [("company_code", code)];
    var changed := rows[i].(company_code := code);
    assert Set(rows[i], "company_code", code) == Some(changed);
    assert body[1..] == [];
    assert ApplyFields(rows[i], body) == Some(changed);
    var after := rows[i := changed.(updated_at := now)];
    assert after[i].company_code == after[j].company_code;
  }
}
