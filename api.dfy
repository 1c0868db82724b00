/**
 * The REST API of the backlog server (backend/index.js): the CORS origin
 * check, the `usNumber` display identifier, bearer-token extraction and
 * verification, and the route handlers over the `ideas` and `users` tables.
 *
 * Each handler is one atomic step on in-memory tables held by `Backlog`.
 * bcrypt and JWT are not interpreted: the bcrypt hash of a registration is a
 * parameter, and `compare`, `sign` and `verify` are function parameters.
 */
module Api {

  import opened Wrappers
  import opened Strings
  import opened IdeaRecords

  // ---------------------------------------------------------------------
  // CORS

  const AllowedOrigins: seq<string> := ["http://localhost:5173", "https://backlog.a4c.ch"]
  const CorsRejection: string := "CORS policy: This origin is not allowed"

  datatype CorsVerdict = Allow | Reject(message: string)

  /** The `origin` callback given to the cors middleware; `None` is a request without an Origin header. */
  function CheckOrigin(origin: Option<string>): (v: CorsVerdict)
    ensures v == Allow <==> origin.None? || origin.value == "" || origin.value in AllowedOrigins
    ensures v.Reject? ==> v.message == CorsRejection
  {
    match origin
    case None => Allow
    case Some(o) => if o == "" || o in AllowedOrigins then Allow else Reject(CorsRejection)
  }

  // ---------------------------------------------------------------------
  // usNumber

  /** `US-${String(id).padStart(3, "0")}`. */
  function FormatUsNumber(id: nat): (r: string)
    ensures |r| >= 6 && r[..3] == "US-" && AllDigits(r[3..])
  {
    "US-" + PadStart(DecimalString(id), 3, '0')
  }

  /** Reads the id back out of a display identifier. */
  function ParseUsNumber(s: string): Option<nat>
  {
    if |s| > 3 && s[..3] == "US-" && AllDigits(s[3..]) then Some(ParseDecimal(s[3..])) else None
  }

  lemma UsNumberRoundTrip(id: nat)
    ensures ParseUsNumber(FormatUsNumber(id)) == Some(id)
  {
    var digits := DecimalString(id);
    var padded := PadStart(digits, 3, '0');
    var r := FormatUsNumber(id);
    assert r[3..] == padded;
    ParseDecimalString(id);
    if |digits| < 3 {
      ParseLeadingZeros(3 - |digits|, digits);
    }
  }

  /** The width of a usNumber: "US-" and the digits of the id, padded to at least three. */
  lemma UsNumberWidth(id: nat)
    ensures |FormatUsNumber(id)| == 3 + (if |DecimalString(id)| >= 3 then |DecimalString(id)| else 3)
  {
  }

  /**
   * No other spelling names the same id at the same width: the digits after
   * "US-" carry no zeros beyond the padding to three.
   */
  lemma UsNumberCanonical(id: nat, s: string)
    requires ParseUsNumber(s) == Some(id)
    requires |s| == |FormatUsNumber(id)|
    ensures s == FormatUsNumber(id)
  {
    var r := FormatUsNumber(id);
    UsNumberRoundTrip(id);
    DigitStringsEqual(s[3..], r[3..]);
    assert s == s[..3] + s[3..] && r == r[..3] + r[3..];
  }

  /** Distinct ids give distinct display identifiers. */
  lemma UsNumberInjective(a: nat, b: nat)
    requires FormatUsNumber(a) == FormatUsNumber(b)
    ensures a == b
  {
    UsNumberRoundTrip(a);
    UsNumberRoundTrip(b);
  }

  lemma UsNumberExamples()
    ensures FormatUsNumber(7) == "US-007"
    ensures FormatUsNumber(42) == "US-042"
    ensures FormatUsNumber(1234) == "US-1234"
  {
    assert DecimalString(7) == "7";
    assert DecimalString(4) == "4";
    assert DecimalString(42) == "42";
    assert DecimalString(1) == "1";
    assert DecimalString(12) == "12";
    assert DecimalString(123) == "123";
    assert DecimalString(1234) == "1234";
  }

  // ---------------------------------------------------------------------
  // Bearer tokens

  /** The claims a token carries: what `jwt.sign` received at login. */
  datatype Payload = Payload(id: int, role: string)

  /** `req.headers.authorization?.split(" ")[1]`, when it is truthy. */
  function BearerToken(authorization: Option<string>): (token: Option<string>)
    ensures token.Some? ==> authorization.Some? && token.value != "" && ' ' !in token.value
    ensures (authorization.Some? && |Split(authorization.value, ' ')| >= 2 && Split(authorization.value, ' ')[1] == "")
              ==> token.None?
  {
    match authorization
    case None => None
    case Some(h) =>
      var parts := Split(h, ' ');
      if |parts| >= 2 && parts[1] != "" then Some(parts[1]) else None
  }

  /** The token is the second space-separated part of the header, whatever follows it. */
  lemma BearerTokenIsSecondPart(parts: seq<string>)
    requires |parts| >= 2 && parts[1] != ""
    requires forall k :: 0 <= k < |parts| ==> ' ' !in parts[k]
    ensures BearerToken(Some(Join(parts, ' '))) == Some(parts[1])
  {
    SplitJoin(parts, ' ');
  }

  lemma BearerTokenOfScheme(token: string)
    requires token != "" && ' ' !in token
    ensures BearerToken(Some("Bearer " + token)) == Some(token)
  {
    var parts := ["Bearer", token];
    assert Join(parts, ' ') == "Bearer " + token;
    BearerTokenIsSecondPart(parts);
  }

  /** A header without a space carries no token. */
  lemma NoSpaceNoToken(h: string)
    requires ' ' !in h
    ensures BearerToken(Some(h)) == None
  {
    SplitJoin([h], ' ');
  }

  /**
   * The `authenticate` middleware: `None` means 401 with an empty body and
   * the route handler is not run; `Some(p)` is `req.user`.
   */
  function Authenticate(authorization: Option<string>, verify: string -> Option<Payload>): (user: Option<Payload>)
    ensures user.Some? <==> BearerToken(authorization).Some? && verify(BearerToken(authorization).value).Some?
    ensures user.Some? ==> user == verify(BearerToken(authorization).value)
  {
    match BearerToken(authorization)
    case None => None
    case Some(token) => verify(token)
  }

  // ---------------------------------------------------------------------
  // Responses

  datatype Body =
    | NoBody
    | ErrorBody(error: string)
    | MessageBody(message: string)
    | RowBody(row: Option<Idea>)        // `res.json(rows[0])`; `None` when `rows[0]` is undefined
    | TokenBody(token: string, role: string)

  /** What a handler sends; `Unanswered` when no code path sends anything. */
  datatype Response = Send(status: nat, body: Body) | Unanswered

  const Forbidden: string := "Forbidden"
  const NoFieldsToUpdate: string := "No fields to update"
  const MissingCredentials: string := "username, password and role are required"
  const InvalidRole: string := "Invalid role"
  const UsernameTaken: string := "Username already taken"
  const UserRegistered: string := "User registered"
  const InvalidCredentials: string := "Invalid credentials"

  const Admin: string := "admin"
  const ProductOwner: string := "po"
  const Developer: string := "developer"
  const Roles: seq<string> := [Admin, ProductOwner, Developer]

  // ---------------------------------------------------------------------
  // Registration checks

  /** JavaScript truthiness of a request-body field. */
  predicate Truthy(v: Option<Value>)
    ensures Truthy(v) ==> v.Some? && v.value.Str?
    ensures v.Some? && v.value.Str? && v.value.s != "" ==> Truthy(v)
    ensures v.None? || v == Some(Null) || v == Some(Str("")) ==> !Truthy(v)
  {
    v.Some? && v.value.Str? && v.value.s != ""
  }

  /** The two validation checks of `/auth/register`, in order; `None` lets the request through. */
  function RegistrationCheck(username: Option<Value>, password: Option<Value>, role: Option<Value>): (err: Option<string>)
    ensures err == Some(MissingCredentials) <==> !Truthy(username) || !Truthy(password) || !Truthy(role)
    ensures err == Some(InvalidRole) <==>
              Truthy(username) && Truthy(password) && Truthy(role) && role.value.s !in Roles
    ensures err.None? <==> Truthy(username) && Truthy(password) && Truthy(role) && role.value.s in Roles
  {
    if !Truthy(username) || !Truthy(password) || !Truthy(role) then Some(MissingCredentials)
    else if role.value.s !in Roles then Some(InvalidRole)
    else None
  }

  // ---------------------------------------------------------------------
  // The full update's sparse patch

  /** The seven optional fields of a full-update body; `None` is `undefined`. */
  datatype Patch = Patch(
    epic: Option<Value>,
    story: Option<Value>,
    criteria: Option<Value>,
    priority: Option<Value>,
    storyPoints: Option<Value>,
    moscow: Option<Value>,
    state: Option<Value>)
  {
    function Get(f: Field): Option<Value>
    {
      match f
      case Epic => epic
      case Story => story
      case Criteria => criteria
      case Priority => priority
      case StoryPoints => storyPoints
      case Moscow => moscow
      case State => state
    }

    ghost predicate IsEmpty()
    {
      forall f :: Get(f).None?
    }
  }

  /** Sparse-patch semantics: every present field overwrites, every absent one stays. */
  function Patched(row: Idea, p: Patch): (r: Idea)
    ensures forall f :: p.Get(f).Some? ==> r.Get(f) == p.Get(f).value
    ensures forall f :: p.Get(f).None? ==> r.Get(f) == row.Get(f)
    ensures r.id == row.id && r.usNumber == row.usNumber
    ensures r.upvotes == row.upvotes && r.downvotes == row.downvotes
  {
    row.(epic := p.epic.GetOr(row.epic),
         story := p.story.GetOr(row.story),
         criteria := p.criteria.GetOr(row.criteria),
         priority := p.priority.GetOr(row.priority),
         storyPoints := p.storyPoints.GetOr(row.storyPoints),
         moscow := p.moscow.GetOr(row.moscow),
         state := p.state.GetOr(row.state))
  }

  /** Applying a patch twice is applying it once. */
  lemma PatchedIdempotent(row: Idea, p: Patch)
    ensures Patched(Patched(row, p), p) == Patched(row, p)
  {
  }

  /** `fields`/`values` list the present fields of `p`, each with its value. */
  ghost predicate ClauseFor(p: Patch, fields: seq<Field>, values: seq<Value>)
  {
    && |fields| == |values|
    && (forall i :: 0 <= i < |fields| ==> p.Get(fields[i]) == Some(values[i]))
    && (forall f :: f in fields <==> p.Get(f).Some?)
  }

  /**
   * The clause built so far lists the present fields among the first `n`
   * checks, in order, each with its value.
   */
  ghost predicate ClausePrefix(p: Patch, fields: seq<Field>, values: seq<Value>, n: nat)
  {
    && |fields| == |values|
    && (forall i :: 0 <= i < |fields| ==> p.Get(fields[i]) == Some(values[i]) && FieldIndex(fields[i]) < n)
    && (forall f :: FieldIndex(f) < n ==> (f in fields <==> p.Get(f).Some?))
    && (forall i, j :: 0 <= i < j < |fields| ==> FieldIndex(fields[i]) < FieldIndex(fields[j]))
  }

  /** One `if (x !== undefined) { fields.push(...); values.push(x); }` step. */
  method PushIfDefined(p: Patch, fields: seq<Field>, values: seq<Value>, f: Field)
    returns (fields': seq<Field>, values': seq<Value>)
    requires ClausePrefix(p, fields, values, FieldIndex(f))
    ensures fields' == if p.Get(f).Some? then fields + [f] else fields
    ensures values' == if p.Get(f).Some? then values + [p.Get(f).value] else values
    ensures ClausePrefix(p, fields', values', FieldIndex(f) + 1)
  {
    fields', values' := fields, values;
    if p.Get(f).Some? {
      fields', values' := fields + [f], values + [p.Get(f).value];
    }
  }

  /**
   * Builds the `SET` clause: one column and one value for each field that is
   * not `undefined` (null and "" included), in the order of the checks.
   */
  method SetClause(p: Patch) returns (fields: seq<Field>, values: seq<Value>)
    ensures |fields| == |values|
    ensures forall i :: 0 <= i < |fields| ==> p.Get(fields[i]) == Some(values[i])
    ensures forall f :: f in fields <==> p.Get(f).Some?
    ensures forall i, j :: 0 <= i < j < |fields| ==> FieldIndex(fields[i]) < FieldIndex(fields[j])
    ensures |fields| == 0 <==> p.IsEmpty()
  {
    fields, values := [], [];
    fields, values := PushIfDefined(p, fields, values, Epic);
    fields, values := PushIfDefined(p, fields, values, Story);
    fields, values := PushIfDefined(p, fields, values, Criteria);
    fields, values := PushIfDefined(p, fields, values, Priority);
    fields, values := PushIfDefined(p, fields, values, StoryPoints);
    fields, values := PushIfDefined(p, fields, values, Moscow);
    fields, values := PushIfDefined(p, fields, values, State);
    ClauseComplete(p, fields, values);
  }

  /** After all seven checks the clause lists exactly the present fields. */
  lemma ClauseComplete(p: Patch, fields: seq<Field>, values: seq<Value>)
    requires ClausePrefix(p, fields, values, 7)
    ensures ClauseFor(p, fields, values)
    ensures forall i, j :: 0 <= i < j < |fields| ==> FieldIndex(fields[i]) < FieldIndex(fields[j])
    ensures |fields| == 0 <==> p.IsEmpty()
  {
    assert forall f :: FieldIndex(f) < 7;
    if |fields| != 0 {
      assert fields[0] in fields;
    }
  }

  /** What `UPDATE ideas SET f1 = ?, f2 = ?, ... WHERE id = ?` does to the matching row. */
  function ApplySet(row: Idea, fields: seq<Field>, values: seq<Value>): (r: Idea)
    requires |fields| == |values|
    ensures r.id == row.id && r.usNumber == row.usNumber
    ensures r.upvotes == row.upvotes && r.downvotes == row.downvotes
    decreases |fields|
  {
    if fields == [] then row else ApplySet(row.With(fields[0], values[0]), fields[1..], values[1..])
  }

  lemma {:induction false} ApplySetColumns(row: Idea, p: Patch, fields: seq<Field>, values: seq<Value>)
    requires |fields| == |values|
    requires forall i :: 0 <= i < |fields| ==> p.Get(fields[i]) == Some(values[i])
    ensures var r := ApplySet(row, fields, values);
      && r.id == row.id && r.usNumber == row.usNumber
      && r.upvotes == row.upvotes && r.downvotes == row.downvotes
      && (forall f :: f in fields ==> r.Get(f) == p.Get(f).value)
      && (forall f :: f !in fields ==> r.Get(f) == row.Get(f))
    decreases |fields|
  {
    if fields != [] {
      var next := row.With(fields[0], values[0]);
      assert forall i :: 0 <= i < |fields[1..]| ==> p.Get(fields[1..][i]) == Some(values[1..][i]) by {
        forall i | 0 <= i < |fields[1..]| ensures p.Get(fields[1..][i]) == Some(values[1..][i]) {
          assert fields[1..][i] == fields[i + 1] && values[1..][i] == values[i + 1];
        }
      }
      ApplySetColumns(next, p, fields[1..], values[1..]);
      forall f ensures f in fields <==> f == fields[0] || f in fields[1..] {
        assert fields == [fields[0]] + fields[1..];
      }
    }
  }

  /** The SQL built from the clause writes exactly the sparse patch. */
  lemma SetClausePatches(row: Idea, p: Patch, fields: seq<Field>, values: seq<Value>)
    requires ClauseFor(p, fields, values)
    ensures ApplySet(row, fields, values) == Patched(row, p)
  {
    ApplySetColumns(row, p, fields, values);
    RowExtensionality(ApplySet(row, fields, values), Patched(row, p));
  }

  // ---------------------------------------------------------------------
  // Tables

  /** A `users` row; `password` holds the bcrypt hash. */
  datatype User = User(id: int, password: string, role: string)

  /** The SQL column defaults of `ideas`, which the code does not show. */
  datatype Defaults = Defaults(
    epic: Value,
    criteria: Value,
    priority: Value,
    storyPoints: Value,
    moscow: Value,
    state: Value,
    upvotes: int,
    downvotes: int)

  /** The row `POST /ideas` leaves behind: the story, the derived usNumber, defaults elsewhere. */
  function NewIdea(d: Defaults, id: nat, story: Value): (r: Idea)
    ensures r.id == id && r.story == story
    ensures r.usNumber == Str(FormatUsNumber(id))
    ensures r.epic == d.epic && r.criteria == d.criteria && r.priority == d.priority
    ensures r.storyPoints == d.storyPoints && r.moscow == d.moscow && r.state == d.state
    ensures r.upvotes == d.upvotes && r.downvotes == d.downvotes
  {
    Idea(id, Str(FormatUsNumber(id)), d.epic, story, d.criteria, d.priority,
         d.storyPoints, d.moscow, d.state, d.upvotes, d.downvotes)
  }

  /** The auto-increment ids: exactly 1 .. nextId - 1, each row stored under its own id. */
  ghost predicate IdeaIds(ideas: map<int, Idea>, nextId: nat)
  {
    && nextId >= 1
    && (forall k :: k in ideas <==> 1 <= k < nextId)
    && (forall k :: k in ideas ==> ideas[k].id == k)
  }

  /** Ids are 1 .. nextId - 1 and each row's usNumber is derived from its id. */
  ghost predicate IdeasTable(ideas: map<int, Idea>, nextId: nat)
  {
    && IdeaIds(ideas, nextId)
    && (forall k :: k in ideas ==> ideas[k].usNumber == Str(FormatUsNumber(k)))
  }

  /** Appending a row at the counter, with its derived usNumber, keeps the table well-formed. */
  lemma IdeasTableGrow(ideas: map<int, Idea>, nextId: nat, row: Idea)
    requires IdeasTable(ideas, nextId)
    requires row.id == nextId && row.usNumber == Str(FormatUsNumber(nextId))
    ensures nextId !in ideas
    ensures IdeasTable(ideas[nextId := row], nextId + 1)
  {
    var grown := ideas[nextId := row];
    assert IdeaIds(grown, nextId + 1);
    forall k | k in grown
      ensures grown[k].usNumber == Str(FormatUsNumber(k))
    {
      if k != nextId {
        assert grown[k] == ideas[k];
      }
    }
  }

  /** Usernames are non-empty, ids are distinct and below the counter, roles are valid. */
  ghost predicate UsersTable(users: map<string, User>, nextUserId: nat)
  {
    && nextUserId >= 1
    && (forall u :: u in users ==> u != "" && 1 <= users[u].id < nextUserId && users[u].role in Roles)
    && (forall u, v :: u in users && v in users && u != v ==> users[u].id != users[v].id)
  }

  lemma UsNumbersUnique(ideas: map<int, Idea>, nextId: nat)
    requires IdeasTable(ideas, nextId)
    ensures forall j, k :: j in ideas && k in ideas && j != k ==> ideas[j].usNumber != ideas[k].usNumber
  {
    forall j, k | j in ideas && k in ideas && j != k
      ensures ideas[j].usNumber != ideas[k].usNumber
    {
      if ideas[j].usNumber == ideas[k].usNumber {
        UsNumberInjective(j, k);
      }
    }
  }

  /** How `PUT /ideas/:id` relates the table before, the table after and the response. */
  ghost predicate FullUpdateSpec(ideas0: map<int, Idea>, role: string, id: int, p: Patch,
                                 ideas1: map<int, Idea>, r: Response)
  {
    if role != Admin then
      ideas1 == ideas0 && r == Send(403, ErrorBody(Forbidden))
    else if p.IsEmpty() then
      ideas1 == ideas0 && r == Send(400, ErrorBody(NoFieldsToUpdate))
    else
      && ideas1 == (if id in ideas0 then ideas0[id := Patched(ideas0[id], p)] else ideas0)
      && r == Send(200, RowBody(if id in ideas1 then Some(ideas1[id]) else None))
  }

  /** How `PUT /ideas/:id/priority` relates the table before, the table after and the response. */
  ghost predicate PriorityUpdateSpec(ideas0: map<int, Idea>, role: string, id: int, priority: Option<Value>,
                                     ideas1: map<int, Idea>, r: Response)
  {
    if role != ProductOwner && role != Admin then
      ideas1 == ideas0 && r == Send(403, ErrorBody(Forbidden))
    else
      && ideas1 == (if id in ideas0 then ideas0[id := ideas0[id].With(Priority, SqlParam(priority))] else ideas0)
      && r == Send(204, NoBody)
  }

  // ---------------------------------------------------------------------
  // The server

  class Backlog {
    const defaults: Defaults
    var ideas: map<int, Idea>
    var nextId: nat
    var users: map<string, User>
    var nextUserId: nat

    ghost predicate Valid()
      reads this
    {
      IdeasTable(ideas, nextId) && UsersTable(users, nextUserId)
    }

    /** Empty tables; both auto-increment counters start at 1. */
    constructor(defaults: Defaults)
      ensures Valid()
      ensures this.defaults == defaults
      ensures ideas == map[] && nextId == 1 && users == map[] && nextUserId == 1
    {
      this.defaults := defaults;
      ideas, nextId := map[], 1;
      users, nextUserId := map[], 1;
    }

    /** `GET /ideas`: every row, newest (highest id) first. */
    function ListIdeas(): (rows: seq<Idea>)
      reads this
      requires IdeaIds(ideas, nextId)
      ensures |rows| == nextId - 1
      ensures forall i :: 0 <= i < |rows| ==> rows[i].id in ideas && ideas[rows[i].id] == rows[i]
      ensures forall i, j :: 0 <= i < j < |rows| ==> rows[i].id > rows[j].id
      ensures forall k :: k in ideas ==> rows[nextId - 1 - k] == ideas[k]
    {
      var table, n := ideas, nextId;
      seq(n - 1, i requires 0 <= i < n - 1 => table[n - 1 - i])
    }

    /** `POST /ideas`: insert the story at a fresh id, then set its usNumber, then return the row. */
    method CreateIdea(story: Option<Value>) returns (r: Response)
      requires Valid()
      modifies this
      ensures Valid()
      ensures old(nextId) !in old(ideas)
      ensures ideas == old(ideas)[old(nextId) := NewIdea(defaults, old(nextId), SqlParam(story))]
      ensures ideas[old(nextId)].id == old(nextId) && ideas[old(nextId)].story == SqlParam(story)
      ensures ideas[old(nextId)].usNumber == Str(FormatUsNumber(old(nextId)))
      ensures r == Send(201, RowBody(Some(ideas[old(nextId)])))
      ensures nextId == old(nextId) + 1
      ensures users == old(users) && nextUserId == old(nextUserId)
    {
      var newId := nextId;
      var row := NewIdea(defaults, newId, SqlParam(story));
      IdeasTableGrow(ideas, nextId, row);
      ideas := ideas[newId := row];
      nextId := nextId + 1;
      r := Send(201, RowBody(Some(ideas[newId])));
    }

    /** The `PUT /ideas/:id` handler, run with `req.user == user`. */
    method UpdateIdea(user: Payload, id: int, patch: Patch) returns (r: Response)
      requires Valid()
      modifies this
      ensures Valid()
      ensures FullUpdateSpec(old(ideas), user.role, id, patch, ideas, r)
      ensures nextId == old(nextId) && users == old(users) && nextUserId == old(nextUserId)
    {
      if user.role != Admin {
        return Send(403, ErrorBody(Forbidden));
      }
      var fields, values := SetClause(patch);
      if |fields| == 0 {
        return Send(400, ErrorBody(NoFieldsToUpdate));
      }
      if id in ideas {
        SetClausePatches(ideas[id], patch, fields, values);
        ideas := ideas[id := ApplySet(ideas[id], fields, values)];
      }
      r := Send(200, RowBody(if id in ideas then Some(ideas[id]) else None));
    }

    /** The `PUT /ideas/:id/priority` handler, run with `req.user == user`. */
    method UpdatePriority(user: Payload, id: int, priority: Option<Value>) returns (r: Response)
      requires Valid()
      modifies this
      ensures Valid()
      ensures PriorityUpdateSpec(old(ideas), user.role, id, priority, ideas, r)
      ensures nextId == old(nextId) && users == old(users) && nextUserId == old(nextUserId)
    {
      if !(user.role == ProductOwner || user.role == Admin) {
        return Send(403, ErrorBody(Forbidden));
      }
      if id in ideas {
        ideas := ideas[id := ideas[id].With(Priority, SqlParam(priority))];
      }
      r := Send(204, NoBody);
    }

    /** `PUT /ideas/:id`: `authenticate`, then the full-update handler. */
    method PutIdea(authorization: Option<string>, verify: string -> Option<Payload>, id: int, patch: Patch)
      returns (r: Response)
      requires Valid()
      modifies this
      ensures Valid()
      ensures Authenticate(authorization, verify).None? ==> r == Send(401, NoBody) && ideas == old(ideas)
      ensures Authenticate(authorization, verify).Some? ==>
                FullUpdateSpec(old(ideas), Authenticate(authorization, verify).value.role, id, patch, ideas, r)
      ensures nextId == old(nextId) && users == old(users) && nextUserId == old(nextUserId)
    {
      var user := Authenticate(authorization, verify);
      if user.None? {
        return Send(401, NoBody);
      }
      r := UpdateIdea(user.value, id, patch);
    }

    /** `PUT /ideas/:id/priority`: `authenticate`, then the priority handler. */
    method PutPriority(authorization: Option<string>, verify: string -> Option<Payload>, id: int,
                       priority: Option<Value>)
      returns (r: Response)
      requires Valid()
      modifies this
      ensures Valid()
      ensures Authenticate(authorization, verify).None? ==> r == Send(401, NoBody) && ideas == old(ideas)
      ensures Authenticate(authorization, verify).Some? ==>
                PriorityUpdateSpec(old(ideas), Authenticate(authorization, verify).value.role, id, priority, ideas, r)
      ensures nextId == old(nextId) && users == old(users) && nextUserId == old(nextUserId)
    {
      var user := Authenticate(authorization, verify);
      if user.None? {
        return Send(401, NoBody);
      }
      r := UpdatePriority(user.value, id, priority);
    }

    /**
     * `POST /auth/register`. `hashed` is what `bcrypt.hash(password, 10)`
     * yields; the unique key on `username` turns a duplicate into 409.
     */
    method Register(username: Option<Value>, password: Option<Value>, role: Option<Value>, hashed: string)
      returns (r: Response)
      requires Valid()
      modifies this
      ensures Valid()
      ensures RegistrationCheck(username, password, role).Some? ==>
                && r == Send(400, ErrorBody(RegistrationCheck(username, password, role).value))
                && users == old(users) && nextUserId == old(nextUserId)
      ensures RegistrationCheck(username, password, role).None? && username.value.s in old(users) ==>
                && r == Send(409, ErrorBody(UsernameTaken))
                && users == old(users) && nextUserId == old(nextUserId) + 1
      ensures RegistrationCheck(username, password, role).None? && username.value.s !in old(users) ==>
                && r == Send(201, MessageBody(UserRegistered))
                && users == old(users)[username.value.s := User(old(nextUserId), hashed, role.value.s)]
                && nextUserId == old(nextUserId) + 1
      ensures ideas == old(ideas) && nextId == old(nextId)
    {
      var err := RegistrationCheck(username, password, role);
      if err.Some? {
        return Send(400, ErrorBody(err.value));
      }
      var name := username.value.s;
      if name in users {
        // The rejected INSERT has already drawn an auto-increment value, which is lost.
        nextUserId := nextUserId + 1;
        return Send(409, ErrorBody(UsernameTaken));
      }
      users := users[name := User(nextUserId, hashed, role.value.s)];
      nextUserId := nextUserId + 1;
      r := Send(201, MessageBody(UserRegistered));
    }

    /** Some stored user has this username. */
    predicate Known(username: Option<Value>)
      reads this
      ensures Known(username) <==> exists name :: name in users && username == Some(Str(name))
    {
      username.Some? && username.value.Str? && username.value.s in users
    }

    /**
     * `POST /auth/login`. An unknown username and a wrong password give the
     * same response; a password that is not a string makes `bcrypt.compare`
     * reject, and nothing answers the request.
     */
    function Login(username: Option<Value>, password: Option<Value>,
                   compare: (string, string) -> bool, sign: Payload -> string): (r: Response)
      reads this
      ensures r == Send(401, ErrorBody(InvalidCredentials)) <==>
                !Known(username) ||
                (password.Some? && password.value.Str? &&
                 !compare(password.value.s, users[username.value.s].password))
      ensures r.Unanswered? <==> Known(username) && !(password.Some? && password.value.Str?)
      ensures r.Send? && r.status != 401 ==>
                && Known(username) && password.Some? && password.value.Str?
                && compare(password.value.s, users[username.value.s].password)
                && r == Send(200, TokenBody(sign(Payload(users[username.value.s].id, users[username.value.s].role)),
                                            users[username.value.s].role))
      ensures Valid() && r.Send? && r.status == 200 ==> r.body.role in Roles
    {
      if !Known(username) then Send(401, ErrorBody(InvalidCredentials))
      else
        var u := users[username.value.s];
        match password
        case Some(Str(pw)) =>
          if !compare(pw, u.password) then Send(401, ErrorBody(InvalidCredentials))
          else Send(200, TokenBody(sign(Payload(u.id, u.role)), u.role))
        case _ => Unanswered
    }
  }
}
