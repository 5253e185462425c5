/** The in-memory store and the handler branches that use it (api/index.js):
    the `/api/:resource[/:id]` engine and the `/mobile_app/login` and
    `/mobile_app/register` routes. The request has already been routed: the
    path is split into a resource name and an optional id, the query string
    is parsed, the body is parsed JSON, and the current time is given. */
module Server {
  import opened Wrappers
  import opened JsValues
  import opened Records
  import opened Query
  import opened Email

  /** The request method. `Other` carries any method name but the five the
      switch names (the switch compares names exactly, so `get` is `Other`). */
  datatype Verb = Get | Post | Put | Patch | Delete | Other(name: string)

  /** What the handler passes to `res.json`. */
  datatype Payload =
    | Item(record: Record)                                    // one record
    | Items(records: seq<Record>)                             // a collection read
    | UnknownResource(resource: string, available: set<string>) // `Resource '…' not found`
    | NotFoundId(resource: string, id: int)                   // `… with id … not found`
    | IdRequired(action: string)                              // `ID required for update|deletion`
    | MethodNotAllowed(verb: string)                          // `Method … not allowed`
    | Envelope(success: bool, code: int, message: string, user: Option<Record>) // auth routes

  /** Status, body, and the pagination headers when they are set. */
  datatype Response = Response(status: int, payload: Payload, headers: Option<PageHeaders>)

  /** `parseInt(pathParts[2])` is truthy: present, a number, and not 0. */
  predicate IdGiven(id: Option<int>)
  {
    id.Some? && id.value != 0
  }

  /** The record POST creates is found again by a collection GET that filters
      on its own email. */
  lemma {:induction false} CreatedIsFoundByEmail(s: seq<Record>, body: Record, now: string, email: string)
    requires "email" in body && body["email"] == Str(email)
    ensures var rec := Created(body, NextId(s), now);
            rec in Listing(s + [rec], map["email" := email]).0
  {
    var rec := Created(body, NextId(s), now);
    var q := map["email" := email];
    IncludesItself(Lower(email));
    assert MatchesAll(rec, q, q.Keys);
    assert rec in s + [rec];
    SortStepSpec(Filtered(s + [rec], q), q);
    UnlimitedWindow(SortStep(Filtered(s + [rec], q), q), q);
  }

  class Store {
    /** `mockDB`: collection name to records, in insertion order. */
    var db: map<string, seq<Record>>

    /** The `users` collection that the auth routes use is always there. */
    ghost predicate Valid()
      reads this
    {
      "users" in db
    }

    /** Every collection holds distinct integer ids (kept by POST, DELETE and
        register, and by PUT and PATCH whose body has no `id`). */
    ghost predicate IdsWellFormed()
      reads this
    {
      forall name :: name in db ==> IdsDistinct(db[name])
    }

    constructor (seed: map<string, seq<Record>>)
      requires "users" in seed
      ensures Valid() && db == seed
    {
      db := seed;
    }

    /** GET on a known resource: by id, the first record with that id or 404;
        otherwise the filtered, sorted and windowed collection. The store is
        not changed (the method has no `modifies` clause). */
    method Read(resource: string, id: Option<int>, q: Params) returns (resp: Response)
      requires resource in db
      ensures IdGiven(id) ==>
                match Find(db[resource], ById(id.value))
                case Some(i) => resp == Response(200, Item(db[resource][i]), None)
                case None => resp == Response(404, NotFoundId(resource, id.value), None)
      ensures !IdGiven(id) ==>
                resp == Response(200, Items(Listing(db[resource], q).0), Listing(db[resource], q).1)
    {
      var items := db[resource];
      if IdGiven(id) {
        match Find(items, ById(id.value)) {
          case Some(i) => resp := Response(200, Item(items[i]), None);
          case None => resp := Response(404, NotFoundId(resource, id.value), None);
        }
      } else {
        var data := ApplyFilters(items, q);
        data := SortStep(data, q);
        var window := Window(data, q);
        resp := Response(200, Items(window.0), window.1);
      }
    }

    /** POST: appends the body with a fresh id and both timestamps, and
        answers 201 with it. Earlier records are untouched. */
    method Create(resource: string, body: Record, now: string) returns (resp: Response)
      requires resource in db
      modifies this
      ensures db.Keys == old(db).Keys
      ensures forall name :: name in old(db) && name != resource ==> db[name] == old(db)[name]
      ensures var rec := Created(body, NextId(old(db[resource])), now);
              && db == old(db)[resource := old(db[resource]) + [rec]]
              && resp == Response(201, Item(rec), None)
      ensures old(IdsWellFormed()) ==> IdsWellFormed()
    {
      var items := db[resource];
      var rec := Created(body, NextId(items), now);
      if IdsWellFormed() {
        CreatedKeepsIdsDistinct(items, body, now);
      }
      db := db[resource := items + [rec]];
      resp := Response(201, Item(rec), None);
    }

    /** PUT (`patch` false) and PATCH (`patch` true): 400 without an id, 404
        when no record has it, otherwise the first record with that id is
        replaced or merged in place and returned. */
    method Update(resource: string, id: Option<int>, body: Record, now: string, patch: bool) returns (resp: Response)
      requires resource in db
      modifies this
      ensures db.Keys == old(db).Keys
      ensures forall name :: name in old(db) && name != resource ==> db[name] == old(db)[name]
      ensures !IdGiven(id) ==> resp == Response(400, IdRequired("update"), None) && db == old(db)
      ensures IdGiven(id) && Find(old(db[resource]), ById(id.value)).None? ==>
                resp == Response(404, NotFoundId(resource, id.value), None) && db == old(db)
      ensures IdGiven(id) && Find(old(db[resource]), ById(id.value)).Some? ==>
                var i := Find(old(db[resource]), ById(id.value)).value;
                var original := old(db[resource])[i];
                var rec := if patch then Merged(original, body, now) else Replaced(original, id.value, body, now);
                && db == old(db)[resource := old(db[resource])[i := rec]]
                && resp == Response(200, Item(rec), None)
      ensures old(IdsWellFormed()) && "id" !in body ==> IdsWellFormed()
    {
      if !IdGiven(id) {
        resp := Response(400, IdRequired("update"), None);
        return;
      }
      var items := db[resource];
      match Find(items, ById(id.value)) {
        case None =>
          resp := Response(404, NotFoundId(resource, id.value), None);
        case Some(i) =>
          var rec := if patch then Merged(items[i], body, now) else Replaced(items[i], id.value, body, now);
          if IdsWellFormed() && "id" !in body {
            UpdateKeepsIdsDistinct(items, i, id.value, body, now, patch);
          }
          db := db[resource := items[i := rec]];
          resp := Response(200, Item(rec), None);
      }
    }

    /** DELETE: 400 without an id, 404 when no record has it, otherwise the
        first record with that id is spliced out and returned; the others keep
        their order. */
    method Remove(resource: string, id: Option<int>) returns (resp: Response)
      requires resource in db
      modifies this
      ensures db.Keys == old(db).Keys
      ensures forall name :: name in old(db) && name != resource ==> db[name] == old(db)[name]
      ensures !IdGiven(id) ==> resp == Response(400, IdRequired("deletion"), None) && db == old(db)
      ensures IdGiven(id) && Find(old(db[resource]), ById(id.value)).None? ==>
                resp == Response(404, NotFoundId(resource, id.value), None) && db == old(db)
      ensures IdGiven(id) && Find(old(db[resource]), ById(id.value)).Some? ==>
                var i := Find(old(db[resource]), ById(id.value)).value;
                && db == old(db)[resource := RemoveAt(old(db[resource]), i)]
                && resp == Response(200, Item(old(db[resource])[i]), None)
      ensures old(IdsWellFormed()) ==> IdsWellFormed()
    {
      if !IdGiven(id) {
        resp := Response(400, IdRequired("deletion"), None);
        return;
      }
      var items := db[resource];
      match Find(items, ById(id.value)) {
        case None =>
          resp := Response(404, NotFoundId(resource, id.value), None);
        case Some(i) =>
          if IdsWellFormed() {
            RemoveKeepsIdsDistinct(items, i);
          }
          db := db[resource := RemoveAt(items, i)];
          resp := Response(200, Item(items[i]), None);
      }
    }

    /** The `/api/` branch: an unknown resource is a 404 listing the known
        ones, then the verb decides; only the named collection can change and
        no collection is ever added or removed. */
    method HandleApi(resource: string, id: Option<int>, verb: Verb, q: Params, body: Record, now: string)
      returns (resp: Response)
      requires Valid()
      requires verb.Other? ==> verb.name !in {"GET", "POST", "PUT", "PATCH", "DELETE"}
      modifies this
      ensures Valid() && db.Keys == old(db).Keys
      ensures forall name :: name in old(db) && name != resource ==> db[name] == old(db)[name]
      ensures resource !in old(db) ==>
                resp == Response(404, UnknownResource(resource, old(db).Keys), None) && db == old(db)
      ensures resource in old(db) && verb.Other? ==>
                resp == Response(405, MethodNotAllowed(verb.name), None) && db == old(db)
      ensures verb.Get? ==> db == old(db)
      ensures resource in old(db) && verb.Get? && IdGiven(id) ==>
                match Find(old(db)[resource], ById(id.value))
                case Some(i) => resp == Response(200, Item(old(db)[resource][i]), None)
                case None => resp == Response(404, NotFoundId(resource, id.value), None)
      ensures resource in old(db) && verb.Get? && !IdGiven(id) ==>
                var listing := Listing(old(db)[resource], q);
                resp == Response(200, Items(listing.0), listing.1)
      ensures resource in old(db) && verb.Post? ==>
                var rec := Created(body, NextId(old(db)[resource]), now);
                && db == old(db)[resource := old(db)[resource] + [rec]]
                && resp == Response(201, Item(rec), None)
      ensures resource in old(db) && (verb.Put? || verb.Patch?) && IdGiven(id) && Find(old(db)[resource], ById(id.value)).None? ==>
                resp == Response(404, NotFoundId(resource, id.value), None)
      ensures resource in old(db) && (verb.Put? || verb.Patch?) && IdGiven(id) && Find(old(db)[resource], ById(id.value)).Some? ==>
                var i := Find(old(db)[resource], ById(id.value)).value;
                var original := old(db)[resource][i];
                var rec := if verb.Patch? then Merged(original, body, now) else Replaced(original, id.value, body, now);
                && db == old(db)[resource := old(db)[resource][i := rec]]
                && resp == Response(200, Item(rec), None)
      ensures resource in old(db) && verb.Delete? && IdGiven(id) && Find(old(db)[resource], ById(id.value)).None? ==>
                resp == Response(404, NotFoundId(resource, id.value), None)
      ensures resource in old(db) && verb.Delete? && IdGiven(id) && Find(old(db)[resource], ById(id.value)).Some? ==>
                var i := Find(old(db)[resource], ById(id.value)).value;
                && db == old(db)[resource := RemoveAt(old(db)[resource], i)]
                && resp == Response(200, Item(old(db)[resource][i]), None)
      ensures resource in old(db) && (verb.Put? || verb.Patch?) && !IdGiven(id) ==>
                resp == Response(400, IdRequired("update"), None) && db == old(db)
      ensures resource in old(db) && verb.Delete? && !IdGiven(id) ==>
                resp == Response(400, IdRequired("deletion"), None) && db == old(db)
      ensures resp.status == 404 ==> db == old(db)
      ensures old(IdsWellFormed()) && !((verb.Put? || verb.Patch?) && "id" in body) ==> IdsWellFormed()
    {
      if resource !in db {
        resp := Response(404, UnknownResource(resource, db.Keys), None);
        return;
      }
      match verb {
        case Get => resp := Read(resource, id, q);
        case Post => resp := Create(resource, body, now);
        case Put => resp := Update(resource, id, body, now, false);
        case Patch => resp := Update(resource, id, body, now, true);
        case Delete => resp := Remove(resource, id);
        case Other(name) => resp := Response(405, MethodNotAllowed(name), None);
      }
    }

    /** POST /mobile_app/login: 400 unless both email and password are given,
        401 unless a stored user has both, otherwise that user (the first one)
        without its password. */
    method Login(body: Record) returns (resp: Response)
      requires Valid()
      ensures var email, password := Field(body, "email"), Field(body, "password");
              && (!Truthy(email) || !Truthy(password) ==>
                    resp == Response(400, Envelope(false, 400, "Email and password are required", None), None))
              && (Truthy(email) && Truthy(password) ==>
                    match Find(db["users"], ByCredentials(email, password))
                    case None =>
                      resp == Response(401, Envelope(false, 401, "Invalid email or password", None), None)
                    case Some(i) =>
                      resp == Response(200, Envelope(true, 200, "Login successful", Some(WithoutPassword(db["users"][i]))), None))
      ensures resp.payload.Envelope? && resp.payload.user.Some? ==> "password" !in resp.payload.user.value
    {
      var email, password := Field(body, "email"), Field(body, "password");
      if !Truthy(email) || !Truthy(password) {
        resp := Response(400, Envelope(false, 400, "Email and password are required", None), None);
        return;
      }
      match Find(db["users"], ByCredentials(email, password)) {
        case None =>
          resp := Response(401, Envelope(false, 401, "Invalid email or password", None), None);
        case Some(i) =>
          resp := Response(200, Envelope(true, 200, "Login successful", Some(WithoutPassword(db["users"][i]))), None);
      }
    }

    /** POST /mobile_app/register: 400 (and no change) when `full_name`, `email`
        or `password` is missing, when the email does not have the shape
        `local@domain.tld`, or when a user already has that email; otherwise a
        new user is appended and returned, 201, without its password. */
    method Register(body: Record, now: string) returns (resp: Response)
      requires Valid()
      modifies this
      ensures Valid()
      ensures var fullName, email, password := Field(body, "full_name"), Field(body, "email"), Field(body, "password");
              !Truthy(fullName) || !Truthy(email) || !Truthy(password) ==>
                && resp == Response(400, Envelope(false, 400, "Full name, email, and password are required", None), None)
                && db == old(db)
      ensures var fullName, email, password := Field(body, "full_name"), Field(body, "email"), Field(body, "password");
              Truthy(fullName) && Truthy(email) && Truthy(password) && !IsValidEmail(ToJsString(email.value)) ==>
                && resp == Response(400, Envelope(false, 400, "Please provide a valid email address", None), None)
                && db == old(db)
      ensures var fullName, email, password := Field(body, "full_name"), Field(body, "email"), Field(body, "password");
              Truthy(fullName) && Truthy(email) && Truthy(password) && IsValidEmail(ToJsString(email.value))
              && Find(old(db["users"]), ByEmail(email)).Some? ==>
                && resp == Response(400, Envelope(false, 400, "A user with this email already exists", None), None)
                && db == old(db)
      ensures var fullName, email, password := Field(body, "full_name"), Field(body, "email"), Field(body, "password");
              Truthy(fullName) && Truthy(email) && Truthy(password) && IsValidEmail(ToJsString(email.value))
              && Find(old(db["users"]), ByEmail(email)).None? ==>
                var user := NewUser(body, NextId(old(db["users"])), now);
                && db == old(db)["users" := old(db["users"]) + [user]]
                && resp == Response(201, Envelope(true, 201, "User registered successfully", Some(WithoutPassword(user))), None)
      ensures old(IdsWellFormed()) ==> IdsWellFormed()
    {
      var fullName, email, password := Field(body, "full_name"), Field(body, "email"), Field(body, "password");
      if !Truthy(fullName) || !Truthy(email) || !Truthy(password) {
        resp := Response(400, Envelope(false, 400, "Full name, email, and password are required", None), None);
        return;
      }
      if !IsValidEmail(ToJsString(email.value)) {
        resp := Response(400, Envelope(false, 400, "Please provide a valid email address", None), None);
        return;
      }
      var users := db["users"];
      if Find(users, ByEmail(email)).Some? {
        resp := Response(400, Envelope(false, 400, "A user with this email already exists", None), None);
        return;
      }
      var user := NewUser(body, NextId(users), now);
      if IdsWellFormed() {
        NewUserKeepsIdsDistinct(users, body, now);
      }
      db := db["users" := users + [user]];
      resp := Response(201, Envelope(true, 201, "User registered successfully", Some(WithoutPassword(user))), None);
    }
  }
}
