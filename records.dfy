/** Collections and records: `generateId`, the `find` / `findIndex` lookups the
    handler performs, and the records that POST, PUT, PATCH and register build
    (api/index.js). */
module Records {
  import opened Wrappers
  import opened JsValues

  // ---------------------------------------------------------------------
  // Ids and generateId.
  // ---------------------------------------------------------------------

  /** The record's `id` is an integer. */
  predicate HasIntId(r: Record)
  {
    "id" in r && r["id"].Int?
  }

  /** The record's integer id; an id that is not an integer counts as 0. */
  function IdValue(r: Record): int
  {
    if HasIntId(r) then r["id"].i else 0
  }

  /** `Math.max(...collection.map(item => item.id))` for a non-empty collection. */
  function MaxId(s: seq<Record>): (m: int)
    requires s != []
    ensures forall i :: 0 <= i < |s| ==> IdValue(s[i]) <= m
    ensures exists i :: 0 <= i < |s| && IdValue(s[i]) == m
  {
    if |s| == 1 then IdValue(s[0])
    else
      var rest := MaxId(s[1..]);
      assert forall i :: 1 <= i < |s| ==> s[i] == s[1..][i - 1];
      if IdValue(s[0]) >= rest then IdValue(s[0]) else rest
  }

  /** `generateId(collection)`: one more than the largest id, or 1 for an empty
      collection. It is above every id present, and it is the least such value
      of the form "some id plus one". */
  function NextId(s: seq<Record>): (id: int)
    ensures s == [] ==> id == 1
    ensures forall i :: 0 <= i < |s| ==> IdValue(s[i]) < id
    ensures s != [] ==> exists i :: 0 <= i < |s| && id == IdValue(s[i]) + 1
  {
    if s == [] then 1 else MaxId(s) + 1
  }

  /** Every record carries an integer id and no two records share one. The
      handler does not enforce this, but POST and DELETE keep it (below). */
  ghost predicate IdsDistinct(s: seq<Record>)
  {
    && (forall i :: 0 <= i < |s| ==> HasIntId(s[i]))
    && (forall i, j :: 0 <= i < j < |s| ==> IdValue(s[i]) != IdValue(s[j]))
  }

  // ---------------------------------------------------------------------
  // find / findIndex.
  // ---------------------------------------------------------------------

  /** The predicates the handler passes to `find` and `findIndex`. */
  datatype Probe =
    | ById(id: int)                                              // item.id === id
    | ByEmail(email: Option<Value>)                              // u.email === email
    | ByCredentials(email: Option<Value>, password: Option<Value>) // both match

  predicate Hits(r: Record, p: Probe)
  {
    match p
    case ById(id) => StrictEquals(Field(r, "id"), Some(Int(id)))
    case ByEmail(e) => StrictEquals(Field(r, "email"), e)
    case ByCredentials(e, pw) =>
      StrictEquals(Field(r, "email"), e) && StrictEquals(Field(r, "password"), pw)
  }

  /** `findIndex`: the index of the first record the probe hits, if any. */
  function Find(s: seq<Record>, p: Probe): (r: Option<nat>)
    ensures r.Some? ==> r.value < |s| && Hits(s[r.value], p)
    ensures r.Some? ==> forall j :: 0 <= j < r.value ==> !Hits(s[j], p)
    ensures r.None? <==> forall j :: 0 <= j < |s| ==> !Hits(s[j], p)
  {
    if s == [] then None
    else if Hits(s[0], p) then Some(0)
    else
      match Find(s[1..], p)
      case None =>
        assert forall j :: 1 <= j < |s| ==> s[j] == s[1..][j - 1];
        None
      case Some(k) =>
        assert forall j :: 1 <= j < |s| ==> s[j] == s[1..][j - 1];
        Some(k + 1)
  }

  lemma HitsById(r: Record, id: int)
    ensures Hits(r, ById(id)) <==> HasIntId(r) && IdValue(r) == id
  {
  }

  /** The id POST allocates is held by no record of the collection. */
  lemma {:induction false} NextIdIsFresh(s: seq<Record>)
    ensures Find(s, ById(NextId(s))).None?
  {
    forall j | 0 <= j < |s| ensures !Hits(s[j], ById(NextId(s))) {
      HitsById(s[j], NextId(s));
    }
  }

  // ---------------------------------------------------------------------
  // The records the handler builds.
  // ---------------------------------------------------------------------

  /** The record POST stores: the body, then `id`, `createdAt` and `updatedAt`
      assigned over whatever the body held. */
  function Created(body: Record, id: int, now: string): (r: Record)
    ensures r.Keys == body.Keys + {"id", "createdAt", "updatedAt"}
    ensures r["id"] == Int(id) && r["createdAt"] == Str(now) && r["updatedAt"] == Str(now)
    ensures forall k :: k in body && k != "id" && k != "createdAt" && k != "updatedAt" ==> r[k] == body[k]
  {
    body["id" := Int(id)]["createdAt" := Str(now)]["updatedAt" := Str(now)]
  }

  /** `updates.updatedAt = now`: the body as PUT and PATCH spread it. */
  function Stamped(body: Record, now: string): (r: Record)
    ensures r.Keys == body.Keys + {"updatedAt"}
    ensures r["updatedAt"] == Str(now)
    ensures forall k :: k in body && k != "updatedAt" ==> r[k] == body[k]
  {
    body["updatedAt" := Str(now)]
  }

  /** PATCH: `{ ...original, ...updates }`. Every original field the body does
      not name survives; the body wins everywhere else, `id` and `createdAt`
      included. */
  function Merged(original: Record, body: Record, now: string): (r: Record)
    ensures r.Keys == original.Keys + body.Keys + {"updatedAt"}
    ensures r["updatedAt"] == Str(now)
    ensures forall k :: k in body && k != "updatedAt" ==> r[k] == body[k]
    ensures forall k :: k in original && k !in body && k != "updatedAt" ==> r[k] == original[k]
  {
    original + Stamped(body, now)
  }

  /** PUT: `{ id, createdAt: original.createdAt, ...updates }`. Only `id`, the
      original `createdAt` and the body survive; a body `id` or `createdAt` wins.
      An original without `createdAt` contributes `undefined`, which JSON drops. */
  function Replaced(original: Record, id: int, body: Record, now: string): (r: Record)
    ensures r.Keys == {"id", "updatedAt"} + body.Keys + (if "createdAt" in original then {"createdAt"} else {})
    ensures r["updatedAt"] == Str(now)
    ensures forall k :: k in body && k != "updatedAt" ==> r[k] == body[k]
    ensures "id" !in body ==> r["id"] == Int(id)
    ensures "createdAt" !in body && "createdAt" in original ==> r["createdAt"] == original["createdAt"]
    ensures forall k :: k in original && k !in body && k != "id" && k != "createdAt" && k != "updatedAt" ==> k !in r
  {
    var kept := if "createdAt" in original then map["id" := Int(id), "createdAt" := original["createdAt"]]
                else map["id" := Int(id)];
    kept + Stamped(body, now)
  }

  /** `const { password: _, ...rest } = user`. */
  function WithoutPassword(user: Record): (r: Record)
    ensures r.Keys == user.Keys - {"password"}
    ensures forall k :: k in r ==> r[k] == user[k]
  {
    user - {"password"}
  }

  /** `value || ''`. */
  function OrEmpty(v: Option<Value>): Value
  {
    if Truthy(v) then v.value else Str("")
  }

  /** The user that register stores: the given `full_name`, `email` and
      `password`, `phone` and `home_address` defaulting to the empty string, the
      allocated id, the creation time and no business profiles. Any other body
      field is dropped. */
  function NewUser(body: Record, id: int, now: string): (r: Record)
    requires "full_name" in body && "email" in body && "password" in body
    ensures r.Keys == {"id", "full_name", "email", "password", "phone", "home_address", "createdAt", "business_profiles"}
    ensures r["id"] == Int(id) && r["createdAt"] == Str(now) && r["business_profiles"] == Arr([])
    ensures r["full_name"] == body["full_name"] && r["email"] == body["email"] && r["password"] == body["password"]
    ensures Truthy(Field(body, "phone")) ==> r["phone"] == body["phone"]
    ensures !Truthy(Field(body, "phone")) ==> r["phone"] == Str("")
    ensures Truthy(Field(body, "home_address")) ==> r["home_address"] == body["home_address"]
    ensures !Truthy(Field(body, "home_address")) ==> r["home_address"] == Str("")
  {
    map[
      "id" := Int(id),
      "full_name" := body["full_name"],
      "email" := body["email"],
      "password" := body["password"],
      "phone" := OrEmpty(Field(body, "phone")),
      "home_address" := OrEmpty(Field(body, "home_address")),
      "createdAt" := Str(now),
      "business_profiles" := Arr([])
    ]
  }

  /** `collection.splice(i, 1)` on the collection. */
  function RemoveAt(s: seq<Record>, i: nat): (r: seq<Record>)
    requires i < |s|
    ensures |r| == |s| - 1
    ensures forall j :: 0 <= j < i ==> r[j] == s[j]
    ensures forall j :: i <= j < |r| ==> r[j] == s[j + 1]
  {
    s[..i] + s[i + 1..]
  }

  // ---------------------------------------------------------------------
  // What POST, PUT, PATCH and DELETE do to the ids of a collection.
  // ---------------------------------------------------------------------

  /** Appending the record POST builds keeps the ids distinct. */
  lemma {:induction false} CreatedKeepsIdsDistinct(s: seq<Record>, body: Record, now: string)
    requires IdsDistinct(s)
    ensures IdsDistinct(s + [Created(body, NextId(s), now)])
  {
    var t := s + [Created(body, NextId(s), now)];
    assert forall i :: 0 <= i < |s| ==> t[i] == s[i];
    assert IdValue(t[|s|]) == NextId(s);
  }

  /** Removing a record keeps the ids distinct. */
  lemma {:induction false} RemoveKeepsIdsDistinct(s: seq<Record>, i: nat)
    requires IdsDistinct(s) && i < |s|
    ensures IdsDistinct(RemoveAt(s, i))
  {
    var t := RemoveAt(s, i);
    forall a, b | 0 <= a < b < |t| ensures IdValue(t[a]) != IdValue(t[b]) {
      var a' := if a < i then a else a + 1;
      var b' := if b < i then b else b + 1;
      assert t[a] == s[a'] && t[b] == s[b'] && a' < b';
    }
  }

  /** A PUT or PATCH whose body has no `id` leaves every id where it was, so
      it keeps the ids distinct as well; a body `id` can break this. */
  lemma {:induction false} UpdateKeepsIdsDistinct(s: seq<Record>, i: nat, id: int, body: Record, now: string, patch: bool)
    requires IdsDistinct(s) && i < |s| && Hits(s[i], ById(id))
    requires "id" !in body
    ensures IdsDistinct(s[i := if patch then Merged(s[i], body, now) else Replaced(s[i], id, body, now)])
  {
    HitsById(s[i], id);
    var rec := if patch then Merged(s[i], body, now) else Replaced(s[i], id, body, now);
    assert HasIntId(rec) && IdValue(rec) == IdValue(s[i]);
  }

  /** Once a record is removed, no record with its id is left, provided ids
      were distinct: deleting id k and then reading id k gives not found. */
  lemma {:induction false} RemovedIdIsGone(s: seq<Record>, id: int)
    requires IdsDistinct(s) && Find(s, ById(id)).Some?
    ensures Find(RemoveAt(s, Find(s, ById(id)).value), ById(id)).None?
  {
    var i := Find(s, ById(id)).value;
    var t := RemoveAt(s, i);
    HitsById(s[i], id);
    forall j | 0 <= j < |t| ensures !Hits(t[j], ById(id)) {
      var j' := if j < i then j else j + 1;
      assert t[j] == s[j'] && j' != i;
      HitsById(s[j'], id);
    }
  }

  /** Ids are not monotonic: after the newest record is created and deleted
      again, the next POST hands out the same id once more. */
  lemma {:induction false} DeletedNewestIdIsReused(s: seq<Record>, body: Record, now: string)
    ensures var t := s + [Created(body, NextId(s), now)];
            NextId(RemoveAt(t, |s|)) == IdValue(t[|s|])
  {
    var t := s + [Created(body, NextId(s), now)];
    assert RemoveAt(t, |s|) == s;
  }

  /** Appending the user register builds keeps the ids distinct. */
  lemma {:induction false} NewUserKeepsIdsDistinct(s: seq<Record>, body: Record, now: string)
    requires IdsDistinct(s)
    requires "full_name" in body && "email" in body && "password" in body
    ensures IdsDistinct(s + [NewUser(body, NextId(s), now)])
  {
    var t := s + [NewUser(body, NextId(s), now)];
    assert forall i :: 0 <= i < |s| ==> t[i] == s[i];
    assert IdValue(t[|s|]) == NextId(s);
  }

  /** A user that register has just appended, with no earlier user holding
      that email, is the one login then finds with the same email and
      password (both plain JSON values, which `===` compares by value). */
  lemma {:induction false} RegisteredUserLogsIn(s: seq<Record>, body: Record, now: string)
    requires "full_name" in body && "email" in body && "password" in body
    requires !body["email"].Arr? && !body["email"].Obj?
    requires !body["password"].Arr? && !body["password"].Obj?
    requires Find(s, ByEmail(Field(body, "email"))).None?
    ensures Find(s + [NewUser(body, NextId(s), now)], ByCredentials(Field(body, "email"), Field(body, "password")))
            == Some(|s|)
  {
    var user := NewUser(body, NextId(s), now);
    var t := s + [user];
    var probe := ByCredentials(Field(body, "email"), Field(body, "password"));
    forall j | 0 <= j < |s| ensures !Hits(t[j], probe) {
      assert t[j] == s[j];
      assert !Hits(s[j], ByEmail(Field(body, "email")));
    }
    assert Hits(t[|s|], probe);
  }
}
