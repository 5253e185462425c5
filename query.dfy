/** The read pipeline of the `/api/` GET branch (api/index.js): filtering on
    every query key that is not reserved, an optional sort on `_sort`, and an
    optional `_page` / `_limit` window. */
module Query {
  import opened Wrappers
  import opened JsValues

  /** The parsed query string, one value per key. */
  type Params = map<string, string>

  /** The control keys that never act as filters. */
  predicate IsReserved(key: string)
  {
    key == "_limit" || key == "_page" || key == "_sort" || key == "_order"
  }

  /** `query[key]` is present and truthy (a non-empty string). */
  predicate Given(q: Params, key: string)
  {
    key in q && q[key] != ""
  }

  // ---------------------------------------------------------------------
  // Filtering.
  // ---------------------------------------------------------------------

  /** The filter callback for one key: the field is defined and its printed
      form contains the query value, both lower-cased. A record whose field
      holds the query value itself always passes. */
  predicate FieldMatches(r: Record, key: string, needle: string): (b: bool)
    ensures b ==> key in r && !r[key].Null?
    ensures key in r && r[key] == Str(needle) ==> b
  {
    IncludesItself(Lower(needle));
    key in r && !r[key].Null? && Includes(Lower(ToJsString(r[key])), Lower(needle))
  }

  /** Lower-casing twice is lower-casing once. */
  lemma LowerTwice(s: string)
    ensures Lower(Lower(s)) == Lower(s)
  {
    assert forall i :: 0 <= i < |s| ==> Lower(Lower(s))[i] == Lower(s)[i];
  }

  /** The filter ignores the case of the query value. */
  lemma FieldMatchesIgnoresCase(r: Record, key: string, needle: string)
    ensures FieldMatches(r, key, needle) == FieldMatches(r, key, Lower(needle))
  {
    LowerTwice(needle);
  }

  /** The record passes the filters of every non-reserved key in `keys`. */
  predicate MatchesAll(r: Record, q: Params, keys: set<string>)
  {
    forall k :: k in keys && k in q && !IsReserved(k) ==> FieldMatches(r, k, q[k])
  }

  /** `a` is `b` with some elements left out, in the same order. */
  predicate IsSubsequence(a: seq<Record>, b: seq<Record>)
    decreases |b|
  {
    a == [] || (b != [] && ((a[0] == b[0] && IsSubsequence(a[1..], b[1..])) || IsSubsequence(a, b[1..])))
  }

  /** `data.filter(...)` with the filters of the keys in `keys`: exactly the
      records that pass them, in their original order. */
  function Keep(s: seq<Record>, q: Params, keys: set<string>): (out: seq<Record>)
    ensures |out| <= |s|
    ensures forall r :: r in out <==> r in s && MatchesAll(r, q, keys)
    ensures IsSubsequence(out, s)
    ensures forall r :: multiset(out)[r] == if MatchesAll(r, q, keys) then multiset(s)[r] else 0
  {
    if s == [] then []
    else
      var rest := Keep(s[1..], q, keys);
      assert s == [s[0]] + s[1..];
      if MatchesAll(s[0], q, keys) then [s[0]] + rest else rest
  }

  /** All the filters of the query. */
  function Filtered(s: seq<Record>, q: Params): seq<Record>
  {
    Keep(s, q, q.Keys)
  }

  /** Filtering by one set of keys and then by another is filtering by both. */
  lemma {:induction false} KeepTwice(s: seq<Record>, q: Params, a: set<string>, b: set<string>)
    ensures Keep(Keep(s, q, a), q, b) == Keep(s, q, a + b)
  {
    if s != [] {
      KeepTwice(s[1..], q, a, b);
      assert MatchesAll(s[0], q, a + b) <==> MatchesAll(s[0], q, a) && MatchesAll(s[0], q, b);
    }
  }

  /** A filter over reserved keys only keeps everything. */
  lemma {:induction false} KeepReserved(s: seq<Record>, q: Params, keys: set<string>)
    requires forall k :: k in keys ==> IsReserved(k)
    ensures Keep(s, q, keys) == s
  {
    if s != [] {
      KeepReserved(s[1..], q, keys);
    }
  }

  /** `_limit`, `_page`, `_sort` and `_order` never act as filters: dropping
      them from the query changes nothing about what is kept. */
  lemma {:induction false} ReservedKeysDoNotFilter(s: seq<Record>, q: Params)
    ensures Filtered(s, q) == Filtered(s, map k | k in q && !IsReserved(k) :: q[k])
  {
    var q' := map k | k in q && !IsReserved(k) :: q[k];
    if s != [] {
      ReservedKeysDoNotFilter(s[1..], q);
      assert MatchesAll(s[0], q, q.Keys) <==> MatchesAll(s[0], q', q'.Keys);
    }
  }

  /** The `forEach` over the query entries: every non-reserved key narrows
      `data` by its filter, in whatever order the keys are visited. */
  method ApplyFilters(items: seq<Record>, q: Params) returns (data: seq<Record>)
    ensures data == Filtered(items, q)
  {
    data := items;
    KeepReserved(items, q, {});
    var pending := q.Keys;
    ghost var done: set<string> := {};
    while pending != {}
      invariant pending + done == q.Keys && pending !! done
      invariant data == Keep(items, q, done)
      decreases pending
    {
      var key :| key in pending;
      if !IsReserved(key) {
        KeepTwice(items, q, done, {key});
        data := Keep(data, q, {key});
      } else {
        KeepTwice(items, q, done, {key});
        KeepReserved(Keep(items, q, done), q, {key});
      }
      pending := pending - {key};
      done := done + {key};
    }
  }

  // ---------------------------------------------------------------------
  // Sorting.
  // ---------------------------------------------------------------------

  /** Lexicographic order by character code: JavaScript `<` on two strings. */
  predicate StrLess(a: string, b: string)
    decreases |a|
  {
    if a == [] then b != []
    else if b == [] then false
    else if a[0] != b[0] then a[0] < b[0]
    else StrLess(a[1..], b[1..])
  }

  lemma {:induction false} StrLessIrreflexive(a: string)
    ensures !StrLess(a, a)
  {
    if a != [] {
      StrLessIrreflexive(a[1..]);
    }
  }

  lemma {:induction false} StrLessTransitive(a: string, b: string, c: string)
    requires StrLess(a, b) && StrLess(b, c)
    ensures StrLess(a, c)
    decreases |a|
  {
    if a != [] && b != [] && c != [] && a[0] == b[0] && b[0] == c[0] {
      StrLessTransitive(a[1..], b[1..], c[1..]);
    }
  }

  lemma {:induction false} StrLessTotal(a: string, b: string)
    ensures a == b || StrLess(a, b) || StrLess(b, a)
    decreases |a|
  {
    if a != [] && b != [] && a[0] == b[0] {
      StrLessTotal(a[1..], b[1..]);
      if a[1..] == b[1..] {
        assert a == [a[0]] + a[1..] && b == [b[0]] + b[1..];
      }
    }
  }

  /** The kind of a field value, which orders values of different kinds. */
  function Rank(v: Option<Value>): nat
  {
    match v
    case None => 0
    case Some(x) =>
      match x
      case Null => 1
      case Bool(_) => 2
      case Int(_) => 3
      case Float(_) => 4
      case Str(_) => 5
      case Arr(_) => 6
      case Obj(_) => 7
  }

  /** The comparator's `a[sortField] < b[sortField]`. On two integers, two
      strings or two booleans it is JavaScript's `<`; other pairs are ordered
      by kind, and values of a kind without an order tie. */
  predicate ValueLess(a: Option<Value>, b: Option<Value>): (r: bool)
    ensures r ==> Rank(a) <= Rank(b)
    ensures a.Some? && b.Some? && a.value.Int? && b.value.Int? ==> (r <==> a.value.i < b.value.i)
    ensures Rank(a) == Rank(b) && !(a.Some? && (a.value.Bool? || a.value.Int? || a.value.Str?)) ==> !r
  {
    if Rank(a) != Rank(b) then Rank(a) < Rank(b)
    else
      match (a, b)
      case (Some(Bool(x)), Some(Bool(y))) => !x && y
      case (Some(Int(x)), Some(Int(y))) => x < y
      case (Some(Str(x)), Some(Str(y))) => StrLess(x, y)
      case _ => false
  }

  /** `ValueLess` is a strict weak order: irreflexive, transitive, and whatever
      lies strictly between two values is below the upper or above the lower. */
  lemma ValueLessIrreflexive(a: Option<Value>)
    ensures !ValueLess(a, a)
  {
    if a.Some? && a.value.Str? {
      StrLessIrreflexive(a.value.s);
    }
  }

  lemma ValueLessTransitive(a: Option<Value>, b: Option<Value>, c: Option<Value>)
    requires ValueLess(a, b) && ValueLess(b, c)
    ensures ValueLess(a, c)
  {
    if Rank(a) == Rank(b) == Rank(c) && a.Some? && a.value.Str? {
      StrLessTransitive(a.value.s, b.value.s, c.value.s);
    }
  }

  lemma ValueLessSplit(a: Option<Value>, b: Option<Value>, c: Option<Value>)
    requires ValueLess(a, c)
    ensures ValueLess(a, b) || ValueLess(b, c)
  {
    if Rank(a) == Rank(b) == Rank(c) && a.Some? && a.value.Str? {
      var x, y, z := a.value.s, b.value.s, c.value.s;
      StrLessTotal(x, y);
      if StrLess(y, x) {
        StrLessTransitive(y, x, z);
      }
    }
  }

  /** `_order === 'desc'`; anything else, or no `_order`, is ascending. */
  predicate Descending(q: Params)
  {
    "_order" in q && q["_order"] == "desc"
  }

  /** The comparator returns a negative number: `x` goes before `y`.
      Descending order is ascending order with the two records swapped. */
  predicate Precedes(x: Record, y: Record, key: string, desc: bool): (r: bool)
    decreases desc
    ensures desc ==> (r <==> Precedes(y, x, key, false))
  {
    if desc then ValueLess(Field(y, key), Field(x, key)) else ValueLess(Field(x, key), Field(y, key))
  }

  /** "goes before", as a sort comparator decides it. */
  type Before = (Record, Record) -> bool

  /** What a consistent comparator must satisfy for a sort to be well defined:
      nothing goes before itself, "goes before" is transitive, and whatever
      goes before `z` goes before any `y` or `y` goes before `z`. */
  ghost predicate StrictWeakOrder(before: Before)
  {
    && (forall x :: !before(x, x))
    && (forall x, y, z :: before(x, y) && before(y, z) ==> before(x, z))
    && (forall x, y, z :: before(x, z) ==> before(x, y) || before(y, z))
  }

  /** `Precedes` on `key` is a strict weak order, ascending or descending. */
  lemma PrecedesIsStrictWeakOrder(key: string, desc: bool)
    ensures forall x :: !Precedes(x, x, key, desc)
    ensures forall x, y, z :: Precedes(x, y, key, desc) && Precedes(y, z, key, desc) ==> Precedes(x, z, key, desc)
    ensures forall x, y, z :: Precedes(x, z, key, desc) ==> Precedes(x, y, key, desc) || Precedes(y, z, key, desc)
  {
    forall x ensures !Precedes(x, x, key, desc) {
      ValueLessIrreflexive(Field(x, key));
    }
    forall x, y, z | Precedes(x, y, key, desc) && Precedes(y, z, key, desc) ensures Precedes(x, z, key, desc) {
      if desc {
        ValueLessTransitive(Field(z, key), Field(y, key), Field(x, key));
      } else {
        ValueLessTransitive(Field(x, key), Field(y, key), Field(z, key));
      }
    }
    forall x, y, z | Precedes(x, z, key, desc) ensures Precedes(x, y, key, desc) || Precedes(y, z, key, desc) {
      if desc {
        ValueLessSplit(Field(z, key), Field(y, key), Field(x, key));
      } else {
        ValueLessSplit(Field(x, key), Field(y, key), Field(z, key));
      }
    }
  }

  /** The handler's comparator on `key`, ascending or descending: a strict
      weak order, so the sort is well defined. */
  function Comparator(key: string, desc: bool): (before: Before)
    ensures StrictWeakOrder(before)
    ensures forall x, y :: before(x, y) == Precedes(x, y, key, desc)
  {
    PrecedesIsStrictWeakOrder(key, desc);
    (x: Record, y: Record) => Precedes(x, y, key, desc)
  }

  /** No record goes before one that comes earlier. */
  ghost predicate SortedBy(s: seq<Record>, before: Before)
  {
    forall i, j :: 0 <= i < j < |s| ==> !before(s[j], s[i])
  }

  /** The comparator returns 0: neither record goes before the other. */
  predicate Ties(x: Record, y: Record, before: Before)
  {
    !before(x, y) && !before(y, x)
  }

  /** The records of `s` that tie with `y`, in their order in `s`. */
  function TiesWith(s: seq<Record>, y: Record, before: Before): seq<Record>
  {
    if s == [] then []
    else (if Ties(s[0], y, before) then [s[0]] else []) + TiesWith(s[1..], y, before)
  }

  /** Inserts `x` after the records that go before it and ahead of the rest. */
  function Insert(x: Record, t: seq<Record>, before: Before): (r: seq<Record>)
    ensures multiset(r) == multiset(t) + multiset{x}
  {
    if t == [] then [x]
    else if before(t[0], x) then
      assert t == [t[0]] + t[1..];
      [t[0]] + Insert(x, t[1..], before)
    else [x] + t
  }

  /** `data.sort(comparator)`: a stable sort, here by insertion. */
  function SortRecords(s: seq<Record>, before: Before): (r: seq<Record>)
    ensures multiset(r) == multiset(s)
  {
    if s == [] then []
    else
      assert s == [s[0]] + s[1..];
      Insert(s[0], SortRecords(s[1..], before), before)
  }

  /** Every record of `Insert(x, t)` that is not `x` comes from `t`. */
  lemma InsertFrom(x: Record, t: seq<Record>, before: Before, y: Record)
    requires y in Insert(x, t, before) && y != x
    ensures y in t
  {
    assert y in multiset(Insert(x, t, before));
  }

  lemma {:induction false} InsertSorted(x: Record, t: seq<Record>, before: Before)
    requires StrictWeakOrder(before) && SortedBy(t, before)
    ensures SortedBy(Insert(x, t, before), before)
  {
    var r := Insert(x, t, before);
    if t == [] {
    } else if before(t[0], x) {
      var tail := Insert(x, t[1..], before);
      InsertSorted(x, t[1..], before);
      assert r == [t[0]] + tail;
      forall j | 0 <= j < |tail| ensures !before(tail[j], t[0]) {
        if tail[j] != x {
          InsertFrom(x, t[1..], before, tail[j]);
          var k :| 0 <= k < |t[1..]| && t[1..][k] == tail[j];
          assert t[k + 1] == tail[j];
        }
      }
    } else {
      assert r == [x] + t;
      forall j | 0 < j < |r| ensures !before(r[j], x) {
        assert r[j] == t[j - 1];
      }
    }
  }

  /** Sorting orders the records by the comparator. */
  lemma {:induction false} SortRecordsSorted(s: seq<Record>, before: Before)
    requires StrictWeakOrder(before)
    ensures SortedBy(SortRecords(s, before), before)
  {
    if s != [] {
      SortRecordsSorted(s[1..], before);
      InsertSorted(s[0], SortRecords(s[1..], before), before);
    }
  }

  /** Two records one of which goes before the other cannot both tie with a
      third. */
  lemma TiesApart(u: Record, x: Record, y: Record, before: Before)
    requires StrictWeakOrder(before) && before(u, x)
    ensures !(Ties(u, y, before) && Ties(x, y, before))
  {
  }

  /** `TiesWith` of a list split into its head and the rest. */
  lemma TiesWithCons(a: Record, rest: seq<Record>, y: Record, before: Before)
    ensures TiesWith([a] + rest, y, before)
            == (if Ties(a, y, before) then [a] else []) + TiesWith(rest, y, before)
  {
    assert ([a] + rest)[0] == a;
    assert ([a] + rest)[1..] == rest;
  }

  /** One step of `InsertTies` when `x` passes the head `u`: the ties of the
      head and of `x` commute, since at most one of them is non-empty. */
  lemma InsertTiesPast(u: Record, x: Record, rest: seq<Record>, tail: seq<Record>, y: Record, before: Before)
    requires !(Ties(u, y, before) && Ties(x, y, before))
    requires TiesWith(tail, y, before)
             == (if Ties(x, y, before) then [x] else []) + TiesWith(rest, y, before)
    ensures TiesWith([u] + tail, y, before)
            == (if Ties(x, y, before) then [x] else []) + TiesWith([u] + rest, y, before)
  {
    TiesWithCons(u, tail, y, before);
    TiesWithCons(u, rest, y, before);
  }

  lemma {:induction false} InsertTies(x: Record, t: seq<Record>, y: Record, before: Before)
    requires StrictWeakOrder(before)
    ensures TiesWith(Insert(x, t, before), y, before)
            == (if Ties(x, y, before) then [x] else []) + TiesWith(t, y, before)
  {
    if t == [] {
      TiesWithCons(x, [], y, before);
    } else if before(t[0], x) {
      InsertTies(x, t[1..], y, before);
      TiesApart(t[0], x, y, before);
      InsertTiesPast(t[0], x, t[1..], Insert(x, t[1..], before), y, before);
      assert [t[0]] + t[1..] == t;
    } else {
      TiesWithCons(x, t, y, before);
    }
  }

  /** Sorting is stable: the records that tie with any given record come out
      in the order they went in. */
  lemma {:induction false} SortRecordsStable(s: seq<Record>, y: Record, before: Before)
    requires StrictWeakOrder(before)
    ensures TiesWith(SortRecords(s, before), y, before) == TiesWith(s, y, before)
  {
    if s != [] {
      SortRecordsStable(s[1..], y, before);
      InsertTies(s[0], SortRecords(s[1..], before), y, before);
    }
  }

  /** A sort is requested by a truthy `_sort`. */
  predicate SortRequested(q: Params)
  {
    Given(q, "_sort")
  }

  /** The sorting step of the pipeline. */
  function SortStep(data: seq<Record>, q: Params): (r: seq<Record>)
    ensures multiset(r) == multiset(data)
  {
    if SortRequested(q) then SortRecords(data, Comparator(q["_sort"], Descending(q))) else data
  }

  /** With `_sort` the output is a permutation of the input ordered by that
      field, descending exactly when `_order` is `desc`, with ties kept in
      input order; without `_sort` the input comes back unchanged. */
  lemma SortStepSpec(data: seq<Record>, q: Params)
    ensures multiset(SortStep(data, q)) == multiset(data)
    ensures SortRequested(q) ==>
              var before := Comparator(q["_sort"], Descending(q));
              && SortedBy(SortStep(data, q), before)
              && forall y :: TiesWith(SortStep(data, q), y, before) == TiesWith(data, y, before)
    ensures !SortRequested(q) ==> SortStep(data, q) == data
  {
    if SortRequested(q) {
      var before := Comparator(q["_sort"], Descending(q));
      SortRecordsSorted(data, before);
      forall y ensures TiesWith(SortStep(data, q), y, before) == TiesWith(data, y, before) {
        SortRecordsStable(data, y, before);
      }
    }
  }

  // ---------------------------------------------------------------------
  // Pagination.
  // ---------------------------------------------------------------------

  function Min(a: int, b: int): int
  {
    if a < b then a else b
  }

  /** How `Array.prototype.slice` reads an index: `NaN` is 0, a negative index
      counts from the end, and the result is clamped to the length. */
  function SliceIndex(k: Option<int>, n: nat): (i: nat)
    ensures i <= n
    ensures k.Some? && 0 <= k.value ==> i == Min(k.value, n)
  {
    match k
    case None => 0
    case Some(v) => if v < 0 then (if n + v < 0 then 0 else n + v) else Min(v, n)
  }

  /** `s.slice(start, end)`, where `None` stands for `NaN`. */
  function JsSlice(s: seq<Record>, start: Option<int>, end: Option<int>): (out: seq<Record>)
    ensures |out| <= |s|
    ensures multiset(out) <= multiset(s)
  {
    var from := SliceIndex(start, |s|);
    var to := SliceIndex(end, |s|);
    if from < to then
      assert s == s[..from] + s[from..to] + s[to..];
      s[from..to]
    else []
  }

  /** The `X-Total-Count`, `X-Page` and `X-Per-Page` headers. */
  datatype PageHeaders = PageHeaders(total: nat, page: Option<int>, perPage: Option<int>)

  /** `data.slice((page - 1) * limit, (page - 1) * limit + limit)`, where
      `None` stands for `NaN` and the arithmetic propagates it. */
  function PageSlice(data: seq<Record>, page: Option<int>, limit: Option<int>): (out: seq<Record>)
    ensures multiset(out) <= multiset(data)
  {
    if page.Some? && limit.Some? then
      var start := (page.value - 1) * limit.value;
      JsSlice(data, Some(start), Some(start + limit.value))
    else JsSlice(data, None, None)
  }

  /** The pagination step, with the headers it sets. */
  function Window(data: seq<Record>, q: Params): (out: (seq<Record>, Option<PageHeaders>))
    ensures multiset(out.0) <= multiset(data)
  {
    if Given(q, "_page") && Given(q, "_limit") then
      var page := ParseInt(q["_page"]);
      var limit := ParseInt(q["_limit"]);
      (PageSlice(data, page, limit), Some(PageHeaders(|data|, page, limit)))
    else if Given(q, "_limit") then
      (JsSlice(data, Some(0), ParseInt(q["_limit"])), None)
    else
      (data, None)
  }

  /** With both `_page` and `_limit` the pre-pagination count is reported,
      with the parsed page and limit. */
  lemma PagedHeaders(data: seq<Record>, q: Params)
    requires Given(q, "_page") && Given(q, "_limit")
    ensures Window(data, q).1 == Some(PageHeaders(|data|, ParseInt(q["_page"]), ParseInt(q["_limit"])))
  {
  }

  /** With both `_page` and `_limit`, page `p` of size `l` is the slice
      `[(p-1)*l, p*l)` clamped to the data, so it holds at most `l` records. */
  lemma {:induction false} PagedWindow(data: seq<Record>, q: Params, p: int, l: int)
    requires Given(q, "_page") && Given(q, "_limit")
    requires ParseInt(q["_page"]) == Some(p) && ParseInt(q["_limit"]) == Some(l)
    requires p >= 1 && l >= 0
    ensures Window(data, q).0 == data[Min(PageStart(p, l), |data|)..Min(PageStart(p, l) + l, |data|)]
    ensures |Window(data, q).0| <= l
  {
    assert Window(data, q).0 == PageSlice(data, Some(p), Some(l));
    PageSliceOfPage(data, p, l);
  }

  /** Page `p` of size `l` as a clamped range of the data. */
  lemma PageSliceOfPage(data: seq<Record>, p: int, l: int)
    requires p >= 1 && l >= 0
    ensures PageSlice(data, Some(p), Some(l))
            == data[Min(PageStart(p, l), |data|)..Min(PageStart(p, l) + l, |data|)]
    ensures |PageSlice(data, Some(p), Some(l))| <= l
  {
    var start := PageStart(p, l);
    assert PageSlice(data, Some(p), Some(l)) == JsSlice(data, Some(start), Some(start + l));
    JsSliceOfRange(data, start, start + l);
  }

  /** The first index of page `p` of size `l`, counting pages from 1. */
  function PageStart(p: int, l: int): (start: nat)
    requires p >= 1 && l >= 0
    ensures start == (p - 1) * l
  {
    (p - 1) * l
  }

  /** On two non-negative bounds, `slice` is the clamped range. */
  lemma JsSliceOfRange(s: seq<Record>, a: int, b: int)
    requires 0 <= a <= b
    ensures JsSlice(s, Some(a), Some(b)) == s[Min(a, |s|)..Min(b, |s|)]
    ensures |JsSlice(s, Some(a), Some(b))| <= b - a
  {
  }

  /** Where `slice` reads a negative bound: counted back from the end,
      and no earlier than the start. */
  function FromEnd(k: int, n: nat): int
  {
    if k < 0 then (if n + k < 0 then 0 else n + k) else k
  }

  /** A negative bound of `slice` counts from the end: `slice(a, b)` is the
      slice between the bounds read that way. */
  lemma JsSliceCountsFromEnd(s: seq<Record>, a: int, b: int)
    ensures FromEnd(a, |s|) >= 0 && FromEnd(b, |s|) >= 0
    ensures JsSlice(s, Some(a), Some(b)) == JsSlice(s, Some(FromEnd(a, |s|)), Some(FromEnd(b, |s|)))
  {
  }

  /** Page 0 ends where the data starts, so `_page=0` selects nothing. */
  lemma PageZeroIsEmpty(data: seq<Record>, q: Params, l: int)
    requires Given(q, "_page") && Given(q, "_limit")
    requires ParseInt(q["_page"]) == Some(0) && ParseInt(q["_limit"]) == Some(l) && l >= 0
    ensures Window(data, q).0 == []
  {
  }

  /** Page -1 of size `l` counts from the end: the `l` records that end `l`
      records before the last one, clamped to the start. */
  lemma NegativePageFromEnd(data: seq<Record>, q: Params, l: int)
    requires Given(q, "_page") && Given(q, "_limit")
    requires ParseInt(q["_page"]) == Some(-1) && ParseInt(q["_limit"]) == Some(l) && l > 0
    ensures Window(data, q).0 == JsSlice(data, Some(FromEnd(-2 * l, |data|)), Some(FromEnd(-l, |data|)))
  {
    assert Window(data, q).0 == PageSlice(data, Some(-1), Some(l));
    JsSliceCountsFromEnd(data, -2 * l, -l);
  }

  /** With `_limit` but no `_page`, the first `min(limit, n)` records. */
  lemma LimitWindow(data: seq<Record>, q: Params, l: int)
    requires !Given(q, "_page") && Given(q, "_limit")
    requires ParseInt(q["_limit"]) == Some(l) && l >= 0
    ensures Window(data, q) == (data[..Min(l, |data|)], None)
  {
  }

  /** A `_limit` that is not a number selects nothing. */
  lemma NaNLimitWindow(data: seq<Record>, q: Params)
    requires Given(q, "_limit") && ParseInt(q["_limit"]).None?
    ensures Window(data, q).0 == []
  {
  }

  /** Without `_limit` everything is returned, even when `_page` is given. */
  lemma UnlimitedWindow(data: seq<Record>, q: Params)
    requires !Given(q, "_limit")
    ensures Window(data, q) == (data, None)
  {
  }

  /** The whole GET pipeline on a collection: filter, sort, paginate. */
  function Listing(s: seq<Record>, q: Params): (r: (seq<Record>, Option<PageHeaders>))
    ensures multiset(r.0) <= multiset(s)
  {
    assert multiset(Filtered(s, q)) <= multiset(s);
    Window(SortStep(Filtered(s, q), q), q)
  }

  /** What a collection GET returns comes from the collection and passes every
      filter; a paginated response reports how many records passed. */
  lemma {:induction false} ListingSound(s: seq<Record>, q: Params)
    ensures forall r :: r in Listing(s, q).0 ==> r in s && MatchesAll(r, q, q.Keys)
    ensures Listing(s, q).1.Some? ==> Listing(s, q).1.value.total == |Filtered(s, q)|
  {
    var f := Filtered(s, q);
    var sorted := SortStep(f, q);
    assert |sorted| == |multiset(sorted)| == |f|;
    var out := Window(sorted, q);
    forall r | r in out.0 ensures r in s && MatchesAll(r, q, q.Keys) {
      assert r in multiset(out.0);
      assert r in multiset(sorted);
      assert r in multiset(f);
    }
  }
}
