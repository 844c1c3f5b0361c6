/**
 * The in-memory store of ONE Record logistics objects used in place of a
 * server: lookup by id or by type, creation with a generated id, update by
 * merging fields, and deletion. Each operation takes the store and returns
 * the new store; the artificial response delays are not modelled.
 */
module MockStore {
  import opened Wrappers
  import opened Arrays

  /** A field value of a JSON-LD object, as far as the store inspects it. */
  datatype Value =
    | Str(s: string)              // a string
    | StrList(items: seq<string>) // an array of strings (a multi-typed `@type`)
    | Other(json: string)         // any other JSON value, kept as its text

  /** A logistics object: field name to value. */
  type Record = map<string, Value>

  const IdKey: string := "@id"
  const TypeKey: string := "@type"

  /** The base every short id is placed under. */
  const Prefix: string := "https://1r.example.com/logistics-objects/"

  /** The marker `includes` looks for to decide an id is already a full URI. */
  const Scheme: string := "http"

  const NotFoundMessage: string := "Logistics object not found"

  /** `s.includes(sub)`: `sub` occurs in `s` at some position. */
  function Includes(s: string, sub: string): bool
    decreases |s|
  {
    if |s| < |sub| then false
    else s[..|sub|] == sub || Includes(s[1..], sub)
  }

  /** `sub` occurs in `s` at position `i`. */
  ghost predicate OccursAt(s: string, sub: string, i: int) {
    0 <= i && i + |sub| <= |s| && s[i..i + |sub|] == sub
  }

  /** `Includes` finds an occurrence exactly when there is one. */
  lemma {:induction false} IncludesIff(s: string, sub: string)
    ensures Includes(s, sub) <==> exists i :: OccursAt(s, sub, i)
  {
    if |s| >= |sub| {
      if s[..|sub|] == sub {
        assert OccursAt(s, sub, 0);
      } else {
        IncludesIff(s[1..], sub);
        if Includes(s[1..], sub) {
          var i :| OccursAt(s[1..], sub, i);
          assert s[1..][i..i + |sub|] == s[i + 1..i + 1 + |sub|];
          assert OccursAt(s, sub, i + 1);
        } else {
          forall i ensures !OccursAt(s, sub, i) {
            if 0 < i && i + |sub| <= |s| {
              var t := s[1..];
              var u, v := t[i - 1..i - 1 + |sub|], s[i..i + |sub|];
              assert forall k :: 0 <= k < |sub| ==> u[k] == v[k];
              assert u == v;
              assert !OccursAt(s[1..], sub, i - 1);
            } else if i == 0 {
              assert s[0..|sub|] == s[..|sub|];
            }
          }
        }
      }
    } else {
      assert forall i :: !OccursAt(s, sub, i);
    }
  }

  /** A string that starts with `sub` includes it. */
  lemma IncludesPrefix(sub: string, rest: string)
    ensures Includes(sub + rest, sub)
  {
    assert (sub + rest)[..|sub|] == sub;
  }

  /**
   * The full id of a record: an id that already contains "http" is taken
   * as it is, any other id is placed under the store's base URI.
   */
  function NormalizeId(id: string): (full: string)
    ensures Includes(full, Scheme)
    ensures Includes(id, Scheme) ==> full == id
    ensures !Includes(id, Scheme) ==> full == Prefix + id
  {
    if Includes(id, Scheme) then id
    else
      IncludesPrefix(Scheme, Prefix[|Scheme|..] + id);
      assert Scheme + (Prefix[|Scheme|..] + id) == Prefix + id;
      Prefix + id
  }

  /** Normalising a full id changes nothing. */
  lemma NormalizeIdempotent(id: string)
    ensures NormalizeId(NormalizeId(id)) == NormalizeId(id)
  {
  }

  /** `obj['@id'] === id`. */
  predicate HasId(r: Record, id: string) {
    IdKey in r && r[IdKey] == Str(id)
  }

  /** `obj['@type'] === type`: a list of types never equals a single string. */
  predicate HasType(r: Record, t: string) {
    TypeKey in r && r[TypeKey] == Str(t)
  }

  /** `i` is the first record of `store` with id `fullId`. */
  ghost predicate FirstWithId(store: seq<Record>, fullId: string, i: int) {
    0 <= i < |store| && HasId(store[i], fullId) && forall j :: 0 <= j < i ==> !HasId(store[j], fullId)
  }

  /** `findIndex` by full id: the first record with that id, or -1. */
  function FindIndex(store: seq<Record>, fullId: string): (i: int)
    ensures -1 <= i < |store|
    ensures i == -1 <==> forall j :: 0 <= j < |store| ==> !HasId(store[j], fullId)
    ensures i >= 0 ==> HasId(store[i], fullId) && forall j :: 0 <= j < i ==> !HasId(store[j], fullId)
  {
    if |store| == 0 then -1
    else if HasId(store[0], fullId) then 0
    else
      var i := FindIndex(store[1..], fullId);
      if i == -1 then -1 else i + 1
  }

  /** `getLogisticsObjectById`: the first record whose id is the normalised `id`. */
  function GetById(store: seq<Record>, id: string): (r: Option<Record>)
    ensures r.None? <==> forall j :: 0 <= j < |store| ==> !HasId(store[j], NormalizeId(id))
    ensures r.Some? ==> exists i :: FirstWithId(store, NormalizeId(id), i) && r.value == store[i]
  {
    var i := FindIndex(store, NormalizeId(id));
    if i == -1 then None else Some(store[i])
  }

  /** The type test for one type, as a test function. */
  function TypeIs(t: string): Record -> bool {
    r => HasType(r, t)
  }

  /** `getLogisticsObjectsByType`: the records of type `t`, in store order. */
  function ByType(store: seq<Record>, t: string): (r: seq<Record>)
    ensures forall x :: x in r <==> x in store && HasType(x, t)
    ensures |r| <= |store|
    ensures |store| == 0 ==> r == []
  {
    assert forall x :: TypeIs(t)(x) == HasType(x, t);
    FilterMembers(TypeIs(t), store);
    Filter(TypeIs(t), store)
  }

  /** The decimal digits of `n`, as `${n}` prints a whole number. */
  function Decimal(n: nat): (s: string)
    ensures |s| > 0
    ensures forall c :: c in s ==> '0' <= c <= '9'
  {
    var digit := "0123456789"[n % 10];
    if n < 10 then [digit] else Decimal(n / 10) + [digit]
  }

  /** The id given to an object created at time `now` (milliseconds, from `Date.now()`). */
  function NewId(now: nat): string {
    Prefix + Decimal(now)
  }

  /**
   * `createLogisticsObject`: the given fields with `@id` set to the new id
   * (overriding any `@id` in `data`), appended at the end of the store.
   */
  function Create(store: seq<Record>, data: Record, now: nat): (r: (seq<Record>, Record))
    ensures |r.0| == |store| + 1 && r.0[..|store|] == store && r.0[|store|] == r.1
    ensures HasId(r.1, NewId(now))
    ensures r.1.Keys == data.Keys + {IdKey}
    ensures forall k :: k in data && k != IdKey ==> r.1[k] == data[k]
  {
    var created := data[IdKey := Str(NewId(now))];
    (store + [created], created)
  }

  /**
   * `updateLogisticsObject`: the first record with the normalised id gets
   * the fields of `data`, which win over its own; with no such record the
   * store is unchanged and the error "Logistics object not found" results.
   */
  function Update(store: seq<Record>, id: string, data: Record): (r: (seq<Record>, Result<Record>))
    ensures r.1.Failure? <==> GetById(store, id).None?
    ensures r.1.Failure? ==> r.0 == store && r.1.error == NotFoundMessage
    ensures r.1.Success? ==> exists i ::
      && FirstWithId(store, NormalizeId(id), i)
      && r.0 == store[i := r.1.value]
      && r.1.value.Keys == store[i].Keys + data.Keys
      && (forall k :: k in data ==> r.1.value[k] == data[k])
      && (forall k :: k in store[i] && k !in data ==> r.1.value[k] == store[i][k])
  {
    var i := FindIndex(store, NormalizeId(id));
    if i == -1 then (store, Failure(NotFoundMessage))
    else
      assert FirstWithId(store, NormalizeId(id), i);
      var merged := store[i] + data;
      (store[i := merged], Success(merged))
  }

  /**
   * `deleteLogisticsObject`: the first record with the normalised id is
   * removed and the rest keep their order; `false` and no change when there
   * is none.
   */
  function Delete(store: seq<Record>, id: string): (r: (seq<Record>, bool))
    ensures !r.1 <==> GetById(store, id).None?
    ensures !r.1 ==> r.0 == store
    ensures r.1 ==> exists i ::
      FirstWithId(store, NormalizeId(id), i) && r.0 == store[..i] + store[i + 1..]
  {
    var i := FindIndex(store, NormalizeId(id));
    if i == -1 then (store, false)
    else
      assert FirstWithId(store, NormalizeId(id), i);
      (store[..i] + store[i + 1..], true)
  }

  /** No two records share an id. */
  ghost predicate UniqueIds(store: seq<Record>) {
    forall i, j :: 0 <= i < j < |store| && IdKey in store[i] && IdKey in store[j] ==>
      store[i][IdKey] != store[j][IdKey]
  }

  /** A record created at a time no stored id was made from is found again by the short id. */
  lemma GetAfterCreate(store: seq<Record>, data: Record, now: nat)
    requires forall j :: 0 <= j < |store| ==> !HasId(store[j], NewId(now))
    ensures var (after, created) := Create(store, data, now);
      GetById(after, Decimal(now)) == Some(created) && GetById(after, NewId(now)) == Some(created)
  {
    var (after, created) := Create(store, data, now);
    NewIdNormal(now);
    FoundAtEnd(store, after, NewId(now));
  }

  /** The short id of a created record and its full id both normalise to the full id. */
  lemma NewIdNormal(now: nat)
    ensures NormalizeId(Decimal(now)) == NewId(now)
    ensures NormalizeId(NewId(now)) == NewId(now)
  {
    DecimalHasNoScheme(now);
    IncludesPrefix(Scheme, Prefix[|Scheme|..] + Decimal(now));
    assert Scheme + (Prefix[|Scheme|..] + Decimal(now)) == NewId(now);
  }

  /** A record appended to a store where no record has its id is the one found by that id. */
  lemma FoundAtEnd(store: seq<Record>, after: seq<Record>, fullId: string)
    requires forall j :: 0 <= j < |store| ==> !HasId(store[j], fullId)
    requires |after| == |store| + 1 && after[..|store|] == store && HasId(after[|store|], fullId)
    ensures FindIndex(after, fullId) == |store|
  {
    assert forall j :: 0 <= j < |store| ==> after[j] == store[j];
    assert FirstWithId(after, fullId, |store|);
    FirstWithIdUnique(after, fullId, |store|, FindIndex(after, fullId));
  }

  /** A string of digits never contains "http". */
  lemma DecimalHasNoScheme(n: nat)
    ensures !Includes(Decimal(n), Scheme)
  {
    var d := Decimal(n);
    IncludesIff(d, Scheme);
    forall i ensures !OccursAt(d, Scheme, i) {
      if 0 <= i && i + |Scheme| <= |d| {
        assert d[i..i + |Scheme|][0] == d[i];
        assert d[i] in d;
      }
    }
  }

  /** A successful update that leaves `@id` alone is seen by the next lookup of the same id. */
  lemma GetAfterUpdate(store: seq<Record>, id: string, data: Record)
    requires IdKey !in data
    requires Update(store, id, data).1.Success?
    ensures var (after, result) := Update(store, id, data);
      GetById(after, id) == Some(result.value)
  {
    var (after, result) := Update(store, id, data);
    var full := NormalizeId(id);
    var i :| FirstWithId(store, full, i) && after == store[i := result.value];
    assert FirstWithId(after, full, i) by {
      assert after[i][IdKey] == store[i][IdKey];
      assert forall j :: 0 <= j < i ==> after[j] == store[j];
    }
    FirstWithIdUnique(after, full, i, FindIndex(after, full));
  }

  /** There is only one first record with a given id. */
  lemma FirstWithIdUnique(store: seq<Record>, fullId: string, i: int, j: int)
    requires FirstWithId(store, fullId, i) && (j == -1 || FirstWithId(store, fullId, j))
    requires j == FindIndex(store, fullId)
    ensures i == j
  {
  }

  /** After deleting an id from a store of unique ids, the id is no longer found. */
  lemma GetAfterDelete(store: seq<Record>, id: string)
    requires UniqueIds(store)
    ensures GetById(Delete(store, id).0, id).None?
  {
    var full := NormalizeId(id);
    var i := FindIndex(store, full);
    if i != -1 {
      OnlyRecordWithId(store, full, i, store[..i] + store[i + 1..]);
    }
  }

  /** With unique ids, removing the record with id `fullId` leaves none with that id. */
  lemma OnlyRecordWithId(store: seq<Record>, fullId: string, i: int, after: seq<Record>)
    requires UniqueIds(store) && 0 <= i < |store| && HasId(store[i], fullId)
    requires after == store[..i] + store[i + 1..]
    ensures forall j :: 0 <= j < |after| ==> !HasId(after[j], fullId)
  {
    forall j | 0 <= j < |after| ensures !HasId(after[j], fullId) {
      if j < i {
        assert after[j] == store[j];
      } else {
        assert after[j] == store[j + 1];
      }
    }
  }

  /**
   * Listing a store with one more record at its end lists that record last
   * when it has the type, and nothing more otherwise. With `ByType` of the
   * empty store being empty, this fixes the listing: the records of type
   * `t`, in store order, each as often as it is stored.
   */
  lemma ByTypeAppend(store: seq<Record>, x: Record, t: string)
    ensures ByType(store + [x], t) == ByType(store, t) + (if HasType(x, t) then [x] else [])
  {
    FilterAppend(TypeIs(t), store, [x]);
    assert Filter(TypeIs(t), [x]) == (if HasType(x, t) then [x] else []) by {
      assert [x][1..] == [];
    }
  }

  /** Creating a record adds it to the listing of its type, at the end, and changes no other listing. */
  lemma ByTypeAfterCreate(store: seq<Record>, data: Record, now: nat, t: string)
    ensures var (after, created) := Create(store, data, now);
      ByType(after, t) == ByType(store, t) + (if HasType(created, t) then [created] else [])
  {
    var (after, created) := Create(store, data, now);
    ByTypeAppend(store, created, t);
  }
}
